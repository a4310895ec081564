/**
 Huffman's merging of the two least frequencies, as a function on the frequency table, and its optimality: no
 assignment of lengths that meets Kraft's inequality has a smaller total.
 */
module HuffmanCost {
  import opened Arith
  import opened Bits

  // ----- Sums -----

  function Sum(w: seq<int>): (t: int) {
    if w == [] then 0 else Sum(w[..|w| - 1]) + w[|w| - 1]
  }

  lemma {:induction false} SumUpdate(w: seq<int>, i: nat, v: int)
    requires i < |w|
    ensures Sum(w[i := v]) == Sum(w) - w[i] + v
  {
    var m := |w| - 1;
    if i < m {
      SumUpdate(w[..m], i, v);
      assert w[i := v][..m] == w[..m][i := v];
    } else {
      assert w[i := v][..m] == w[..m];
    }
  }

  /** Changing two entries. */
  lemma SumUpdate2(w: seq<int>, i: nat, v: int, j: nat, u: int)
    requires i < |w| && j < |w| && i != j
    ensures Sum(w[i := v][j := u]) == Sum(w) - w[i] - w[j] + v + u
  {
    SumUpdate(w, i, v);
    SumUpdate(w[i := v], j, u);
  }

  lemma {:induction false} SumNonNeg(w: seq<int>)
    requires forall i :: 0 <= i < |w| ==> w[i] >= 0
    ensures Sum(w) >= 0
  {
    if w != [] { SumNonNeg(w[..|w| - 1]); }
  }

  lemma {:induction false} SumDivisible(w: seq<int>, d: int)
    requires d > 0 && forall i :: 0 <= i < |w| ==> w[i] % d == 0
    ensures Sum(w) % d == 0
  {
    if w != [] {
      SumDivisible(w[..|w| - 1], d);
      DivisibleSum(Sum(w[..|w| - 1]), w[|w| - 1], d);
    }
  }

  // ----- Picking and merging -----

  /** The index below `n`, other than `skip`, of the least nonzero frequency; of equals the largest index; or -1. */
  function Pick(f: seq<nat>, n: nat, skip: int): (c: int)
    requires n <= |f|
    ensures -1 <= c < n
    ensures c >= 0 ==> f[c] != 0 && c != skip
    ensures forall k :: 0 <= k < n && f[k] != 0 && k != skip ==> c >= 0 && f[c] <= f[k]
  {
    if n == 0 then -1
    else
      var c := Pick(f, n - 1, skip);
      if f[n - 1] != 0 && n - 1 != skip && (c < 0 || f[n - 1] <= f[c]) then n - 1 else c
  }

  function NumUsed(f: seq<nat>): (u: nat) {
    if f == [] then 0 else NumUsed(f[..|f| - 1]) + (if f[|f| - 1] == 0 then 0 else 1)
  }

  function Merge(f: seq<nat>, c1: nat, c2: nat): (g: seq<nat>)
    requires c1 < |f| && c2 < |f|
  {
    f[c1 := f[c1] + f[c2]][c2 := 0]
  }

  lemma {:induction false} NumUsedUpdate(f: seq<nat>, i: nat, v: nat)
    requires i < |f|
    ensures NumUsed(f[i := v]) == NumUsed(f) - (if f[i] == 0 then 0 else 1) + (if v == 0 then 0 else 1)
  {
    var m := |f| - 1;
    if i < m {
      NumUsedUpdate(f[..m], i, v);
      assert f[i := v][..m] == f[..m][i := v];
    } else {
      assert f[i := v][..m] == f[..m];
    }
  }

  lemma MergeUses(f: seq<nat>, c1: nat, c2: nat)
    requires c1 < |f| && c2 < |f| && c1 != c2 && f[c1] != 0 && f[c2] != 0
    ensures NumUsed(Merge(f, c1, c2)) == NumUsed(f) - 1
  {
    hide NumUsed;
    NumUsedUpdate(f, c1, f[c1] + f[c2]);
    NumUsedUpdate(f[c1 := f[c1] + f[c2]], c2, 0);
  }

  /** The total of the merged frequencies over the whole procedure. */
  function HuffCost(f: seq<nat>): (t: nat)
    decreases NumUsed(f)
  {
    var c1 := Pick(f, |f|, -1);
    var c2 := Pick(f, |f|, c1);
    if c2 < 0 || c1 < 0 then 0
    else
      MergeUses(f, c1, c2);
      f[c1] + f[c2] + HuffCost(Merge(f, c1, c2))
  }

  // ----- Length assignments -----

  function CostTerms(f: seq<nat>, l: seq<nat>): (w: seq<int>)
    requires |f| == |l|
    ensures |w| == |f|
  {
    seq(|f|, s requires 0 <= s < |f| => f[s] * l[s])
  }

  /** The total code length, weighted by frequency. */
  function Cost(f: seq<nat>, l: seq<nat>): (t: int)
    requires |f| == |l|
  {
    Sum(CostTerms(f, l))
  }

  ghost predicate Bounded(f: seq<nat>, l: seq<nat>, top: nat) {
    |f| == |l| && forall s :: 0 <= s < |f| && f[s] != 0 ==> l[s] <= top
  }

  function KraftTerms(f: seq<nat>, l: seq<nat>, top: nat): (w: seq<int>)
    requires |f| == |l|
    ensures |w| == |f|
  {
    seq(|f|, s requires 0 <= s < |f| => if f[s] == 0 || l[s] > top then 0 else Pow2(top - l[s]))
  }

  /** The used symbols meet Kraft's inequality. */
  ghost predicate Feasible(f: seq<nat>, l: seq<nat>, top: nat) {
    Bounded(f, l, top) && Sum(KraftTerms(f, l, top)) <= Pow2(top)
  }

  function Swap(l: seq<nat>, a: nat, b: nat): (r: seq<nat>)
    requires a < |l| && b < |l|
  {
    l[a := l[b]][b := l[a]]
  }

  /** Giving the longer of two codes to the rarer symbol does not raise the cost. */
  lemma SwapCost(f: seq<nat>, l: seq<nat>, a: nat, b: nat)
    requires |f| == |l| && a < |f| && b < |f| && f[a] <= f[b] && l[a] <= l[b]
    ensures Cost(f, Swap(l, a, b)) <= Cost(f, l)
  {
    if a == b {
      assert Swap(l, a, b) == l;
    } else {
      var w := CostTerms(f, l);
      assert CostTerms(f, Swap(l, a, b)) == w[a := f[a] * l[b]][b := f[b] * l[a]];
      SumUpdate2(w, a, f[a] * l[b], b, f[b] * l[a]);
      Rearrange(f[a], f[b], l[a], l[b]);
    }
  }

  lemma SwapFeasible(f: seq<nat>, l: seq<nat>, top: nat, a: nat, b: nat)
    requires Feasible(f, l, top) && a < |f| && b < |f| && f[a] != 0 && f[b] != 0
    ensures Feasible(f, Swap(l, a, b), top)
  {
    if a == b {
      assert Swap(l, a, b) == l;
    } else {
      var w := KraftTerms(f, l, top);
      assert KraftTerms(f, Swap(l, a, b), top) == w[a := w[b]][b := w[a]];
      SumUpdate2(w, a, w[b], b, w[a]);
    }
  }

  /** The used index below `n`, other than `skip`, of the greatest length. */
  function Longest(f: seq<nat>, l: seq<nat>, n: nat, skip: int): (m: int)
    requires n <= |f| == |l|
    ensures -1 <= m < n
    ensures m >= 0 ==> f[m] != 0 && m != skip
    ensures forall k :: 0 <= k < n && f[k] != 0 && k != skip ==> m >= 0 && l[k] <= l[m]
  {
    if n == 0 then -1
    else
      var m := Longest(f, l, n - 1, skip);
      if f[n - 1] != 0 && n - 1 != skip && (m < 0 || l[n - 1] >= l[m]) then n - 1 else m
  }

  lemma PowDivisible(a: nat, b: nat)
    requires a <= b
    ensures Pow2(b) % Pow2(a) == 0
  {
    Pow2Add(b - a, a);
    DivModUnique(Pow2(b - a), 0, Pow2(a), Pow2(b));
  }

  lemma MultipleBelow(x: int, top: int, d: int)
    requires d > 0 && x % d == 0 && top % d == 0 && x < top
    ensures x + d <= top
  {
    assert x == (x / d) * d && top == (top / d) * d;
    if x / d >= top / d { MulMono(top / d, x / d, d); }
    MulMono(x / d + 1, top / d, d);
    MulDistrib(x / d, 1, d);
  }

  /** In a sum of multiples of d, one small positive term can be raised to d without passing a multiple of d. */
  lemma RaiseTerm(w: seq<int>, c: nat, d: nat, total: nat)
    requires c < |w| && d > 0 && 0 < w[c] && Sum(w) <= total && total % d == 0
    requires forall i :: 0 <= i < |w| && i != c ==> w[i] % d == 0
    ensures Sum(w[c := d]) <= total
  {
    hide Sum;
    var rest := w[c := 0];
    assert rest[c] % d == 0 by { DivModUnique(0, 0, d, 0); }
    SumUpdate(w, c, d);
    SumUpdate(w, c, 0);
    SumDivisible(rest, d);
    MultipleBelow(Sum(rest), total, d);
  }

  lemma ShortenFeasible(f: seq<nat>, l: seq<nat>, top: nat, c1: nat, c2: nat)
    requires Feasible(f, l, top) && c1 < |f| && c2 < |f| && c1 != c2 && f[c1] != 0 && f[c2] != 0 && l[c2] < l[c1]
    requires forall k :: 0 <= k < |f| && f[k] != 0 && k != c1 ==> l[k] <= l[c2]
    ensures Feasible(f, l[c1 := l[c2]], top)
  {
    hide Sum, Pow2;
    var w := KraftTerms(f, l, top);
    var d := Pow2(top - l[c2]);
    assert KraftTerms(f, l[c1 := l[c2]], top) == w[c1 := d];
    forall i | 0 <= i < |w| && i != c1 ensures w[i] % d == 0 {
      if f[i] != 0 { PowDivisible(top - l[c2], top - l[i]); } else { DivModUnique(0, 0, d, 0); }
    }
    PowDivisible(top - l[c2], top);
    RaiseTerm(w, c1, d, Pow2(top));
  }

  /** A longest code that is longer than all others can be cut to the length of the next longest. */
  lemma Shorten(f: seq<nat>, l: seq<nat>, top: nat, c1: nat, c2: nat)
    requires Feasible(f, l, top) && c1 < |f| && c2 < |f| && c1 != c2 && f[c1] != 0 && f[c2] != 0 && l[c2] <= l[c1]
    requires forall k :: 0 <= k < |f| && f[k] != 0 && k != c1 ==> l[k] <= l[c2]
    ensures Feasible(f, l[c1 := l[c2]], top)
    ensures Cost(f, l[c1 := l[c2]]) <= Cost(f, l)
  {
    hide KraftTerms, Sum, Cost;
    CutCost(f, l, c1, l[c2]);
    if l[c2] < l[c1] {
      ShortenFeasible(f, l, top, c1, c2);
    } else {
      assert l[c1 := l[c2]] == l;
    }
  }

  lemma CutCost(f: seq<nat>, l: seq<nat>, c: nat, v: nat)
    requires |f| == |l| && c < |f| && v <= l[c]
    ensures Cost(f, l[c := v]) == Cost(f, l) - f[c] * l[c] + f[c] * v <= Cost(f, l)
  {
    var w := CostTerms(f, l);
    assert CostTerms(f, l[c := v]) == w[c := f[c] * v];
    SumUpdate(w, c, f[c] * v);
    MulMono(v, l[c], f[c]);
  }

  lemma MergeFeasible(f: seq<nat>, l: seq<nat>, top: nat, c1: nat, c2: nat)
    requires Feasible(f, l, top) && c1 < |f| && c2 < |f| && c1 != c2 && f[c1] != 0 && f[c2] != 0 && l[c1] == l[c2]
    ensures 1 <= l[c1]
    ensures Feasible(Merge(f, c1, c2), l[c1 := l[c1] - 1], top)
  {
    var w, p := KraftTerms(f, l, top), Pow2(top - l[c1]);
    assert w[c1] == p && w[c2] == p;
    SumUpdate2(w, c1, 0, c2, 0);
    SumNonNeg(w[c1 := 0][c2 := 0]);
    assert l[c1] != 0;
    assert KraftTerms(Merge(f, c1, c2), l[c1 := l[c1] - 1], top) == w[c1 := 2 * p][c2 := 0];
    SumUpdate2(w, c1, 2 * p, c2, 0);
  }

  lemma MergeCost(f: seq<nat>, l: seq<nat>, c1: nat, c2: nat)
    requires |f| == |l| && c1 < |f| && c2 < |f| && c1 != c2 && l[c1] == l[c2] >= 1
    ensures Cost(Merge(f, c1, c2), l[c1 := l[c1] - 1]) == Cost(f, l) - (f[c1] + f[c2])
  {
    var z, n := CostTerms(f, l), l[c1];
    var v := (f[c1] + f[c2]) * (n - 1);
    assert CostTerms(Merge(f, c1, c2), l[c1 := n - 1]) == z[c1 := v][c2 := 0];
    assert z[c1] == f[c1] * n && z[c2] == f[c2] * n;
    hide *;
    SumUpdate2(z, c1, v, c2, 0);
    MulDistrib(f[c1], f[c2], n);
    MulDistrib(n - 1, 1, f[c1] + f[c2]);
  }

  /** Two codes of equal length become, in the merged table, one code that is a bit shorter. */
  lemma MergeLengths(f: seq<nat>, l: seq<nat>, top: nat, c1: nat, c2: nat)
    requires Feasible(f, l, top) && c1 < |f| && c2 < |f| && c1 != c2 && f[c1] != 0 && f[c2] != 0 && l[c1] == l[c2]
    ensures 1 <= l[c1]
    ensures Feasible(Merge(f, c1, c2), l[c1 := l[c1] - 1], top)
    ensures Cost(Merge(f, c1, c2), l[c1 := l[c1] - 1]) == Cost(f, l) - (f[c1] + f[c2])
  {
    hide KraftTerms, Cost, Merge;
    MergeFeasible(f, l, top, c1, c2);
    MergeCost(f, l, c1, c2);
  }

  /** The procedure's total is least among all feasible length assignments. */
  lemma {:induction false} HuffCostIsLeast(f: seq<nat>, l: seq<nat>, top: nat)
    requires Feasible(f, l, top)
    ensures HuffCost(f) <= Cost(f, l)
    decreases NumUsed(f)
  {
    var c1 := Pick(f, |f|, -1);
    var c2 := Pick(f, |f|, c1);
    if c2 < 0 {
      CostNonNeg(f, l);
    } else {
      hide Cost, Feasible, HuffCost, Merge, Swap, NumUsed;
      var m1 := Longest(f, l, |f|, -1);
      var l1 := Swap(l, c1, m1);
      SwapCost(f, l, c1, m1);
      SwapFeasible(f, l, top, c1, m1);
      SwapLongest(f, l, c1, m1);
      var m2 := Longest(f, l1, |f|, c1);
      var l2 := Swap(l1, c2, m2);
      SwapCost(f, l1, c2, m2);
      SwapFeasible(f, l1, top, c2, m2);
      SwapNextLongest(f, l1, c1, c2, m2);
      Shorten(f, l2, top, c1, c2);
      var l3 := l2[c1 := l2[c2]];
      MergeLengths(f, l3, top, c1, c2);
      MergeUses(f, c1, c2);
      HuffCostIsLeast(Merge(f, c1, c2), l3[c1 := l3[c1] - 1], top);
      HuffCostStep(f, c1, c2);
    }
  }

  lemma HuffCostStep(f: seq<nat>, c1: int, c2: int)
    requires c1 == Pick(f, |f|, -1) && c2 == Pick(f, |f|, c1) && c1 >= 0 && c2 >= 0
    ensures HuffCost(f) == f[c1] + f[c2] + HuffCost(Merge(f, c1, c2))
  {
  }

  lemma CostNonNeg(f: seq<nat>, l: seq<nat>)
    requires |f| == |l|
    ensures Cost(f, l) >= 0
  {
    forall i | 0 <= i < |f| ensures CostTerms(f, l)[i] >= 0 { MulNonNeg(f[i], l[i]); }
    SumNonNeg(CostTerms(f, l));
  }

  lemma SwapLongest(f: seq<nat>, l: seq<nat>, c1: nat, m: nat)
    requires |f| == |l| && c1 < |f| && m < |f| && f[c1] != 0
    requires forall k :: 0 <= k < |f| && f[k] != 0 ==> l[k] <= l[m]
    ensures forall k :: 0 <= k < |f| && f[k] != 0 ==> Swap(l, c1, m)[k] <= Swap(l, c1, m)[c1]
    ensures |Swap(l, c1, m)| == |f|
  {
  }

  lemma SwapNextLongest(f: seq<nat>, l: seq<nat>, c1: nat, c2: nat, m: nat)
    requires |f| == |l| && c1 < |f| && c2 < |f| && m < |f| && c1 != c2 && c1 != m && f[m] != 0 && f[c1] != 0
    requires forall k :: 0 <= k < |f| && f[k] != 0 ==> l[k] <= l[c1]
    requires forall k :: 0 <= k < |f| && f[k] != 0 && k != c1 ==> l[k] <= l[m]
    requires f[c2] != 0
    ensures |Swap(l, c2, m)| == |f|
    ensures Swap(l, c2, m)[c2] <= Swap(l, c2, m)[c1]
    ensures forall k :: 0 <= k < |f| && f[k] != 0 && k != c1 ==> Swap(l, c2, m)[k] <= Swap(l, c2, m)[c2]
  {
    assert l[c2] <= l[m] <= l[c1];
    forall k | 0 <= k < |f| && f[k] != 0 && k != c1 ensures Swap(l, c2, m)[k] <= Swap(l, c2, m)[c2] {
      assert l[k] <= l[m];
    }
  }
}
