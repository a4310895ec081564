/**
 The state of the merge loop of `jpeg_gen_optimal_table`: a forest whose trees are kept only as code lengths and as
 chains of symbols, and what merging two trees keeps.
 */
module HuffmanForest {
  import opened Arith
  import opened HuffmanCost

  const N := 257

  // ----- Real-valued sums -----

  function SumR(w: seq<real>): (t: real) {
    if w == [] then 0.0 else SumR(w[..|w| - 1]) + w[|w| - 1]
  }

  /** 2 to the power -l. */
  function Half(l: nat): (h: real)
    ensures h > 0.0
  {
    if l == 0 then 1.0 else Half(l - 1) / 2.0
  }

  lemma {:induction false} SumRAverage(a: seq<real>, b: seq<real>, c: seq<real>)
    requires |a| == |b| == |c| && forall i :: 0 <= i < |c| ==> c[i] == (a[i] + b[i]) / 2.0
    ensures SumR(c) == (SumR(a) + SumR(b)) / 2.0
  {
    if c != [] {
      var m := |c| - 1;
      SumRAverage(a[..m], b[..m], c[..m]);
      assert c[m] == (a[m] + b[m]) / 2.0;
    }
  }

  lemma {:induction false} SumAdd(a: seq<int>, b: seq<int>, c: seq<int>)
    requires |a| == |b| == |c| && forall i :: 0 <= i < |c| ==> c[i] == a[i] + b[i]
    ensures Sum(c) == Sum(a) + Sum(b)
  {
    if c != [] {
      var m := |c| - 1;
      SumAdd(a[..m], b[..m], c[..m]);
      assert c[m] == a[m] + b[m];
    }
  }

  // ----- Parts of the invariant -----

  /** The frequencies of the symbols of tree `i`. */
  function TreeFreqs(f0: seq<nat>, owner: seq<int>, i: int): (w: seq<int>)
    requires |f0| == |owner|
    ensures |w| == |f0|
  {
    seq(|f0|, s requires 0 <= s < |f0| => if owner[s] == i then f0[s] else 0)
  }

  /** The Kraft terms of the symbols of tree `i`. */
  function TreeHalves(cs: seq<nat>, owner: seq<int>, i: int): (w: seq<real>)
    requires |cs| == |owner|
    ensures |w| == |cs|
  {
    seq(|cs|, s requires 0 <= s < |cs| => if owner[s] == i then Half(cs[s]) else 0.0)
  }

  /** The links lead from the first symbol of the chain through all of it, and end there. */
  ghost predicate Linked(others: seq<int>, chain: seq<nat>) {
    && chain != []
    && (forall k :: 0 <= k < |chain| ==> chain[k] < |others|)
    && (forall k, m :: 0 <= k < m < |chain| ==> chain[k] != chain[m])
    && (forall k :: 0 <= k < |chain| - 1 ==> others[chain[k]] == chain[k + 1])
    && others[chain[|chain| - 1]] == -1
  }

  /** The symbols of tree `i` are those of its chain. */
  ghost predicate ChainOwned(owner: seq<int>, chain: seq<nat>, i: int) {
    && (forall s :: 0 <= s < |owner| ==> (owner[s] == i <==> s in chain))
  }

  /** Each live root heads a chain; each used symbol belongs to a live root. */
  ghost predicate Chained(f0: seq<nat>, freq: seq<nat>, others: seq<int>, owner: seq<int>, chains: seq<seq<nat>>) {
    && |f0| == |freq| == |others| == |owner| == |chains| == N
    && (forall i :: 0 <= i < N && freq[i] != 0 ==>
          Linked(others, chains[i]) && chains[i][0] == i && ChainOwned(owner, chains[i], i))
    && (forall s :: 0 <= s < N ==>
          if f0[s] == 0 then owner[s] == -1 else 0 <= owner[s] < N && freq[owner[s]] != 0)
  }

  /** A root's frequency is the total of its tree. */
  ghost predicate Weighed(f0: seq<nat>, freq: seq<nat>, owner: seq<int>) {
    |f0| == |freq| == |owner| == N && forall i :: 0 <= i < N ==> freq[i] == Sum(TreeFreqs(f0, owner, i))
  }

  /** The code lengths of each tree use up Kraft's inequality. */
  ghost predicate Complete(freq: seq<nat>, cs: seq<nat>, owner: seq<int>) {
    |freq| == |cs| == |owner| == N && forall i :: 0 <= i < N && freq[i] != 0 ==> SumR(TreeHalves(cs, owner, i)) == 1.0
  }

  /** Only unused symbols, and symbols not merged yet, have length 0. */
  ghost predicate Sized(f0: seq<nat>, cs: seq<nat>, owner: seq<int>, chains: seq<seq<nat>>) {
    && |f0| == |cs| == |owner| == |chains| == N
    && forall s :: 0 <= s < N ==>
         if f0[s] == 0 then cs[s] == 0
         else 0 <= owner[s] < N && (|chains[owner[s]]| >= 2 ==> cs[s] >= 1)
  }

  function Fib(n: nat): (f: nat) {
    if n < 2 then n else Fib(n - 1) + Fib(n - 2)
  }

  /** All trees but the `i`-th weigh at least `v`. */
  ghost predicate OthersWeigh(freq: seq<nat>, i: int, v: nat) {
    forall j :: 0 <= j < |freq| && j != i && freq[j] != 0 ==> freq[j] >= v
  }

  /** A tree of height h weighs at least F(h+2), and every other tree at least F(h+1). */
  ghost predicate Heavy(freq: seq<nat>, height: seq<nat>) {
    && |freq| == |height| == N
    && forall i :: 0 <= i < N && freq[i] != 0 ==>
         freq[i] >= Fib(height[i] + 2) && OthersWeigh(freq, i, Fib(height[i] + 1))
  }

  /** No code is longer than its tree is high. */
  ghost predicate Within(cs: seq<nat>, owner: seq<int>, height: seq<nat>) {
    && |cs| == |owner| == |height| == N
    && forall s :: 0 <= s < N && 0 <= owner[s] < N ==> cs[s] <= height[owner[s]]
  }

  lemma FibStep(n: nat)
    ensures Fib(n + 2) == Fib(n + 1) + Fib(n)
  {
  }

  // ----- What a merge does -----

  /** Every symbol of the two trees gets a longer code. */
  function Deepen(cs: seq<nat>, owner: seq<int>, c1: int, c2: int): (r: seq<nat>)
    requires |cs| == |owner|
    ensures |r| == |cs|
  {
    seq(|cs|, s requires 0 <= s < |cs| => if owner[s] == c1 || owner[s] == c2 then cs[s] + 1 else cs[s])
  }

  function Reown(owner: seq<int>, c1: int, c2: int): (r: seq<int>)
    ensures |r| == |owner|
  {
    seq(|owner|, s requires 0 <= s < |owner| => if owner[s] == c2 then c1 else owner[s])
  }

  function JoinChains(chains: seq<seq<nat>>, c1: nat, c2: nat): (r: seq<seq<nat>>)
    requires c1 < |chains| && c2 < |chains|
  {
    chains[c1 := chains[c1] + chains[c2]][c2 := []]
  }

  lemma JoinLinked(others: seq<int>, a: seq<nat>, b: seq<nat>)
    requires Linked(others, a) && Linked(others, b)
    requires forall s :: s in a ==> s !in b
    ensures Linked(others[a[|a| - 1] := b[0]], a + b)
  {
    var o := others[a[|a| - 1] := b[0]];
    var c := a + b;
    forall k | 0 <= k < |c| - 1 ensures o[c[k]] == c[k + 1] {
      if k < |a| - 1 {
        assert c[k] == a[k] && a[k] != a[|a| - 1];
      } else if k >= |a| {
        assert c[k] == b[k - |a|] && c[k] in b && a[|a| - 1] in a;
      }
    }
    forall k, m | 0 <= k < m < |c| ensures c[k] != c[m] {
      if k < |a| <= m {
        assert c[k] in a && c[m] in b;
      }
    }
    assert c[|c| - 1] == b[|b| - 1] && b[|b| - 1] in b && a[|a| - 1] in a;
  }

  lemma LinkedElsewhere(others: seq<int>, chain: seq<nat>, x: nat, v: int)
    requires Linked(others, chain) && x < |others| && x !in chain
    ensures Linked(others[x := v], chain)
  {
  }

  lemma MergeChained(f0: seq<nat>, freq: seq<nat>, others: seq<int>, owner: seq<int>, chains: seq<seq<nat>>,
                     c1: nat, c2: nat)
    requires Chained(f0, freq, others, owner, chains)
    requires c1 < N && c2 < N && c1 != c2 && freq[c1] != 0 && freq[c2] != 0
    ensures Chained(f0, Merge(freq, c1, c2), others[chains[c1][|chains[c1]| - 1] := c2],
                    Reown(owner, c1, c2), JoinChains(chains, c1, c2))
  {
    var a, b := chains[c1], chains[c2];
    var last := a[|a| - 1];
    var o, freq', owner', chains' := others[last := c2], Merge(freq, c1, c2), Reown(owner, c1, c2),
                                     JoinChains(chains, c1, c2);
    assert last in a && owner[last] == c1;
    forall s | s in a ensures s !in b { assert owner[s] == c1; }
    forall i | 0 <= i < N && freq'[i] != 0
      ensures Linked(o, chains'[i]) && chains'[i][0] == i && ChainOwned(owner', chains'[i], i)
    {
      if i == c1 {
        JoinLinked(others, a, b);
        assert ChainOwned(owner, a, c1) && ChainOwned(owner, b, c2);
      } else {
        assert ChainOwned(owner, chains[i], i);
        LinkedElsewhere(others, chains[i], last, c2);
      }
    }
  }

  lemma MergeWeighed(f0: seq<nat>, freq: seq<nat>, owner: seq<int>, c1: nat, c2: nat)
    requires Weighed(f0, freq, owner) && c1 < N && c2 < N && c1 != c2
    ensures Weighed(f0, Merge(freq, c1, c2), Reown(owner, c1, c2))
  {
    hide Sum;
    var owner' := Reown(owner, c1, c2);
    forall i | 0 <= i < N ensures Merge(freq, c1, c2)[i] == Sum(TreeFreqs(f0, owner', i)) {
      if i == c1 {
        SumAdd(TreeFreqs(f0, owner, c1), TreeFreqs(f0, owner, c2), TreeFreqs(f0, owner', c1));
      } else if i == c2 {
        SumZero(TreeFreqs(f0, owner', c2));
      } else {
        assert TreeFreqs(f0, owner', i) == TreeFreqs(f0, owner, i);
      }
    }
  }

  lemma {:induction false} SumZero(w: seq<int>)
    requires forall i :: 0 <= i < |w| ==> w[i] == 0
    ensures Sum(w) == 0
  {
    if w != [] { SumZero(w[..|w| - 1]); }
  }

  lemma MergeComplete(freq: seq<nat>, cs: seq<nat>, owner: seq<int>, c1: nat, c2: nat)
    requires Complete(freq, cs, owner) && c1 < N && c2 < N && c1 != c2 && freq[c1] != 0 && freq[c2] != 0
    ensures Complete(Merge(freq, c1, c2), Deepen(cs, owner, c1, c2), Reown(owner, c1, c2))
  {
    hide SumR;
    var cs', owner' := Deepen(cs, owner, c1, c2), Reown(owner, c1, c2);
    forall i | 0 <= i < N && Merge(freq, c1, c2)[i] != 0 ensures SumR(TreeHalves(cs', owner', i)) == 1.0 {
      if i == c1 {
        SumRAverage(TreeHalves(cs, owner, c1), TreeHalves(cs, owner, c2), TreeHalves(cs', owner', c1));
      } else {
        assert TreeHalves(cs', owner', i) == TreeHalves(cs, owner, i);
      }
    }
  }

  lemma MergeSized(f0: seq<nat>, cs: seq<nat>, owner: seq<int>, chains: seq<seq<nat>>, c1: nat, c2: nat)
    requires Sized(f0, cs, owner, chains) && c1 < N && c2 < N && c1 != c2
    requires forall s :: 0 <= s < N && f0[s] == 0 ==> owner[s] == -1
    ensures Sized(f0, Deepen(cs, owner, c1, c2), Reown(owner, c1, c2), JoinChains(chains, c1, c2))
  {
  }

  function Taller(height: seq<nat>, c1: nat, c2: nat): (r: seq<nat>)
    requires c1 < |height| && c2 < |height|
  {
    height[c1 := 1 + (if height[c1] >= height[c2] then height[c1] else height[c2])]
  }

  /** The merged tree: `t` is the higher of its parts, `u` the other. */
  lemma MergedIsHeavy(freq: seq<nat>, height: seq<nat>, t: nat, u: nat)
    requires Heavy(freq, height) && t < N && u < N && t != u && freq[t] != 0 && freq[u] != 0
    ensures freq[t] + freq[u] >= Fib(height[t] + 1 + 2)
    ensures freq[t] >= Fib(height[t] + 1 + 1)
  {
    assert freq[u] >= Fib(height[t] + 1) by { assert OthersWeigh(freq, t, Fib(height[t] + 1)); }
    FibStep(height[t] + 1);
  }

  /** Merging the two lightest trees: the new tree is heavy, and everything else is at least as heavy as its parts. */
  lemma MergeHeavy(freq: seq<nat>, height: seq<nat>, c1: nat, c2: nat)
    requires Heavy(freq, height)
    requires c1 < N && c2 < N && c1 != c2 && freq[c1] != 0 && freq[c2] != 0
    requires forall k :: 0 <= k < N && freq[k] != 0 && k != c1 ==> freq[c2] <= freq[k]
    requires freq[c1] <= freq[c2]
    ensures Heavy(Merge(freq, c1, c2), Taller(height, c1, c2))
  {
    hide Fib;
    MergedIsHeavy(freq, height, c1, c2);
    MergedIsHeavy(freq, height, c2, c1);
    var freq', height' := Merge(freq, c1, c2), Taller(height, c1, c2);
    forall i | 0 <= i < N && freq'[i] != 0
      ensures freq'[i] >= Fib(height'[i] + 2) && OthersWeigh(freq', i, Fib(height'[i] + 1))
    {
      if i != c1 { assert OthersWeigh(freq, i, Fib(height[i] + 1)); }
    }
  }

  lemma MergeWithin(cs: seq<nat>, owner: seq<int>, height: seq<nat>, c1: nat, c2: nat)
    requires Within(cs, owner, height) && c1 < N && c2 < N && c1 != c2
    ensures Within(Deepen(cs, owner, c1, c2), Reown(owner, c1, c2), Taller(height, c1, c2))
  {
  }

  /** Lengthening the codes of two trees costs what the trees weigh. */
  lemma MergeCostGrows(f0: seq<nat>, freq: seq<nat>, cs: seq<nat>, owner: seq<int>, c1: nat, c2: nat)
    requires Weighed(f0, freq, owner) && |cs| == N && c1 < N && c2 < N && c1 != c2
    ensures Cost(f0, Deepen(cs, owner, c1, c2)) == Cost(f0, cs) + freq[c1] + freq[c2]
  {
    hide Sum;
    var a, b := TreeFreqs(f0, owner, c1), TreeFreqs(f0, owner, c2);
    var ab := seq(N, s requires 0 <= s < N => a[s] + b[s]);
    SumAdd(a, b, ab);
    var w, w' := CostTerms(f0, cs), CostTerms(f0, Deepen(cs, owner, c1, c2));
    forall s | 0 <= s < N ensures w'[s] == w[s] + ab[s] {
      MulDistrib(cs[s], 1, f0[s]);
    }
    SumAdd(w, ab, w');
  }
}
