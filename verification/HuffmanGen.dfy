/** `jpeg_gen_optimal_table` (section K.2 of ITU-T T.81). */
module HuffmanGen {
  import opened Arith
  import opened Bits
  import opened HuffmanCost
  import opened HuffmanDepth
  import opened HuffmanForest

  const MAX_FREQ := 1_000_000_000

  // ----- The merge loop -----

  /** The least nonzero frequency at an index other than `skip`; of equals the larger index; -1 if there is none. */
  method LeastFrequency(freq: array<nat>, skip: int) returns (c: int)
    requires freq.Length == N && forall i :: 0 <= i < N ==> freq[i] <= MAX_FREQ
    ensures c == Pick(freq[..], N, skip)
  {
    c := -1;
    var v, i := MAX_FREQ, 0;
    while i <= 256
      invariant 0 <= i <= N && c == Pick(freq[..], i, skip)
      invariant v == if c < 0 then MAX_FREQ else freq[c]
    {
      if freq[i] != 0 && freq[i] <= v && i != skip {
        v, c := freq[i], i;
      }
      i := i + 1;
    }
  }

  function Bump(cs: seq<nat>, chain: seq<nat>): (r: seq<nat>)
    ensures |r| == |cs|
  {
    seq(|cs|, s requires 0 <= s < |cs| => if s in chain then cs[s] + 1 else cs[s])
  }

  /** Lengthens the code of every symbol of a chain; returns the chain's last symbol. */
  method BumpChain(codesize: array<nat>, others: array<int>, c: nat, ghost chain: seq<nat>) returns (last: nat)
    requires codesize.Length == others.Length == N && codesize as object != others
    requires Linked(others[..], chain) && chain[0] == c
    modifies codesize
    ensures codesize[..] == Bump(old(codesize[..]), chain)
    ensures last == chain[|chain| - 1]
  {
    ghost var k := 0;
    last := c;
    codesize[last] := codesize[last] + 1;
    while others[last] >= 0
      invariant 0 <= k < |chain| && last == chain[k] && last < N
      invariant others[last] == if k < |chain| - 1 then chain[k + 1] else -1
      invariant forall s :: 0 <= s < N ==>
                  codesize[s] == old(codesize[s]) + (if s in chain[..k + 1] then 1 else 0)
      invariant others[..] == old(others[..])
      decreases |chain| - k
    {
      assert chain[k + 1] !in chain[..k + 1];
      assert chain[..k + 2] == chain[..k + 1] + [chain[k + 1]];
      last := others[last];
      codesize[last] := codesize[last] + 1;
      k := k + 1;
    }
    assert chain[..k + 1] == chain;
  }

  ghost predicate Forest(f0: seq<nat>, freq: seq<nat>, cs: seq<nat>, others: seq<int>,
                         owner: seq<int>, chains: seq<seq<nat>>, height: seq<nat>) {
    && Chained(f0, freq, others, owner, chains)
    && Weighed(f0, freq, owner)
    && Complete(freq, cs, owner)
    && Sized(f0, cs, owner, chains)
    && Heavy(freq, height)
    && Within(cs, owner, height)
    && Cost(f0, cs) + HuffCost(freq) == HuffCost(f0)
  }

  lemma MergeForest(f0: seq<nat>, freq: seq<nat>, cs: seq<nat>, others: seq<int>,
                    owner: seq<int>, chains: seq<seq<nat>>, height: seq<nat>, c1: int, c2: int)
    requires Forest(f0, freq, cs, others, owner, chains, height)
    requires |freq| == N && c1 == Pick(freq, N, -1) && c2 == Pick(freq, N, c1) && 0 <= c1 && 0 <= c2
    requires |chains| == |others| == |owner| == |height| == |cs| == N && chains[c1] != []
    requires chains[c1][|chains[c1]| - 1] < N
    ensures Forest(f0, Merge(freq, c1, c2), Deepen(cs, owner, c1, c2), others[chains[c1][|chains[c1]| - 1] := c2],
                   Reown(owner, c1, c2), JoinChains(chains, c1, c2), Taller(height, c1, c2))
  {
    hide Chained, Weighed, Complete, Sized, Heavy, Within, Cost, HuffCost, Merge, Deepen, Reown, JoinChains, Taller;
    MergeChained(f0, freq, others, owner, chains, c1, c2);
    MergeWeighed(f0, freq, owner, c1, c2);
    MergeComplete(freq, cs, owner, c1, c2);
    UnusedUnowned(f0, freq, others, owner, chains);
    MergeSized(f0, cs, owner, chains, c1, c2);
    MergeHeavy(freq, height, c1, c2);
    MergeWithin(cs, owner, height, c1, c2);
    MergeCostGrows(f0, freq, cs, owner, c1, c2);
    HuffCostStep(freq, c1, c2);
  }

  lemma UnusedUnowned(f0: seq<nat>, freq: seq<nat>, others: seq<int>, owner: seq<int>, chains: seq<seq<nat>>)
    requires Chained(f0, freq, others, owner, chains)
    ensures forall s :: 0 <= s < N && f0[s] == 0 ==> owner[s] == -1
  {
  }

  /** The two walks of a round lengthen exactly the codes of the two trees. */
  lemma BumpsAreDeepen(cs: seq<nat>, f0: seq<nat>, freq: seq<nat>, others: seq<int>, owner: seq<int>,
                       chains: seq<seq<nat>>, c1: nat, c2: nat)
    requires Chained(f0, freq, others, owner, chains) && |cs| == N
    requires c1 < N && c2 < N && c1 != c2 && freq[c1] != 0 && freq[c2] != 0
    ensures Bump(Bump(cs, chains[c1]), chains[c2]) == Deepen(cs, owner, c1, c2)
    ensures Linked(others, chains[c1]) && chains[c1][0] == c1
    ensures Linked(others[chains[c1][|chains[c1]| - 1] := c2], chains[c2]) && chains[c2][0] == c2
  {
    var a, b := chains[c1], chains[c2];
    assert ChainOwned(owner, a, c1) && ChainOwned(owner, b, c2);
    var last := a[|a| - 1];
    assert last in a && owner[last] == c1;
    LinkedElsewhere(others, b, last, c2);
    forall s | 0 <= s < N ensures Bump(Bump(cs, a), b)[s] == Deepen(cs, owner, c1, c2)[s] {
      assert s in a <==> owner[s] == c1;
      assert s in b <==> owner[s] == c2;
    }
  }

  // ----- Start and end of the loop -----

  lemma {:induction false} SumSingle(w: seq<int>, i: int)
    requires forall k :: 0 <= k < |w| && k != i ==> w[k] == 0
    ensures Sum(w) == if 0 <= i < |w| then w[i] else 0
  {
    if w != [] { SumSingle(w[..|w| - 1], i); }
  }

  lemma {:induction false} SumRSingle(w: seq<real>, i: int)
    requires forall k :: 0 <= k < |w| && k != i ==> w[k] == 0.0
    ensures SumR(w) == if 0 <= i < |w| then w[i] else 0.0
  {
    if w != [] { SumRSingle(w[..|w| - 1], i); }
  }

  lemma {:induction false} SumLe(a: seq<int>, b: seq<int>)
    requires |a| == |b| && forall k :: 0 <= k < |a| ==> a[k] <= b[k]
    ensures Sum(a) <= Sum(b)
  {
    if a != [] { SumLe(a[..|a| - 1], b[..|b| - 1]); }
  }

  function InitialOwner(f0: seq<nat>): (r: seq<int>)
    ensures |r| == |f0|
  {
    seq(|f0|, s requires 0 <= s < |f0| => if f0[s] == 0 then -1 else s)
  }

  function InitialChains(): (r: seq<seq<nat>>)
    ensures |r| == N && forall s :: 0 <= s < N ==> r[s] == [s]
  {
    seq(N, s requires 0 <= s < N => [s])
  }

  lemma InitialSums(f0: seq<nat>)
    requires |f0| == N
    ensures Weighed(f0, f0, InitialOwner(f0)) && Complete(f0, seq(N, s => 0), InitialOwner(f0))
    ensures Cost(f0, seq(N, s => 0)) == 0
  {
    hide Sum, SumR;
    var cs, owner := seq(N, s => 0), InitialOwner(f0);
    forall i | 0 <= i < N ensures f0[i] == Sum(TreeFreqs(f0, owner, i)) {
      SumSingle(TreeFreqs(f0, owner, i), i);
    }
    forall i | 0 <= i < N && f0[i] != 0 ensures SumR(TreeHalves(cs, owner, i)) == 1.0 {
      SumRSingle(TreeHalves(cs, owner, i), i);
    }
    SumZero(CostTerms(f0, cs));
  }

  lemma InitialChained(f0: seq<nat>)
    requires |f0| == N
    ensures Chained(f0, f0, seq(N, s => -1), InitialOwner(f0), InitialChains())
    ensures Sized(f0, seq(N, s => 0), InitialOwner(f0), InitialChains())
  {
  }

  lemma InitialHeights(f0: seq<nat>)
    requires |f0| == N
    ensures Heavy(f0, seq(N, s => 0)) && Within(seq(N, s => 0), InitialOwner(f0), seq(N, s => 0))
  {
    assert Fib(2) == 1 && Fib(1) == 1;
  }

  lemma InitialForest(f0: seq<nat>)
    requires |f0| == N
    ensures Forest(f0, f0, seq(N, s => 0), seq(N, s => -1), InitialOwner(f0), InitialChains(), seq(N, s => 0))
  {
    hide Chained, Weighed, Complete, Sized, Heavy, Within, Cost, HuffCost, InitialOwner, InitialChains;
    InitialSums(f0);
    InitialChained(f0);
    InitialHeights(f0);
  }

  /** No frequency exceeds the total. */
  lemma FreqBounded(f0: seq<nat>, freq: seq<nat>, owner: seq<int>)
    requires Weighed(f0, freq, owner)
    ensures forall i :: 0 <= i < N ==> freq[i] <= Sum(f0)
  {
    hide Sum;
    forall i | 0 <= i < N ensures freq[i] <= Sum(f0) {
      SumLe(TreeFreqs(f0, owner, i), f0);
    }
  }

  /** The Kraft terms of all used symbols. */
  function UsedHalves(f0: seq<nat>, cs: seq<nat>): (w: seq<real>)
    requires |f0| == |cs|
    ensures |w| == |f0|
  {
    seq(|f0|, s requires 0 <= s < |f0| => if f0[s] == 0 then 0.0 else Half(cs[s]))
  }

  /** Every code has at most `h` bits, and the total frequency is at least F(h+2). */
  ghost predicate DepthPaid(f0: seq<nat>, cs: seq<nat>, h: nat) {
    Sum(f0) >= Fib(h + 2) && forall s :: 0 <= s < |cs| ==> cs[s] <= h
  }

  /** What the merge loop achieves: a complete code of least cost, no longer than the total frequency permits. */
  ghost predicate OptimalLengths(f0: seq<nat>, cs: seq<nat>) {
    && |f0| == |cs| == N
    && SumR(UsedHalves(f0, cs)) == 1.0
    && Cost(f0, cs) == HuffCost(f0)
    && (forall s :: 0 <= s < N ==> (cs[s] == 0 <==> f0[s] == 0))
    && (exists h: nat :: DepthPaid(f0, cs, h))
  }

  /** At the end one tree holds every used symbol. */
  lemma OneTree(f0: seq<nat>, freq: seq<nat>, others: seq<int>, owner: seq<int>, chains: seq<seq<nat>>,
                c1: int, a: nat, b: nat)
    requires Chained(f0, freq, others, owner, chains)
    requires c1 == Pick(freq, N, -1) && Pick(freq, N, c1) < 0
    requires a < b < N && f0[a] != 0 && f0[b] != 0
    ensures c1 >= 0 && freq[c1] != 0 && |chains[c1]| >= 2
    ensures forall s :: 0 <= s < N ==> owner[s] == if f0[s] == 0 then -1 else c1
  {
    assert freq[owner[a]] != 0;
    var chain := chains[c1];
    assert ChainOwned(owner, chain, c1);
    assert owner[a] == c1 && owner[b] == c1;
    assert a in chain && b in chain;
  }

  lemma FinalForest(f0: seq<nat>, freq: seq<nat>, cs: seq<nat>, others: seq<int>,
                    owner: seq<int>, chains: seq<seq<nat>>, height: seq<nat>, c1: int, a: nat, b: nat)
    requires Forest(f0, freq, cs, others, owner, chains, height)
    requires |freq| == N && c1 == Pick(freq, N, -1) && Pick(freq, N, c1) < 0
    requires a < b < N && |f0| == N && f0[a] != 0 && f0[b] != 0
    ensures OptimalLengths(f0, cs)
  {
    hide Sum, SumR, Cost, Chained, Fib;
    ForestShape(f0, freq, cs, others, owner, chains, height);
    OneTree(f0, freq, others, owner, chains, c1, a, b);
    assert TreeHalves(cs, owner, c1) == UsedHalves(f0, cs);
    assert TreeFreqs(f0, owner, c1) == f0;
    assert DepthPaid(f0, cs, height[c1]) by {
      forall s | 0 <= s < N ensures cs[s] <= height[c1] {}
    }
    assert HuffCost(freq) == 0;
  }

  /** One round of the merge loop; false when a single tree is left. */
  method MergeRound(freq: array<nat>, codesize: array<nat>, others: array<int>, ghost f0: seq<nat>,
                    ghost owner: seq<int>, ghost chains: seq<seq<nat>>, ghost height: seq<nat>)
    returns (more: bool, ghost owner': seq<int>, ghost chains': seq<seq<nat>>, ghost height': seq<nat>)
    requires freq.Length == codesize.Length == others.Length == N
    requires freq != codesize && codesize as object != others && freq as object != others
    requires Forest(f0, freq[..], codesize[..], others[..], owner, chains, height) && Sum(f0) <= MAX_FREQ
    modifies freq, codesize, others
    ensures Forest(f0, freq[..], codesize[..], others[..], owner', chains', height')
    ensures old(Deepest(freq[..], codesize[..], owner)) ==> Deepest(freq[..], codesize[..], owner')
    ensures if more then NumUsed(freq[..]) < NumUsed(old(freq[..]))
            else Pick(freq[..], N, Pick(freq[..], N, -1)) < 0
  {
    hide *;
    ForestShape(f0, freq[..], codesize[..], others[..], owner, chains, height);
    FreqBounded(f0, freq[..], owner);
    var c1 := LeastFrequency(freq, -1);
    var c2 := LeastFrequency(freq, c1);
    if c2 < 0 { return false, owner, chains, height; }
    MergeUses(freq[..], c1, c2);
    if Deepest(freq[..], codesize[..], owner) { DeepestStep(freq[..], codesize[..], owner, c1, c2); }
    MergeForest(f0, freq[..], codesize[..], others[..], owner, chains, height, c1, c2);
    MergeTrees(freq, codesize, others, f0, owner, chains, c1, c2);
    return true, Reown(owner, c1, c2), JoinChains(chains, c1, c2), Taller(height, c1, c2);
  }

  /** The whole merge loop. */
  method MergeAll(freq: array<nat>) returns (codesize: array<nat>)
    requires freq.Length == N && Sum(freq[..]) <= MAX_FREQ
    requires exists a, b :: 0 <= a < b < N && freq[a] != 0 && freq[b] != 0
    modifies freq
    ensures fresh(codesize) && codesize.Length == N
    ensures OptimalLengths(old(freq[..]), codesize[..])
    ensures old(freq[PSEUDO]) == 1 ==> forall s :: 0 <= s < N ==> codesize[s] <= codesize[PSEUDO]
  {
    hide Deepest, Sum, Forest, OptimalLengths, Pick, NumUsed, InitialOwner, InitialChains;
    ghost var f0 := freq[..];
    ghost var a, b :| 0 <= a < b < N && f0[a] != 0 && f0[b] != 0;
    codesize := new nat[N](s => 0);
    var others := new int[N](s => -1);
    ghost var owner, chains, height := InitialOwner(f0), InitialChains(), seq(N, s => 0);
    assert codesize[..] == seq(N, s => 0) && others[..] == seq(N, s => -1);
    InitialForest(f0);
    ghost var pseudo := f0[PSEUDO] == 1;
    if pseudo { OwnsItself(f0); }
    var more := true;
    while more
      invariant Forest(f0, freq[..], codesize[..], others[..], owner, chains, height)
      invariant pseudo ==> Deepest(freq[..], codesize[..], owner)
      invariant !more ==> Pick(freq[..], N, Pick(freq[..], N, -1)) < 0
      decreases more, NumUsed(freq[..])
    {
      more, owner, chains, height := MergeRound(freq, codesize, others, f0, owner, chains, height);
    }
    FinalForest(f0, freq[..], codesize[..], others[..], owner, chains, height, Pick(freq[..], N, -1), a, b);
    if pseudo { PseudoIsLongest(f0, freq[..], codesize[..], others[..], owner, chains, height, a, b); }
  }

  lemma OwnsItself(f0: seq<nat>)
    requires |f0| == N && f0[PSEUDO] == 1
    ensures Deepest(f0, seq(N, s => 0), InitialOwner(f0))
  {
    hide Deepest;
    DeepestAtFirst(f0, InitialOwner(f0));
  }

  /** No code is longer than that of the pseudo-symbol. */
  lemma PseudoIsLongest(f0: seq<nat>, freq: seq<nat>, cs: seq<nat>, others: seq<int>, owner: seq<int>, chains: seq<seq<nat>>,
                        height: seq<nat>, a: nat, b: nat)
    requires Forest(f0, freq, cs, others, owner, chains, height) && OptimalLengths(f0, cs) && Deepest(freq, cs, owner)
    requires |f0| == |freq| == N && Pick(freq, N, Pick(freq, N, -1)) < 0 && a < b < N && f0[a] != 0 && f0[b] != 0
    ensures |cs| == N && forall s :: 0 <= s < N ==> cs[s] <= cs[PSEUDO]
  {
    hide Chained, Weighed, Complete, Sized, Heavy, Within, Cost, HuffCost, Sum, SumR, UsedHalves, DepthPaid;
    ForestShape(f0, freq, cs, others, owner, chains, height);
    var c1 := Pick(freq, N, -1);
    OneTree(f0, freq, others, owner, chains, c1, a, b);
    forall s | 0 <= s < N ensures cs[s] <= cs[PSEUDO] { assert Shallower(freq, cs, owner, owner[PSEUDO], s); }
  }

  /** Merging the trees `c1` and `c2`. */
  method MergeTrees(freq: array<nat>, codesize: array<nat>, others: array<int>, ghost f0: seq<nat>,
                    ghost owner: seq<int>, ghost chains: seq<seq<nat>>, c1: nat, c2: nat)
    requires freq.Length == codesize.Length == others.Length == N
    requires freq != codesize && codesize as object != others && freq as object != others
    requires Chained(f0, freq[..], others[..], owner, chains)
    requires c1 < N && c2 < N && c1 != c2 && freq[c1] != 0 && freq[c2] != 0
    modifies freq, codesize, others
    ensures freq[..] == Merge(old(freq[..]), c1, c2)
    ensures codesize[..] == Deepen(old(codesize[..]), owner, c1, c2)
    ensures chains[c1] != [] && chains[c1][|chains[c1]| - 1] < N
    ensures others[..] == old(others[..])[chains[c1][|chains[c1]| - 1] := c2]
  {
    BumpsAreDeepen(codesize[..], f0, freq[..], others[..], owner, chains, c1, c2);
    freq[c1] := freq[c1] + freq[c2];
    freq[c2] := 0;
    var last := BumpChain(codesize, others, c1, chains[c1]);
    others[last] := c2;
    assert others[..] == old(others[..])[last := c2];
    last := BumpChain(codesize, others, c2, chains[c2]);
  }

  lemma ForestShape(f0: seq<nat>, freq: seq<nat>, cs: seq<nat>, others: seq<int>,
                    owner: seq<int>, chains: seq<seq<nat>>, height: seq<nat>)
    requires Forest(f0, freq, cs, others, owner, chains, height)
    ensures Chained(f0, freq, others, owner, chains) && Weighed(f0, freq, owner)
    ensures |f0| == |freq| == |cs| == |others| == |owner| == |chains| == |height| == N
    ensures forall i :: 0 <= i < N && freq[i] != 0 ==> chains[i] != [] && chains[i][|chains[i]| - 1] < N
  {
  }
}
