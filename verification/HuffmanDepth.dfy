/**
 Where the pseudo-symbol 256 of `jpeg_gen_optimal_table` ends up.  It has the least frequency and the largest index, and of trees of
 equal weight the merge loop takes the one with the larger index; so no code gets longer than that of symbol 256.
 */
module HuffmanDepth {
  import opened HuffmanCost
  import opened HuffmanForest

  const PSEUDO := 256

  /** Tree `i` is picked before tree `j`. */
  predicate Sooner(freq: seq<nat>, i: nat, j: nat)
    requires i < |freq| && j < |freq|
  {
    freq[i] < freq[j] || (freq[i] == freq[j] && i > j)
  }

  lemma {:induction false} PickedFirst(freq: seq<nat>, n: nat, skip: int, k: nat)
    requires n <= |freq| && k < n && freq[k] != 0 && k != skip
    ensures Pick(freq, n, skip) == k || (Pick(freq, n, skip) >= 0 && Sooner(freq, Pick(freq, n, skip), k))
  {
    if k < n - 1 { PickedFirst(freq, n - 1, skip, k); }
  }

  /** The codes of the tree `root`, and of the others, in comparison with that of symbol 256. */
  ghost predicate Shallower(freq: seq<nat>, cs: seq<nat>, owner: seq<int>, root: nat, s: nat)
    requires |freq| == |cs| == |owner| == N && root < N && s < N
  {
    0 <= owner[s] < N ==>
      && cs[s] <= cs[PSEUDO]
      && (owner[s] != root && Sooner(freq, owner[s], root) && cs[PSEUDO] > 0 ==> cs[s] < cs[PSEUDO])
  }

  /** Two other trees weigh more than the tree of symbol 256, or as much and have smaller indexes. */
  ghost predicate Heavier(freq: seq<nat>, root: nat, i: nat, j: nat)
    requires |freq| == N && root < N && i < N && j < N
  {
    freq[i] + freq[j] > freq[root] || (freq[i] + freq[j] == freq[root] && i < root)
  }

  ghost predicate Deepest(freq: seq<nat>, cs: seq<nat>, owner: seq<int>) {
    && |freq| == |cs| == |owner| == N && 0 <= owner[PSEUDO] < N && freq[owner[PSEUDO]] != 0
    && (cs[PSEUDO] == 0 ==> owner[PSEUDO] == PSEUDO && freq[PSEUDO] == 1)
    && (forall s :: 0 <= s < N ==> Shallower(freq, cs, owner, owner[PSEUDO], s))
    && forall i, j ::
         0 <= i < N && 0 <= j < N && freq[i] != 0 && freq[j] != 0 && i != owner[PSEUDO] && j != owner[PSEUDO] && Sooner(freq, i, j) ==>
           Heavier(freq, owner[PSEUDO], i, j)
  }

  lemma DeepestAtFirst(f0: seq<nat>, owner: seq<int>)
    requires |f0| == |owner| == N && f0[PSEUDO] == 1 && owner[PSEUDO] == PSEUDO
    ensures Deepest(f0, seq(N, s => 0), owner)
  {
  }

  /** The tree of symbol 256 is merged with another one. */
  lemma DeepestMerged(freq: seq<nat>, cs: seq<nat>, owner: seq<int>, c1: nat, c2: nat)
    requires Deepest(freq, cs, owner) && c1 < N && c2 < N && c1 != c2 && freq[c1] != 0 && freq[c2] != 0
    requires owner[PSEUDO] == c1 || owner[PSEUDO] == c2
    requires forall k :: 0 <= k < N && freq[k] != 0 && k != c1 ==> Sooner(freq, c1, k)
    requires forall k :: 0 <= k < N && freq[k] != 0 && k != c1 && k != c2 ==> Sooner(freq, c2, k)
    ensures Deepest(Merge(freq, c1, c2), Deepen(cs, owner, c1, c2), Reown(owner, c1, c2))
  {
    var f, l, o := Merge(freq, c1, c2), Deepen(cs, owner, c1, c2), Reown(owner, c1, c2);
    forall s | 0 <= s < N ensures Shallower(f, l, o, c1, s) { assert Shallower(freq, cs, owner, owner[PSEUDO], s); }
    forall i, j | 0 <= i < N && 0 <= j < N && f[i] != 0 && f[j] != 0 && i != c1 && j != c1 && Sooner(f, i, j)
      ensures Heavier(f, c1, i, j)
    {
      assert Sooner(freq, c2, i) && Sooner(freq, c1, i) && Sooner(freq, c2, j);
    }
  }

  /** Two other trees are merged, both of which come sooner. */
  lemma DeepestStays(freq: seq<nat>, cs: seq<nat>, owner: seq<int>, c1: nat, c2: nat)
    requires Deepest(freq, cs, owner) && c1 < N && c2 < N && c1 != c2 && freq[c1] != 0 && freq[c2] != 0
    requires owner[PSEUDO] != c1 && owner[PSEUDO] != c2
    requires forall k :: 0 <= k < N && freq[k] != 0 && k != c1 ==> Sooner(freq, c1, k)
    requires forall k :: 0 <= k < N && freq[k] != 0 && k != c1 && k != c2 ==> Sooner(freq, c2, k)
    ensures Deepest(Merge(freq, c1, c2), Deepen(cs, owner, c1, c2), Reown(owner, c1, c2))
  {
    var root := owner[PSEUDO];
    var f, l, o := Merge(freq, c1, c2), Deepen(cs, owner, c1, c2), Reown(owner, c1, c2);
    assert Sooner(freq, c1, c2) && Sooner(freq, c1, root) && Sooner(freq, c2, root);
    assert Heavier(freq, root, c1, c2);
    assert Sooner(f, root, c1);
    forall s | 0 <= s < N ensures Shallower(f, l, o, root, s) { assert Shallower(freq, cs, owner, root, s); }
    forall i, j | 0 <= i < N && 0 <= j < N && f[i] != 0 && f[j] != 0 && i != root && j != root && Sooner(f, i, j)
      ensures Heavier(f, root, i, j)
    {
      if i != c1 && j != c1 { assert Sooner(freq, i, j) && Heavier(freq, root, i, j); }
    }
  }

  /** A round of the merge loop. */
  lemma DeepestStep(freq: seq<nat>, cs: seq<nat>, owner: seq<int>, c1: int, c2: int)
    requires |freq| == |cs| == |owner| == N && Deepest(freq, cs, owner)
    requires c1 == Pick(freq, N, -1) && c2 == Pick(freq, N, c1) && c1 >= 0 && c2 >= 0
    ensures Deepest(Merge(freq, c1, c2), Deepen(cs, owner, c1, c2), Reown(owner, c1, c2))
  {
    hide Deepest, Merge, Deepen, Reown;
    forall k | 0 <= k < N && freq[k] != 0 && k != c1 ensures Sooner(freq, c1, k) { PickedFirst(freq, N, -1, k); }
    forall k | 0 <= k < N && freq[k] != 0 && k != c1 && k != c2 ensures Sooner(freq, c2, k) { PickedFirst(freq, N, c1, k); }
    if owner[PSEUDO] == c1 || owner[PSEUDO] == c2 {
      DeepestMerged(freq, cs, owner, c1, c2);
    } else {
      DeepestStays(freq, cs, owner, c1, c2);
    }
  }
}
