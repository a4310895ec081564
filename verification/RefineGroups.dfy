/** The groups of a refinement scan as the encoder meets them, one coefficient at a time. */
module RefineGroups {
  import opened AcRefine
  import opened Coefficients
  import opened RunLength
  import opened Tokens
  import Seqs

  lemma {:induction false} GroupSplit(m: seq<nat>, a: nat, b: nat, c: nat)
    requires a <= b <= c <= |m|
    ensures NumZeros(m, a, c) == NumZeros(m, a, b) + NumZeros(m, b, c)
    ensures Corrections(m, a, c) == Corrections(m, a, b) + Corrections(m, b, c)
    decreases c
  {
    if b == c {
      assert Corrections(m, a, b) + [] == Corrections(m, a, b);
    } else {
      GroupSplit(m, a, b, c - 1);
      Seqs.Assoc(Corrections(m, a, b), Corrections(m, b, c - 1), if m[c - 1] > 1 then [m[c - 1] % 2] else []);
    }
  }

  /**
   Between `g`, where the last symbol's group ended, and `k` there are `r` zeros and nothing new; while something new is
   ahead, no correction bit belongs behind the sixteenth zero.
   */
  ghost predicate Group(m: seq<nat>, g: nat, k: nat, se: nat, r: nat) {
    && g <= k <= se + 1 <= |m| && r == NumZeros(m, g, k)
    && (forall i :: g <= i < k ==> m[i] != 1)
    && (NextNew(m, k, se) <= se ==> forall i :: g <= i < k && m[i] > 1 ==> NumZeros(m, g, i) <= 15)
  }

  lemma GroupEmpty(m: seq<nat>, k: nat, se: nat)
    requires k <= se + 1 <= |m|
    ensures Group(m, k, k, se, 0) && Corrections(m, k, k) == []
  {
  }

  lemma {:induction false} NewSkips(m: seq<nat>, g: nat, k: nat, se: nat)
    requires g <= k <= se + 1 <= |m| && forall i :: g <= i < k ==> m[i] != 1
    ensures NextNew(m, g, se) == NextNew(m, k, se)
    decreases k - g
  {
    if g < k { NewSkips(m, g + 1, k, se); }
  }

  lemma GroupZero(m: seq<nat>, g: nat, k: nat, se: nat, r: nat)
    requires Group(m, g, k, se, r) && k <= se && m[k] == 0
    ensures Group(m, g, k + 1, se, r + 1) && Corrections(m, g, k + 1) == Corrections(m, g, k)
  {
    NewSkips(m, k, k + 1, se);
  }

  lemma GroupCorrection(m: seq<nat>, g: nat, k: nat, se: nat, r: nat)
    requires Group(m, g, k, se, r) && k <= se && m[k] > 1 && (r <= 15 || NextNew(m, k, se) > se)
    ensures Group(m, g, k + 1, se, r) && Corrections(m, g, k + 1) == Corrections(m, g, k) + [m[k] % 2]
  {
    NewSkips(m, k, k + 1, se);
  }

  lemma {:induction false} CorrectionsNone(m: seq<nat>, a: nat, b: nat)
    requires a <= b <= |m| && forall i :: a <= i < b ==> m[i] <= 1
    ensures Corrections(m, a, b) == []
    decreases b
  {
    if a < b { CorrectionsNone(m, a, b - 1); }
  }

  /** Where the sixteenth zero is. */
  lemma SixteenthZero(m: seq<nat>, g: nat, k: nat, se: nat, r: nat) returns (p: nat)
    requires Group(m, g, k, se, r) && k <= se && r > 15
    ensures p == Stop(m, g, 15, se) && g <= p < k && m[p] <= 1
    ensures NumZeros(m, g, p) == 15 && NumZeros(m, g, p + 1) == 16
  {
    hide Stop, NextNew;
    p := Stop(m, g, 15, se);
    if p >= k { ZerosMono(m, g, k, p); }
  }

  lemma BehindSixteenth(m: seq<nat>, g: nat, p: nat, k: nat, se: nat, r: nat, i: nat)
    requires Group(m, g, k, se, r) && NextNew(m, k, se) <= se && g <= p && p + 1 <= i < k && NumZeros(m, g, p + 1) == 16
    ensures m[i] <= 1
  {
    hide NextNew, NumZeros;
    if m[i] > 1 { ZerosMono(m, g, p + 1, i); }
  }

  /** A ZRL symbol covers the group up to its sixteenth zero, with all correction bits so far. */
  lemma GroupZrl(m: seq<nat>, z: seq<int>, t: nat, g: nat, k: nat, se: nat, r: nat) returns (g': nat)
    requires Group(m, g, k, se, r) && k <= se && r > 15 && NextNew(m, k, se) <= se && |z| == |m|
    ensures g < g' <= k && Group(m, g', k, se, r - 16) && Corrections(m, g', k) == []
    ensures RefineTokens(m, z, t, g, se) == ([Sym(t, ZRL)] + BitTokens(Corrections(m, g, k))) + RefineTokens(m, z, t, g', se)
    ensures RefineEnd(m, g, se) == RefineEnd(m, g', se)
  {
    hide Stop, NextNew, NumZeros, Corrections, RefineTokens, RefineEnd, BitTokens;
    var p := SixteenthZero(m, g, k, se, r);
    g' := p + 1;
    NewSkips(m, g, k, se);
    forall i | g' <= i < k ensures m[i] <= 1 { BehindSixteenth(m, g, p, k, se, r, i); }
    CorrectionsNone(m, g', k);
    CorrectionsNone(m, p, k);
    GroupSplit(m, g, p, k);
    GroupSplit(m, g, g', k);
    assert Corrections(m, g, p) + [] == Corrections(m, g, p);
    RefineZrl(m, z, t, g, se);
  }

  /** The symbol of a newly nonzero coefficient covers the whole group. */
  lemma GroupNew(m: seq<nat>, z: seq<int>, t: nat, g: nat, k: nat, se: nat, r: nat)
    requires Group(m, g, k, se, r) && k <= se && m[k] == 1 && r <= 15 && |z| == |m|
    ensures RefineTokens(m, z, t, g, se) == NewTokens(m, z, t, g, k) + RefineTokens(m, z, t, k + 1, se)
    ensures RefineEnd(m, g, se) == RefineEnd(m, k + 1, se)
  {
    hide Stop, NumZeros, Corrections, RefineTokens, RefineEnd, NewTokens;
    NewSkips(m, g, k, se);
    NotStopped(m, g, k, se);
    RefineNew(m, z, t, g, se);
  }

  lemma NotStopped(m: seq<nat>, g: nat, k: nat, se: nat)
    requires g <= k <= se < |m| && NumZeros(m, g, k) <= 15
    ensures Stop(m, g, 15, se) >= k
  {
    hide Stop;
    var p := Stop(m, g, 15, se);
    if p < k { ZerosMono(m, g, p + 1, k); }
  }

  /** At the end of the band: what is left needs an EOB. */
  lemma GroupLast(m: seq<nat>, z: seq<int>, t: nat, g: nat, se: nat, r: nat)
    requires Group(m, g, se + 1, se, r) && |z| == |m|
    ensures RefineTokens(m, z, t, g, se) == [] && RefineEnd(m, g, se) == g
    ensures r > 0 || |Corrections(m, g, se + 1)| > 0 <==> g <= se
  {
    NewSkips(m, g, se + 1, se);
    RefineNone(m, z, t, g, se);
  }
}
