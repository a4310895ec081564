/**
 The second half of `jpeg_gen_optimal_table`: from code lengths to a histogram of lengths, the adjustment that
 brings every length down to 16, and the removal of the reserved code.
 */
module LengthLimit {
  import opened Arith
  import opened Bits
  import opened HuffTables
  import opened HuffmanForest

  const MAX_CLEN := 32

  /** Assignment to a UINT8. */
  function U8(v: int): (b: nat)
    ensures b < 256
  {
    v % 256
  }

  /** The effect of changing the number of codes of length `k` on the bound of length `m`. */
  lemma {:induction false} NextCodeUpdate(b: seq<nat>, k: nat, v: nat, m: nat)
    requires 1 <= k <= m < |b|
    ensures NextCode(b[k := v], m) == NextCode(b, m) + (v - b[k]) * Pow2(m - k)
    decreases m
  {
    if m == k {
      NextCodeBelow(b, k, v, k);
    } else {
      NextCodeUpdate(b, k, v, m - 1);
      MulDouble(v - b[k], Pow2(m - 1 - k));
    }
  }

  lemma {:induction false} NextCodeBelow(b: seq<nat>, k: nat, v: nat, m: nat)
    requires 1 <= m <= k < |b|
    ensures FirstCode(b[k := v], m) == FirstCode(b, m)
  {
    if m > 1 { NextCodeBelow(b, k, v, m - 1); }
  }

  lemma {:induction false} CountUpdate(b: seq<nat>, k: nat, v: nat, m: nat)
    requires k < |b| && 1 <= k && m < |b|
    ensures Count(b[k := v], m) == Count(b, m) + if k <= m then v - b[k] else 0
  {
    if m > 0 { CountUpdate(b, k, v, m - 1); }
  }

  lemma {:induction false} EntryCounted(b: seq<nat>, k: nat, m: nat)
    requires 1 <= k <= m < |b|
    ensures b[k] <= Count(b, m)
  {
    if k < m { EntryCounted(b, k, m - 1); }
  }

  lemma {:induction false} NoCodesYet(b: seq<nat>, m: nat)
    requires 1 <= m < |b| && forall k :: 1 <= k <= m ==> b[k] == 0
    ensures NextCode(b, m) == 0
  {
    if m > 1 { NoCodesYet(b, m - 1); }
  }

  /** `total` codes, none longer than `i`, that use up Kraft's inequality. */
  ghost predicate CompleteUpTo(b: seq<nat>, i: nat, total: nat) {
    && |b| == MAX_CLEN + 1 && 1 <= i <= MAX_CLEN
    && NextCode(b, i) == Pow2(i)
    && (forall l :: i < l <= MAX_CLEN ==> b[l] == 0)
    && Count(b, MAX_CLEN) == total
  }

  lemma Above16(i: nat)
    requires 16 < i
    ensures Pow2(i) >= 0x2_0000
  {
    Pow2Literals();
    Pow2Mono(17, i);
  }

  lemma EvenAtTop(b: seq<nat>, i: nat, total: nat)
    requires CompleteUpTo(b, i, total) && 2 <= i
    ensures b[i] % 2 == 0
    ensures b[i] == 0 ==> CompleteUpTo(b, i - 1, total)
  {
    hide Count;
    assert NextCode(b, i) == 2 * NextCode(b, i - 1) + b[i];
    assert Pow2(i) == 2 * Pow2(i - 1);
  }

  /** Some code is at least two bits shorter than the longest: fewer than 256 codes of 16 or more bits cannot do. */
  lemma ShorterExists(b: seq<nat>, i: nat, total: nat)
    requires CompleteUpTo(b, i, total) && 16 < i && total < 256
    ensures exists k :: 1 <= k <= i - 2 && b[k] != 0
  {
    EntryCounted(b, i, MAX_CLEN);
    EntryCounted(b, i - 1, MAX_CLEN);
    Above16(i);
    NextIsEnd(b, i - 2);
    NextIsEnd(b, i - 1);
    if forall k :: 1 <= k <= i - 2 ==> b[k] == 0 {
      NoCodesYet(b, i - 2);
    }
  }

  /** Two codes of length `i` give way: one moves up a bit, and a code of length `j` makes room for the other. */
  function Adjust(b: seq<nat>, i: nat, j: nat): (r: seq<nat>)
    requires 1 <= j <= i - 2 && i < |b| && b[i] >= 2 && b[j] >= 1
    ensures |r| == |b|
  {
    var b1 := b[i := b[i] - 2];
    var b2 := b1[i - 1 := b1[i - 1] + 1];
    var b3 := b2[j + 1 := b2[j + 1] + 2];
    b3[j := b3[j] - 1]
  }

  /** The adjustment keeps the number of codes and the completeness of the code. */
  lemma AdjustKeeps(b: seq<nat>, i: nat, j: nat, total: nat)
    requires CompleteUpTo(b, i, total) && 1 <= j <= i - 2 && b[i] >= 2 && b[j] >= 1
    ensures CompleteUpTo(Adjust(b, i, j), i, total)
    ensures Adjust(b, i, j)[i] == b[i] - 2
  {
    hide Count, Pow2, FirstCode;
    var b1 := b[i := b[i] - 2];
    var b2 := b1[i - 1 := b1[i - 1] + 1];
    var b3 := b2[j + 1 := b2[j + 1] + 2];
    assert Adjust(b, i, j) == b3[j := b3[j] - 1];
    NextCodeUpdate(b, i, b[i] - 2, i);
    NextCodeUpdate(b1, i - 1, b1[i - 1] + 1, i);
    NextCodeUpdate(b2, j + 1, b2[j + 1] + 2, i);
    NextCodeUpdate(b3, j, b3[j] - 1, i);
    CountUpdate(b, i, b[i] - 2, MAX_CLEN);
    CountUpdate(b1, i - 1, b1[i - 1] + 1, MAX_CLEN);
    CountUpdate(b2, j + 1, b2[j + 1] + 2, MAX_CLEN);
    CountUpdate(b3, j, b3[j] - 1, MAX_CLEN);
    SmallPowers(i, j);
  }

  lemma AdjustFits(b: seq<nat>, i: nat, j: nat, total: nat)
    requires CompleteUpTo(b, i, total) && 1 <= j <= i - 2 && b[i] >= 2 && b[j] >= 1 && total < 256
    ensures b[i] < 256 && b[j] < 256 && b[i - 1] + 1 < 256
    ensures if j + 1 == i - 1 then b[i - 1] + 3 < 256 else b[j + 1] + 2 < 256
  {
    hide Count, NextCode, Pow2;
    AdjustKeeps(b, i, j, total);
    var after := Adjust(b, i, j);
    EntryCounted(after, i - 1, MAX_CLEN);
    EntryCounted(after, j + 1, MAX_CLEN);
    EntryCounted(b, i, MAX_CLEN);
    EntryCounted(b, j, MAX_CLEN);
  }

  lemma SmallPowers(i: nat, j: nat)
    requires j < i
    ensures Pow2(i - i) == 1 && Pow2(i - (i - 1)) == 2 && Pow2(i - j) == 2 * Pow2(i - (j + 1))
  {
  }

  /** The greatest length up to `j` that is in use; 0 if there is none. */
  function Longest(b: seq<nat>, j: nat): (l: nat)
    requires j < |b|
    ensures l <= j && (l > 0 ==> b[l] != 0) && forall k :: l < k <= j ==> b[k] == 0
  {
    if j == 0 || b[j] != 0 then j else Longest(b, j - 1)
  }

  /**
   The histogram after the lengths from `i` down to 17 have been given up (figure K.3 of ITU-T T.81): two codes of the greatest length
   at a time, the longest code that is at least two bits shorter making room for them.
   */
  function Limited(b: seq<nat>, i: nat): (r: seq<nat>)
    requires i < |b|
    ensures |r| == |b|
    decreases i, b[i]
  {
    if i <= 16 then b
    else
      var j := Longest(b, i - 2);
      if b[i] < 2 || j == 0 then Limited(b, i - 1) else Limited(Adjust(b, i, j), i)
  }

  /** Lengths of at most 16 are left as they are. */
  lemma {:induction false} LimitedKeeps(b: seq<nat>, i: nat)
    requires i < |b| && forall l :: 16 < l <= i ==> b[l] == 0
    ensures Limited(b, i) == b
    decreases i
  {
    hide Longest;
    if i > 16 { LimitedKeeps(b, i - 1); }
  }

  /** If there are longer ones, codes of 16 bits are used in the end. */
  lemma {:induction false} LimitedUses16(b: seq<nat>, i: nat, total: nat, l: nat)
    requires CompleteUpTo(b, i, total) && total < 256 && 16 < l <= i && b[l] != 0
    ensures Limited(b, i)[16] != 0
    decreases i, b[i]
  {
    hide Longest, Count, NextCode, Pow2, Adjust;
    var j := Longest(b, i - 2);
    EvenAtTop(b, i, total);
    if b[i] == 0 {
      LimitedUses16(b, i - 1, total, l);
    } else {
      ShorterExists(b, i, total);
      AdjustKeeps(b, i, j, total);
      AdjustAbove(b, i, j);
      var next := Adjust(b, i, j);
      if i > 17 {
        LimitedUses16(next, i, total, i - 1);
      } else if next[i] != 0 {
        LimitedUses16(next, i, total, i);
      } else {
        LimitedDone(next, i);
      }
    }
  }

  /** The adjustment keeps the number of codes and the completeness of the code. */
  lemma {:induction false} LimitedComplete(b: seq<nat>, i: nat, total: nat)
    requires CompleteUpTo(b, i, total) && total < 256 && 16 <= i
    ensures CompleteUpTo(Limited(b, i), 16, total)
    decreases i, b[i]
  {
    hide Longest, Count, NextCode, Pow2, Adjust;
    if i == 16 {
      NothingToLimit(b);
    } else {
      EvenAtTop(b, i, total);
      if b[i] == 0 {
        LimitedComplete(b, i - 1, total);
      } else {
        ShorterExists(b, i, total);
        AdjustKeeps(b, i, Longest(b, i - 2), total);
        LimitedComplete(Adjust(b, i, Longest(b, i - 2)), i, total);
      }
    }
  }

  lemma AdjustAbove(b: seq<nat>, i: nat, j: nat)
    requires 1 <= j <= i - 2 && i < |b| && b[i] >= 2 && b[j] >= 1
    ensures Adjust(b, i, j)[i - 1] > 0
  {
  }

  lemma LimitedDone(b: seq<nat>, i: nat)
    requires i == 17 < |b| && b[i] == 0
    ensures Limited(b, i) == b
  {
    assert Limited(b, 16) == b;
  }

  lemma LimitedNext(b: seq<nat>, i: nat)
    requires 16 < i < |b| && b[i] == 0
    ensures Limited(b, i) == Limited(b, i - 1)
  {
  }

  lemma LimitedPair(b: seq<nat>, i: nat, j: nat)
    requires 16 < i < |b| && b[i] >= 2 && j == Longest(b, i - 2) && j > 0
    ensures Limited(b, i) == Limited(Adjust(b, i, j), i)
  {
    hide Adjust, Longest;
  }

  /**
   One step, for the greatest length `i` in use and the greatest length `j` in use that is at least two bits shorter: two codes of
   length `i` and one of length `j` give way to one of length `i - 1` and two of length `j + 1`.
   */
  lemma LimitRule(b: seq<nat>, i: nat, j: nat) returns (next: seq<nat>)
    requires 16 < i < |b| && b[i] >= 2 && 1 <= j <= i - 2 && b[j] != 0 && forall k :: j < k <= i - 2 ==> b[k] == 0
    ensures |next| == |b| && Limited(b, i) == Limited(next, i)
    ensures forall l :: 0 <= l < |b| ==>
              next[l] == b[l] - (if l == i then 2 else if l == j then 1 else 0) + (if l == i - 1 then 1 else 0) + (if l == j + 1 then 2 else 0)
  {
    hide Limited;
    next := Adjust(b, i, j);
    LimitedPair(b, i, j);
  }

  /** Brings all lengths down to 16 (section K.2 of ITU-T T.81). */
  method LimitLengths(bits: array<nat>, ghost total: nat)
    requires bits.Length == MAX_CLEN + 1 && total < 256 && CompleteUpTo(bits[..], MAX_CLEN, total)
    modifies bits
    ensures CompleteUpTo(bits[..], 16, total) && bits[0] == old(bits[0]) && bits[..] == Limited(old(bits[..]), MAX_CLEN)
  {
    hide CompleteUpTo, Limited;
    ghost var goal := Limited(bits[..], MAX_CLEN);
    var i := MAX_CLEN;
    while i > 16
      invariant 16 <= i <= MAX_CLEN && CompleteUpTo(bits[..], i, total) && bits[0] == old(bits[0]) && Limited(bits[..], i) == goal
    {
      EvenAtTop(bits[..], i, total);
      while bits[i] > 0
        invariant CompleteUpTo(bits[..], i, total) && bits[i] % 2 == 0 && bits[0] == old(bits[0]) && Limited(bits[..], i) == goal
        decreases bits[i]
      {
        ShortenPair(bits, i, total);
      }
      EvenAtTop(bits[..], i, total);
      LimitedNext(bits[..], i);
      i := i - 1;
    }
    NothingToLimit(bits[..]);
  }

  lemma NothingToLimit(b: seq<nat>)
    requires 16 < |b|
    ensures Limited(b, 16) == b
  {
  }

  lemma LongestBelow(b: seq<nat>, j: nat)
    requires 0 < j < |b| && b[j] == 0
    ensures Longest(b, j) == Longest(b, j - 1)
  {
  }

  lemma LongestHere(b: seq<nat>, j: nat)
    requires j < |b| && b[j] != 0
    ensures Longest(b, j) == j
  {
  }

  /** The search for a code that is at least two bits shorter. */
  method FindShorter(bits: array<nat>, i: nat) returns (j: nat)
    requires 2 < i < bits.Length && exists k :: 1 <= k <= i - 2 && bits[..][k] != 0
    ensures 1 <= j <= i - 2 && j == Longest(bits[..], i - 2) && bits[j] != 0
  {
    hide Longest;
    j := i - 2;
    while bits[j] == 0
      invariant 1 <= j <= i - 2
      invariant exists k :: 1 <= k <= j && bits[..][k] != 0
      invariant Longest(bits[..], j) == Longest(bits[..], i - 2)
      decreases j
    {
      LongestBelow(bits[..], j);
      j := j - 1;
    }
    LongestHere(bits[..], j);
  }

  method ShortenPair(bits: array<nat>, i: nat, ghost total: nat)
    requires bits.Length == MAX_CLEN + 1 && total < 256 && 16 < i && CompleteUpTo(bits[..], i, total)
    requires i <= MAX_CLEN && bits[i] > 0 && bits[i] % 2 == 0
    modifies bits
    ensures CompleteUpTo(bits[..], i, total)
    ensures bits[i] == old(bits[i]) - 2 && bits[0] == old(bits[0])
    ensures Limited(bits[..], i) == Limited(old(bits[..]), i)
  {
    hide CompleteUpTo, Limited, Longest, Adjust;
    ghost var b := bits[..];
    ShorterExists(b, i, total);
    var j := FindShorter(bits, i);
    LimitedPair(b, i, j);
    AdjustKeeps(b, i, j, total);
    AdjustFits(b, i, j, total);
    AdjustIn(bits, i, j);
  }

  /** The four assignments. */
  method AdjustIn(bits: array<nat>, i: nat, j: nat)
    requires 1 <= j <= i - 2 && i < bits.Length && 2 <= bits[i] < 256 && 1 <= bits[j] < 256 && bits[i - 1] + 1 < 256
    requires if j + 1 == i - 1 then bits[i - 1] + 3 < 256 else bits[j + 1] + 2 < 256
    modifies bits
    ensures bits[..] == Adjust(old(bits[..]), i, j) && bits[0] == old(bits[0])
  {
    bits[i] := U8(bits[i] - 2);
    bits[i - 1] := U8(bits[i - 1] + 1);
    bits[j + 1] := U8(bits[j + 1] + 2);
    bits[j] := U8(bits[j] - 1);
  }

  // ----- Counting the lengths -----

  /** The number of symbols below `n` that have a code. */
  function NumCoded(cs: seq<nat>, n: nat): (u: nat)
    requires n <= |cs|
    ensures u <= n
  {
    if n == 0 then 0 else NumCoded(cs, n - 1) + if cs[n - 1] == 0 then 0 else 1
  }

  /** The number of symbols below `n` whose code has `l` bits. */
  function NumOf(cs: seq<nat>, l: nat, n: nat): (u: nat)
    requires n <= |cs|
    ensures u <= n
    decreases n, l
  {
    if n == 0 then 0 else NumOf(cs, l, n - 1) + if cs[n - 1] == l then 1 else 0
  }

  /** How many codes there are of each length. */
  function Histogram(cs: seq<nat>): (b: seq<nat>)
    ensures |b| == MAX_CLEN + 1
  {
    seq(MAX_CLEN + 1, l requires 0 <= l <= MAX_CLEN => if l == 0 then 0 else NumOf(cs, l, |cs|))
  }

  function HistogramUpTo(cs: seq<nat>, n: nat): (b: seq<nat>)
    requires n <= |cs|
    ensures |b| == MAX_CLEN + 1
  {
    seq(MAX_CLEN + 1, l requires 0 <= l <= MAX_CLEN => if l == 0 then 0 else NumOf(cs, l, n))
  }

  lemma {:induction false} HalfOf32(k: nat)
    requires k <= 32
    ensures Half(k) * 4294967296.0 == Pow2(32 - k) as real
  {
    if k == 0 { Pow2Literals(); } else { HalfOf32(k - 1); }
  }

  /** The Kraft terms of the symbols that have a code. */
  function CodedHalves(cs: seq<nat>): (w: seq<real>)
    ensures |w| == |cs|
  {
    seq(|cs|, s requires 0 <= s < |cs| => if cs[s] == 0 then 0.0 else Half(cs[s]))
  }

  /** The histogram of the lengths of the first `n` symbols, with Kraft's sum scaled to 2^32. */
  ghost predicate Counted(cs: seq<nat>, n: nat, b: seq<nat>) {
    && n <= |cs| && |b| == MAX_CLEN + 1 && b[0] == 0
    && (forall l :: 1 <= l <= MAX_CLEN ==> b[l] == NumOf(cs, l, n))
    && Count(b, MAX_CLEN) == NumCoded(cs, n)
    && NextCode(b, MAX_CLEN) as real == SumR(CodedHalves(cs)[..n]) * 4294967296.0
  }

  lemma CountOne(cs: seq<nat>, n: nat, b: seq<nat>)
    requires Counted(cs, n, b) && n < |cs| && cs[n] <= MAX_CLEN
    ensures Counted(cs, n + 1, if cs[n] == 0 then b else b[cs[n] := b[cs[n]] + 1])
    ensures cs[n] != 0 ==> b[cs[n]] + 1 <= NumCoded(cs, n + 1)
  {
    hide Count, FirstCode, Pow2, Half;
    var w := CodedHalves(cs);
    assert w[..n + 1][..n] == w[..n] && w[..n + 1][n] == w[n];
    var k := cs[n];
    if k != 0 {
      NextCodeUpdate(b, k, b[k] + 1, MAX_CLEN);
      CountUpdate(b, k, b[k] + 1, MAX_CLEN);
      EntryCounted(b, k, MAX_CLEN);
      HalfOf32(k);
    }
  }

  lemma {:induction false} HistogramCounted(cs: seq<nat>, n: nat)
    requires n <= |cs| && forall s :: 0 <= s < |cs| ==> cs[s] <= MAX_CLEN
    ensures Counted(cs, n, HistogramUpTo(cs, n))
  {
    hide Counted;
    if n == 0 {
      NothingCounted(cs, HistogramUpTo(cs, 0));
    } else {
      HistogramCounted(cs, n - 1);
      CountOne(cs, n - 1, HistogramUpTo(cs, n - 1));
      HistogramNext(cs, n - 1);
    }
  }

  lemma HistogramNext(cs: seq<nat>, n: nat)
    requires n < |cs| && cs[n] <= MAX_CLEN
    ensures var b := HistogramUpTo(cs, n);
            HistogramUpTo(cs, n + 1) == if cs[n] == 0 then b else b[cs[n] := b[cs[n]] + 1]
  {
  }

  /** The histogram of code lengths that use up Kraft's inequality. */
  lemma HistogramComplete(cs: seq<nat>)
    requires |cs| == N && SumR(CodedHalves(cs)) == 1.0 && forall s :: 0 <= s < N ==> cs[s] <= MAX_CLEN
    ensures CompleteUpTo(Histogram(cs), MAX_CLEN, NumCoded(cs, N))
  {
    hide Counted, CompleteUpTo, SumR, NumCoded;
    HistogramCounted(cs, N);
    assert HistogramUpTo(cs, N) == Histogram(cs);
    AllCounted(cs, Histogram(cs));
  }

  /** Counts the symbols of each code length; JERR_HUFF_CLEN_OVERFLOW if some length exceeds 32. */
  method CountLengths(codesize: array<nat>) returns (r: Result<array<nat>>)
    requires codesize.Length == N && NumCoded(codesize[..], N) < 256 && SumR(CodedHalves(codesize[..])) == 1.0
    ensures r.Err? <==> exists s :: 0 <= s < N && codesize[s] > MAX_CLEN
    ensures r.Err? ==> r.error == HuffClenOverflow
    ensures r.Ok? ==> fresh(r.value) && r.value.Length == MAX_CLEN + 1 && r.value[0] == 0
                      && CompleteUpTo(r.value[..], MAX_CLEN, NumCoded(codesize[..], N)) && r.value[..] == Histogram(codesize[..])
  {
    hide Count, NextCode, Half, SumR, Pow2, CodedHalves, NumCoded, NumOf;
    var bits := new nat[MAX_CLEN + 1](l => 0);
    ghost var cs := codesize[..];
    var i := 0;
    NothingCounted(cs, bits[..]);
    while i <= 256
      invariant 0 <= i <= N && codesize[..] == cs
      invariant Counted(cs, i, bits[..])
      invariant forall s :: 0 <= s < i ==> cs[s] <= MAX_CLEN
    {
      if codesize[i] != 0 {
        if codesize[i] > MAX_CLEN { return Err(HuffClenOverflow); }
        CodedMono(cs, i + 1, N);
        CountOne(cs, i, bits[..]);
        ghost var next := bits[..][cs[i] := bits[cs[i]] + 1];
        bits[codesize[i]] := U8(bits[codesize[i]] + 1);
        assert bits[..] == next;
      } else {
        CountOne(cs, i, bits[..]);
      }
      i := i + 1;
    }
    AllCounted(cs, bits[..]);
    return Ok(bits);
  }

  lemma NothingCounted(cs: seq<nat>, b: seq<nat>)
    requires |b| == MAX_CLEN + 1 && forall l :: 0 <= l <= MAX_CLEN ==> b[l] == 0
    ensures Counted(cs, 0, b)
  {
    assert forall l: nat :: NumOf(cs, l, 0) == 0;
    NoCodesYet(b, MAX_CLEN);
    NextCountZero(b, MAX_CLEN);
  }

  lemma {:induction false} NextCountZero(b: seq<nat>, m: nat)
    requires m < |b| && forall k :: 0 <= k <= m ==> b[k] == 0
    ensures Count(b, m) == 0
  {
    if m > 0 { NextCountZero(b, m - 1); }
  }

  lemma {:induction false} CodedMono(cs: seq<nat>, a: nat, b: nat)
    requires a <= b <= |cs|
    ensures NumCoded(cs, a) <= NumCoded(cs, b)
  {
    if a < b { CodedMono(cs, a, b - 1); }
  }

  lemma AllCounted(cs: seq<nat>, b: seq<nat>)
    requires |cs| == N && Counted(cs, N, b) && SumR(CodedHalves(cs)) == 1.0
    ensures CompleteUpTo(b, MAX_CLEN, NumCoded(cs, N)) && b == Histogram(cs)
  {
    assert CodedHalves(cs)[..N] == CodedHalves(cs);
    Pow2Literals();
  }

  // ----- The reserved code -----

  lemma {:induction false} TakeAgrees(b: seq<nat>, l: nat)
    requires |b| == MAX_CLEN + 1 && 1 <= l <= 16
    ensures Count(b[..17], l) == Count(b, l) && NextCode(b[..17], l) == NextCode(b, l)
  {
    if l > 1 { TakeAgrees(b, l - 1); }
  }

  lemma {:induction false} CountFlat(b: seq<nat>, i: nat, m: nat)
    requires i <= m < |b| && forall l :: i < l <= m ==> b[l] == 0
    ensures Count(b, m) == Count(b, i)
  {
    if i < m { CountFlat(b, i, m - 1); }
  }

  /** A bound that is reached stays reached. */
  lemma {:induction false} ReachedStays(b: seq<nat>, l: nat, m: nat)
    requires 1 <= l <= m < |b| && NextCode(b, l) >= Pow2(l)
    ensures NextCode(b, m) >= Pow2(m)
  {
    if l < m { ReachedStays(b, l, m - 1); }
  }

  lemma {:induction false} CompleteDown(b: seq<nat>, i: nat, l: nat, total: nat)
    requires CompleteUpTo(b, i, total) && 1 <= l <= i && forall k :: l < k <= i ==> b[k] == 0
    ensures CompleteUpTo(b, l, total)
  {
    if l < i {
      EvenAtTop(b, i, total);
      CompleteDown(b, i - 1, l, total);
    }
  }

  /** `len` is the greatest code length in use, and exactly one code of that length is left over. */
  ghost predicate TightAt(bits: seq<nat>, len: nat) {
    && |bits| == 17 && 1 <= len <= 16 && bits[len] != 0
    && (forall l :: len < l <= 16 ==> bits[l] == 0)
    && NextCode(bits, len) == Pow2(len) - 1
  }

  /** Taking one code from the greatest length leaves a legal table. */
  lemma ReservedLegal(b: seq<nat>, len: nat, total: nat)
    requires CompleteUpTo(b, 16, total) && 1 <= len <= 16 && b[len] != 0
    requires forall l :: len < l <= 16 ==> b[l] == 0
    requires total <= 256
    ensures var r := b[len := b[len] - 1][..17];
            Legal(r) && Count(r, 16) == total - 1 && TightAt(r, len)
  {
    hide Count, Pow2;
    var b' := b[len := b[len] - 1];
    var r := b'[..17];
    CompleteDown(b, 16, len, total);
    LongestEven(b, len, total);
    NextCodeUpdate(b, len, b[len] - 1, len);
    TakeAgrees(b', len);
    CountFlat(b, 16, MAX_CLEN);
    CountUpdate(b, len, b[len] - 1, 16);
    TakeAgrees(b', 16);
    SmallPowers(len, 0);
    RoomThroughout(r, len);
  }

  /** Room at the greatest length in use is room at every length. */
  lemma RoomThroughout(r: seq<nat>, len: nat)
    requires |r| == 17 && 1 <= len <= 16 && NextCode(r, len) < Pow2(len)
    requires forall l :: len < l <= 16 ==> r[l] == 0
    ensures forall l :: 1 <= l <= 16 ==> NextCode(r, l) < Pow2(l)
  {
    forall l | 1 <= l <= 16 ensures NextCode(r, l) < Pow2(l) {
      if l < len {
        BelowLongest(r, l, len);
      } else {
        CountFlat(r, len, 16);
        LegalBeyond(r, len, l);
      }
    }
  }

  lemma LongestEven(b: seq<nat>, i: nat, total: nat)
    requires CompleteUpTo(b, i, total) && b[i] != 0
    ensures b[i] >= 2
  {
    if i >= 2 { EvenAtTop(b, i, total); } else { assert b[1] == 2 by { assert Pow2(1) == 2; } }
  }

  lemma BelowLongest(b: seq<nat>, l: nat, len: nat)
    requires 1 <= l < len < |b| && NextCode(b, len) < Pow2(len)
    ensures NextCode(b, l) < Pow2(l)
  {
    if NextCode(b, l) >= Pow2(l) { ReachedStays(b, l, len); }
  }

  /** One code less of the greatest length. */
  function Reserved(b: seq<nat>): (r: seq<nat>)
    requires |b| == MAX_CLEN + 1
    ensures |r| == 17
  {
    var len := Longest(b, 16);
    if len == 0 then b[..17] else b[len := b[len] - 1][..17]
  }

  lemma ReservedIs(b: seq<nat>, len: nat)
    requires |b| == MAX_CLEN + 1 && 1 <= len <= 16 && b[len] != 0 && forall l :: len < l <= 16 ==> b[l] == 0
    ensures Reserved(b) == b[len := b[len] - 1][..17]
  {
    assert Longest(b, 16) == len;
  }

  /** Removes the count of the pseudo-symbol from the greatest code length. */
  method RemoveReserved(bits: array<nat>, ghost total: nat) returns (r: seq<nat>)
    requires bits.Length == MAX_CLEN + 1 && CompleteUpTo(bits[..], 16, total) && total < 256 && bits[0] == 0
    modifies bits
    ensures |r| == 17 && Legal(r) && Count(r, 16) == total - 1 && (exists len :: TightAt(r, len))
    ensures r == Reserved(old(bits[..]))
    ensures forall l :: 0 <= l < 17 ==> r[l] < 256
  {
    hide Count, Pow2, NextCode, Reserved, Longest;
    SomeCode(bits[..], total);
    var i := 16;
    while bits[i] == 0
      invariant 1 <= i <= 16 && exists k :: 1 <= k <= i && bits[..][k] != 0
      invariant forall l :: i < l <= 16 ==> bits[l] == 0
      decreases i
    {
      i := i - 1;
    }
    ReservedLegal(bits[..], i, total);
    ReservedIs(bits[..], i);
    ghost var after := bits[..][i := bits[i] - 1];
    forall k | 1 <= k <= 16 ensures bits[..][k] < 256 { EntryCounted(bits[..], k, MAX_CLEN); }
    bits[i] := U8(bits[i] - 1);
    assert bits[..] == after;
    r := bits[..17];
    assert r == after[..17];
    forall l | 0 <= l < 17 ensures r[l] < 256 { assert r[l] == bits[l]; }
  }

  lemma SomeCode(b: seq<nat>, total: nat)
    requires CompleteUpTo(b, 16, total)
    ensures exists k :: 1 <= k <= 16 && b[k] != 0
  {
    if forall k :: 1 <= k <= 16 ==> b[k] == 0 { NoCodesYet(b, 16); }
  }
}
