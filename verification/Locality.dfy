/**
 What decoding depends on: an MCU that ends within some bits is decoded alike whatever follows them, and DC predictions matter only
 modulo 2^16, coefficients being shorts.
 */
module Locality {
  import opened Bits
  import opened Coefficients
  import opened HuffDecoding
  import opened HuffTables
  import opened RunLength
  import opened Scans
  import opened SeqDecoder
  import opened SeqScanDecoder

  // ----- Bits behind the end of an MCU -----

  lemma {:induction false} FindSame(bits: seq<nat>, a: seq<bool>, b: seq<bool>, n: nat, l: nat)
    requires |bits| == 17 && 1 <= l <= 17 && a <= b && n + FindLength(bits, a, n, l) <= |a|
    ensures FindLength(bits, b, n, l) == FindLength(bits, a, n, l)
    decreases 17 - l
  {
    hide Peek, NextCode;
    if l < 17 {
      PeekPrefix(a, b, n, l);
      if Peek(a, n, l) >= NextCode(bits, l) { FindSame(bits, a, b, n, l + 1); }
    }
  }

  lemma SymbolSame(h: HuffTable, a: seq<bool>, b: seq<bool>, n: nat)
    requires h.WellTyped() && Count(h.bits, 16) <= 256 && a <= b && n + DecodeLength(h.bits, a, n) <= |a|
    ensures DecodeLength(h.bits, b, n) == DecodeLength(h.bits, a, n) && DecodeSymbol(h, b, n) == DecodeSymbol(h, a, n)
  {
    hide Peek, FindLength;
    FindSame(h.bits, a, b, n, 1);
    PeekPrefix(a, b, n, DecodeLength(h.bits, a, n));
  }

  lemma DcSame(h: HuffTable, a: seq<bool>, b: seq<bool>, n: nat)
    requires h.WellTyped() && Count(h.bits, 16) <= 256 && a <= b && ReadDc(h, a, n).1 <= |a|
    ensures ReadDc(h, b, n) == ReadDc(h, a, n)
  {
    hide Peek, DecodeLength, DecodeSymbol, Extend;
    SymbolSame(h, a, b, n);
    var s, n1 := DecodeSymbol(h, a, n), n + DecodeLength(h.bits, a, n);
    PeekPrefix(a, b, n1, s);
  }

  /** One symbol of a band, and what it leads to. */
  lemma BandStep(h: HuffTable, data: seq<bool>, n: nat, k: nat, se: nat, r: nat, w: nat, n1: nat)
    requires h.WellTyped() && Count(h.bits, 16) <= 256 && k <= se < 64
    requires r == DecodeSymbol(h, data, n) / 16 && w == DecodeSymbol(h, data, n) % 16 && n1 == n + DecodeLength(h.bits, data, n)
    ensures w != 0 ==> var c := ReadBand(h, data, n1 + w, k + r + 1, se);
                       ReadBand(h, data, n, k, se) == c.(writes := [(Place(k + r), Extend(Peek(data, n1, w), w))] + c.writes)
    ensures w == 0 ==> ReadBand(h, data, n, k, se) == if r == 15 then ReadBand(h, data, n1, k + 16, se) else BandCode([], n1, r)
  {
    hide Peek, DecodeLength, DecodeSymbol, Extend, Place, Count;
  }

  lemma BandPast(h: HuffTable, data: seq<bool>, n: nat, k: nat, se: nat)
    requires h.WellTyped() && Count(h.bits, 16) <= 256 && se < 64 && k > se
    ensures ReadBand(h, data, n, k, se) == BandCode([], n, -1)
  {
  }

  lemma {:induction false} BandSame(h: HuffTable, a: seq<bool>, b: seq<bool>, n: nat, k: nat, se: nat)
    requires h.WellTyped() && Count(h.bits, 16) <= 256 && se < 64 && a <= b && ReadBand(h, a, n, k, se).end <= |a|
    ensures ReadBand(h, b, n, k, se) == ReadBand(h, a, n, k, se)
    decreases 64 - k
  {
    hide Peek, DecodeLength, DecodeSymbol, Extend, ReadBand, Count, Place;
    if k > se {
      BandPast(h, a, n, k, se);
      BandPast(h, b, n, k, se);
      return;
    }
    var s, n1 := DecodeSymbol(h, a, n), n + DecodeLength(h.bits, a, n);
    var r, w := s / 16, s % 16;
    BandStep(h, a, n, k, se, r, w, n1);
    SymbolSame(h, a, b, n);
    BandStep(h, b, n, k, se, r, w, n1);
    if w != 0 {
      PeekPrefix(a, b, n1, w);
      BandSame(h, a, b, n1 + w, k + r + 1, se);
    } else if r == 15 {
      BandSame(h, a, b, n1, k + 16, se);
    }
  }

  lemma BlockSame(plan: Plan, hs: seq<HuffTable>, a: seq<bool>, b: seq<bool>, n: nat, i: nat)
    requires Readable(plan, hs) && i < |plan.membership| && a <= b && CodeOfBlock(plan, hs, a, n, i).ac.end <= |a|
    ensures CodeOfBlock(plan, hs, b, n, i) == CodeOfBlock(plan, hs, a, n, i)
  {
    hide ReadDc, ReadBand;
    assert BlockTables(plan, hs, i);
    var c := plan.CompOf(i);
    DcSame(hs[c.DcT()], a, b, n);
    BandSame(hs[c.AcT()], a, b, ReadDc(hs[c.DcT()], a, n).1, 1, 63);
  }

  lemma {:induction false} CodesSame(plan: Plan, hs: seq<HuffTable>, a: seq<bool>, b: seq<bool>, n: nat, i: nat)
    requires Readable(plan, hs) && i <= |plan.membership| && a <= b && EndOf(Codes(plan, hs, a, n, i), n) <= |a|
    ensures Codes(plan, hs, b, n, i) == Codes(plan, hs, a, n, i)
  {
    hide Readable, CodeOfBlock;
    if i > 0 {
      NotBefore(plan, hs, a, n, i - 1);
      CodesSame(plan, hs, a, b, n, i - 1);
      BlockSame(plan, hs, a, b, EndOf(Codes(plan, hs, a, n, i - 1), n), i - 1);
    }
  }

  lemma NotBefore(plan: Plan, hs: seq<HuffTable>, a: seq<bool>, n: nat, i: nat)
    requires Readable(plan, hs) && i < |plan.membership|
    ensures EndOf(Codes(plan, hs, a, n, i), n) <= EndOf(Codes(plan, hs, a, n, i + 1), n)
  {
    hide ReadBand, DecodeSymbol, DecodeLength, Extend, Peek;
    CodesStep(plan, hs, a, n, i);
    assert BlockTables(plan, hs, i);
  }

  /** An MCU that ends within its data is decoded alike whatever follows. */
  lemma McuSame(plan: Plan, hs: seq<HuffTable>, needs: seq<Need>, s: Start, b: seq<bool>, zs: seq<seq<int>>)
    requires Readable(plan, hs) && |needs| == |plan.membership| == |zs| && |s.pred| == MAX_COMPS_IN_SCAN
    requires (forall z <- zs :: |z| == 64) && s.data <= b && McuEnd(plan, hs, s) <= |s.data|
    ensures var s' := s.(data := b);
            && McuEnd(plan, hs, s') == McuEnd(plan, hs, s) && McuPred(plan, hs, needs, s') == McuPred(plan, hs, needs, s)
            && McuFinal(plan, hs, needs, s', zs) == McuFinal(plan, hs, needs, s, zs)
  {
    hide Readable, Codes, PredAfter, McuResult, EndOf;
    CodesSame(plan, hs, s.data, b, s.n, |plan.membership|);
  }

  // ----- Predictions modulo 2^16 -----

  predicate Like(a: int, b: int) { (a - b) % 0x1_0000 == 0 }

  /** The predictions of the scan's components agree modulo 2^16. */
  predicate Congruent(plan: Plan, p: seq<int>, q: seq<int>) {
    |p| == |q| == MAX_COMPS_IN_SCAN && forall i :: 0 <= i < |plan.comps| && i < |p| ==> Like(p[i], q[i])
  }

  lemma LikeAdd(a: int, b: int, d: int)
    requires Like(a, b)
    ensures Like(a + d, b + d) && ToShort(a + d) == ToShort(b + d) && ToShort(a) == ToShort(b)
  {
    ShortOfLike(a, b);
    assert a + d - (b + d) == a - b;
    ShortOfLike(a + d, b + d);
  }

  lemma ShortOfLike(a: int, b: int)
    requires Like(a, b)
    ensures ToShort(a) == ToShort(b)
  {
    var q := (a - b) / 0x1_0000;
    assert a + 0x8000 == (b + 0x8000) + q * 0x1_0000;
  }

  lemma ShortIsLike(a: int)
    ensures Like(ToShort(a), a)
  {
    var q, r := (a + 0x8000) / 0x1_0000, (a + 0x8000) % 0x1_0000;
    assert ToShort(a) - a == -q * 0x1_0000;
  }

  lemma {:induction false} PredCongruent(plan: Plan, needs: seq<Need>, cs: seq<BlockCode>, p: seq<int>, q: seq<int>, i: nat)
    requires plan.Valid() && |needs| == |plan.membership| && i <= |cs| <= |needs| && Congruent(plan, p, q)
    ensures Congruent(plan, PredAfter(plan, needs, cs, p, i), PredAfter(plan, needs, cs, q, i))
  {
    hide Like, ToShort;
    if i > 0 {
      PredCongruent(plan, needs, cs, p, q, i - 1);
      var a, b, ci := PredAfter(plan, needs, cs, p, i - 1), PredAfter(plan, needs, cs, q, i - 1), plan.Ci(i - 1);
      LikeAdd(a[ci], b[ci], cs[i - 1].diff);
    }
  }

  lemma ResultCongruent(plan: Plan, needs: seq<Need>, cs: seq<BlockCode>, p: seq<int>, q: seq<int>, i: nat, z: seq<int>)
    requires plan.Valid() && |needs| == |plan.membership| && i < |cs| <= |needs| && Congruent(plan, p, q)
    requires |z| == 64 && Inside(cs[i])
    ensures BlockResult(plan, needs, cs, p, i, z) == BlockResult(plan, needs, cs, q, i, z)
  {
    hide Like, ToShort, PredAfter, Apply;
    PredCongruent(plan, needs, cs, p, q, i);
    var ci := plan.Ci(i);
    LikeAdd(PredAfter(plan, needs, cs, p, i)[ci], PredAfter(plan, needs, cs, q, i)[ci], cs[i].diff);
  }

  /** Predictions that agree modulo 2^16 lead to the same blocks, and go on agreeing. */
  lemma McuCongruent(plan: Plan, hs: seq<HuffTable>, needs: seq<Need>, s: Start, q: seq<int>, zs: seq<seq<int>>)
    requires Readable(plan, hs) && |needs| == |plan.membership| == |zs| && Congruent(plan, q, s.pred)
    requires forall z <- zs :: |z| == 64
    ensures var s' := s.(pred := q);
            && McuEnd(plan, hs, s') == McuEnd(plan, hs, s)
            && Congruent(plan, McuPred(plan, hs, needs, s'), McuPred(plan, hs, needs, s))
            && McuFinal(plan, hs, needs, s', zs) == McuFinal(plan, hs, needs, s, zs)
  {
    hide BlockTables, Codes, PredAfter, BlockResult, EndOf, Congruent, Inside;
    if !s.skip {
      var cs := McuCodes(plan, hs, s);
      PredCongruent(plan, needs, cs, q, s.pred, |cs|);
      CongruentSize(plan, q, s.pred);
      forall b | 0 <= b < |zs| ensures BlockResult(plan, needs, cs, q, b, zs[b]) == BlockResult(plan, needs, cs, s.pred, b, zs[b]) {
        ResultCongruent(plan, needs, cs, q, s.pred, b, zs[b]);
      }
    }
  }

  lemma CongruentSize(plan: Plan, p: seq<int>, q: seq<int>)
    requires Congruent(plan, p, q)
    ensures |p| == |q| == MAX_COMPS_IN_SCAN
  {
  }
}
