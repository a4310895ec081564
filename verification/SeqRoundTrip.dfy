/** What a sequential scan decodes to: block by block and MCU by MCU, the coefficients that were encoded. */
module SeqRoundTrip {
  import opened Arith
  import opened Bits
  import opened Coefficients
  import opened HuffDecoding
  import opened HuffTables
  import opened RunLength
  import opened Scans
  import opened SeqDecoder
  import opened SeqEncoder
  import opened SeqScanDecoder
  import opened SeqScanEncoder
  import opened Tokens
  import Seqs

  // ----- One block -----

  lemma DcRead(h: HuffTable, ets: seq<EncTable>, t: nat, diff: int, data: seq<bool>, n: nat)
    requires t < |ets| && Matches(h, ets[t]) && Decodable(h) && AllCoded(ets, DcTokens(t, diff)) && DcInRange(diff)
    requires Stands(data, n, TokenBits(ets, DcTokens(t, diff)))
    ensures ReadDc(h, data, n) == (diff, n + |TokenBits(ets, DcTokens(t, diff))|)
  {
    hide NumBits, DecodeSymbol, DecodeLength, Matches, Stands, TokenBits, Peek, Extend, ValueTokens, AllCoded;
    if diff == 0 {
      OneCoded(ets, Sym(t, 0));
      ReadsSymbol(h, ets, t, data, n, 0);
    } else {
      ReadsValue(h, ets, t, data, n, 0, diff);
    }
  }

  lemma AcRead(h: HuffTable, ets: seq<EncTable>, t: nat, z: seq<int>, data: seq<bool>, n: nat)
    requires |z| == 64 && t < |ets| && Matches(h, ets[t]) && Decodable(h) && AllCoded(ets, AcTokens(t, z)) && AcInRange(z, 64)
    requires Stands(data, n, TokenBits(ets, AcTokens(t, z)))
    ensures ReadBand(h, data, n, 1, 63).writes == ValueWrites(z, 1, 63)
    ensures ReadBand(h, data, n, 1, 63).end == n + |TokenBits(ets, AcTokens(t, z))|
  {
    hide NumBits, DecodeSymbol, DecodeLength, Matches, Stands, TokenBits, Peek, Extend, AllCoded, RunTokens, ReadBand,
         ValueWrites;
    var runs, g := RunTokens(z, t, 1, 63), RunEnd(z, 1, 63);
    var eob := if g <= 63 then [Sym(t, 0)] else [];
    StandsTokens(ets, data, n, runs, eob);
    RunsRead(h, ets, t, z, data, n, 1, 63);
    var n1 := n + |TokenBits(ets, runs)|;
    if g <= 63 {
      OneCoded(ets, Sym(t, 0));
      ReadsSymbol(h, ets, t, data, n1, 0);
      ReadsEob(h, data, n1, g, 63, 0);
    } else {
      NoTokens(ets);
      ReadsPastEnd(h, data, n1, g, 63);
    }
    assert ValueWrites(z, 1, 63) + [] == ValueWrites(z, 1, 63);
  }

  lemma ReadsEob(h: HuffTable, data: seq<bool>, n: nat, k: nat, se: nat, r: nat)
    requires Decodable(h) && k <= se < 64 && r < 15 && DecodeSymbol(h, data, n) == r * 16
    ensures ReadBand(h, data, n, k, se) == BandCode([], n + DecodeLength(h.bits, data, n), r)
  {
    hide DecodeSymbol, DecodeLength, Peek, Extend;
    DivModUnique(r, 0, 16, r * 16);
  }

  lemma ReadsPastEnd(h: HuffTable, data: seq<bool>, n: nat, k: nat, se: nat)
    requires Decodable(h) && se < 64 && k > se
    ensures ReadBand(h, data, n, k, se) == BandCode([], n, -1)
  {
  }

  function Zeros(): (z: seq<int>)
    ensures |z| == 64 && forall i :: 0 <= i < 64 ==> z[i] == 0
  {
    seq(64, i => 0)
  }

  /** A block is read back from a zeroed array. */
  lemma BlockRead(dc: HuffTable, ac: HuffTable, ets: seq<EncTable>, dcT: nat, acT: nat, z: seq<int>, lastDc: int,
                  data: seq<bool>, n: nat)
    requires |z| == 64 && ShortCoefs(z) && InRange(z, lastDc) && Decodable(dc) && Decodable(ac)
    requires dcT < |ets| && Matches(dc, ets[dcT]) && acT < |ets| && Matches(ac, ets[acT])
    requires AllCoded(ets, BlockTokens(dcT, acT, z, lastDc)) && Stands(data, n, TokenBits(ets, BlockTokens(dcT, acT, z, lastDc)))
    ensures var c := ReadBlock(dc, ac, data, n);
            && c.diff == z[0] - lastDc && c.ac.end == n + |TokenBits(ets, BlockTokens(dcT, acT, z, lastDc))|
            && FilledBlock(c, Need(true, true), lastDc, Zeros()) == z
  {
    hide NumBits, DecodeSymbol, DecodeLength, Matches, Stands, TokenBits, AllCoded, ReadBand, ReadDc, ValueWrites, Apply,
         DcTokens, AcTokens, ToShort, Decodable;
    StandsTokens(ets, data, n, DcTokens(dcT, z[0] - lastDc), AcTokens(acT, z));
    DcRead(dc, ets, dcT, z[0] - lastDc, data, n);
    AcRead(ac, ets, acT, z, data, n + |TokenBits(ets, DcTokens(dcT, z[0] - lastDc))|);
    var z1 := Zeros()[0 := ToShort(z[0])];
    ApplyValues(z1, z, 1, 63, 0);
    var z' := Apply(z1, ValueWrites(z, 1, 63), 0);
    forall i | 0 <= i < 64 ensures z'[i] == z[i] {
      assert z[i] in z;
      ShortIsShort(z[i]);
      assert Pow2(0) == 1;
      if 1 <= i { assert z'[i] == if z[i] != 0 then ToShort(z[i] * 1) else z1[i]; }
    }
    assert z' == z;
  }

  // ----- An MCU -----

  /** The tables of both sides describe the same codes, for every block of the MCU. */
  ghost predicate Agree(plan: Plan, hs: seq<HuffTable>, ets: seq<EncTable>) {
    && Readable(plan, hs) && |ets| == |hs|
    && forall b :: 0 <= b < |plan.membership| ==>
         var c := plan.CompOf(b); Matches(hs[c.DcT()], ets[c.DcT()]) && Matches(hs[c.AcT()], ets[c.AcT()])
  }

  lemma AgreeReadable(plan: Plan, hs: seq<HuffTable>, ets: seq<EncTable>)
    requires Agree(plan, hs, ets)
    ensures Readable(plan, hs) && plan.Valid() && |ets| == |hs| == 2 * NUM_HUFF_TBLS
  {
  }

  function AllNeeded(plan: Plan): (needs: seq<Need>)
    ensures |needs| == |plan.membership|
  {
    seq(|plan.membership|, b => Need(true, true))
  }

  predicate ShortMcu(mcu: Mcu) { forall block <- mcu :: ShortCoefs(block) }

  /** The codes read for the first `b` blocks carry the predictions along and give back the blocks. */
  ghost predicate ReadSoFar(plan: Plan, hs: seq<HuffTable>, ets: seq<EncTable>, mcu: Mcu, lastDc: seq<int>, data: seq<bool>,
                            n: nat, b: nat)
    requires Agree(plan, hs, ets) && GoodMcu(plan, mcu) && b <= |mcu| && |lastDc| == MAX_COMPS_IN_SCAN
  {
    var cs, needs := Codes(plan, hs, data, n, b), AllNeeded(plan);
    && EndOf(cs, n) == n + |TokenBits(ets, McuTokens(plan, mcu, b, lastDc))|
    && PredAfter(plan, needs, cs, lastDc, b) == DcAfter(plan, mcu, b, lastDc)
    && forall i :: 0 <= i < b ==> BlockResult(plan, needs, cs, lastDc, i, Zeros()) == Zigzag(mcu[i])
  }

  lemma NothingRead(plan: Plan, hs: seq<HuffTable>, ets: seq<EncTable>, mcu: Mcu, lastDc: seq<int>, data: seq<bool>, n: nat)
    requires Agree(plan, hs, ets) && GoodMcu(plan, mcu) && |lastDc| == MAX_COMPS_IN_SCAN
    ensures ReadSoFar(plan, hs, ets, mcu, lastDc, data, n, 0)
  {
    hide Agree;
    NoTokens(ets);
  }

  /** Block `b`, read where the blocks before it end. */
  lemma BlockOfMcuRead(plan: Plan, hs: seq<HuffTable>, ets: seq<EncTable>, mcu: Mcu, lastDc: seq<int>, data: seq<bool>,
                       m: nat, b: nat)
    requires Agree(plan, hs, ets) && GoodMcu(plan, mcu) && b < |mcu| && |lastDc| == MAX_COMPS_IN_SCAN && ShortMcu(mcu)
    requires InRange(Zigzag(mcu[b]), DcAfter(plan, mcu, b, lastDc)[plan.Ci(b)])
    requires AllCoded(ets, McuBlockTokens(plan, mcu, b, lastDc))
    requires Stands(data, m, TokenBits(ets, McuBlockTokens(plan, mcu, b, lastDc)))
    ensures var c, last := CodeOfBlock(plan, hs, data, m, b), DcAfter(plan, mcu, b, lastDc)[plan.Ci(b)];
            && c.diff == Zigzag(mcu[b])[0] - last
            && c.ac.end == m + |TokenBits(ets, McuBlockTokens(plan, mcu, b, lastDc))|
            && FilledBlock(c, Need(true, true), last, Zeros()) == Zigzag(mcu[b])
  {
    hide Zigzag, BlockTokens, InRange, AllCoded, Stands, TokenBits, ReadBlock, FilledBlock, Matches, DcAfter, ShortCoefs;
    assert BlockTables(plan, hs, b);
    assert mcu[b] in mcu;
    ShortZigzag(mcu[b]);
    var c := plan.CompOf(b);
    TablesShape(hs[c.DcT()]);
    BlockRead(hs[c.DcT()], hs[c.AcT()], ets, c.DcT(), c.AcT(), Zigzag(mcu[b]), DcAfter(plan, mcu, b, lastDc)[plan.Ci(b)], data, m);
  }

  lemma TablesShape(h: HuffTable)
    requires DcTable(h)
    ensures Decodable(h)
  {
  }

  lemma ReadOneMore(plan: Plan, hs: seq<HuffTable>, ets: seq<EncTable>, mcu: Mcu, lastDc: seq<int>, data: seq<bool>,
                    n: nat, b: nat)
    requires Agree(plan, hs, ets) && GoodMcu(plan, mcu) && b < |mcu| && |lastDc| == MAX_COMPS_IN_SCAN
    requires ReadSoFar(plan, hs, ets, mcu, lastDc, data, n, b)
    requires var c, last := CodeOfBlock(plan, hs, data, EndOf(Codes(plan, hs, data, n, b), n), b),
                            DcAfter(plan, mcu, b, lastDc)[plan.Ci(b)];
             && c.diff == Zigzag(mcu[b])[0] - last
             && c.ac.end == EndOf(Codes(plan, hs, data, n, b), n) + |TokenBits(ets, McuBlockTokens(plan, mcu, b, lastDc))|
             && FilledBlock(c, Need(true, true), last, Zeros()) == Zigzag(mcu[b])
    ensures ReadSoFar(plan, hs, ets, mcu, lastDc, data, n, b + 1)
  {
    hide Zigzag, TokenBits, CodeOfBlock, FilledBlock, Agree, McuBlockTokens, Codes;
    AgreeReadable(plan, hs, ets);
    CodesStep(plan, hs, data, n, b);
    CodesPrefix(plan, hs, data, n, b, b + 1);
    var cs, cs', needs := Codes(plan, hs, data, n, b), Codes(plan, hs, data, n, b + 1), AllNeeded(plan);
    TokenBitsConcat(ets, McuTokens(plan, mcu, b, lastDc), McuBlockTokens(plan, mcu, b, lastDc));
    PredOfPrefix(plan, needs, cs', lastDc, b, b);
    forall i | 0 <= i < b + 1 ensures BlockResult(plan, needs, cs', lastDc, i, Zeros()) == Zigzag(mcu[i]) {
      if i < b {
        assert BlockResult(plan, needs, cs, lastDc, i, Zeros()) == Zigzag(mcu[i]);
        PredOfPrefix(plan, needs, cs', lastDc, i, b);
      }
    }
  }

  lemma {:induction false} McuRead(plan: Plan, hs: seq<HuffTable>, ets: seq<EncTable>, mcu: Mcu, lastDc: seq<int>,
                                   data: seq<bool>, n: nat, b: nat)
    requires Agree(plan, hs, ets) && GoodMcu(plan, mcu) && b <= |mcu| && |lastDc| == MAX_COMPS_IN_SCAN && ShortMcu(mcu)
    requires McuInRange(plan, mcu, b, lastDc) && AllCoded(ets, McuTokens(plan, mcu, b, lastDc))
    requires Stands(data, n, TokenBits(ets, McuTokens(plan, mcu, b, lastDc)))
    ensures ReadSoFar(plan, hs, ets, mcu, lastDc, data, n, b)
    decreases b
  {
    hide ReadSoFar, Agree, InRange, AllCoded, Stands, TokenBits, McuBlockTokens, Zigzag, ShortMcu, Codes, EndOf, CodeOfBlock,
         FilledBlock, DcAfter;
    AgreeReadable(plan, hs, ets);
    if b == 0 {
      NothingRead(plan, hs, ets, mcu, lastDc, data, n);
    } else {
      StandsTokens(ets, data, n, McuTokens(plan, mcu, b - 1, lastDc), McuBlockTokens(plan, mcu, b - 1, lastDc));
      McuRead(plan, hs, ets, mcu, lastDc, data, n, b - 1);
      ReadEnd(plan, hs, ets, mcu, lastDc, data, n, b - 1);
      BlockOfMcuRead(plan, hs, ets, mcu, lastDc, data, EndOf(Codes(plan, hs, data, n, b - 1), n), b - 1);
      ReadOneMore(plan, hs, ets, mcu, lastDc, data, n, b - 1);
    }
  }

  lemma ReadEnd(plan: Plan, hs: seq<HuffTable>, ets: seq<EncTable>, mcu: Mcu, lastDc: seq<int>, data: seq<bool>, n: nat, b: nat)
    requires Agree(plan, hs, ets) && GoodMcu(plan, mcu) && b <= |mcu| && |lastDc| == MAX_COMPS_IN_SCAN
    requires ReadSoFar(plan, hs, ets, mcu, lastDc, data, n, b)
    ensures EndOf(Codes(plan, hs, data, n, b), n) == n + |TokenBits(ets, McuTokens(plan, mcu, b, lastDc))|
  {
    hide Agree, BlockResult, PredAfter, DcAfter;
  }

  function ZeroBlocks(k: nat): (zs: seq<seq<int>>)
    ensures |zs| == k && forall z <- zs :: |z| == 64
  {
    seq(k, b => Zeros())
  }

  /** The blocks of an MCU in zigzag order. */
  function ZigzagMcu(mcu: Mcu): (zs: seq<seq<int>>)
    requires forall block <- mcu :: |block| == 64
    ensures |zs| == |mcu| && forall z <- zs :: |z| == 64
  {
    seq(|mcu|, b requires 0 <= b < |mcu| => Zigzag(mcu[b]))
  }

  /** Decoding an MCU where its tokens stand gives back its blocks, and the predictions and position after it. */
  lemma McuRoundTrip(plan: Plan, hs: seq<HuffTable>, ets: seq<EncTable>, mcu: Mcu, s: Start)
    requires Agree(plan, hs, ets) && GoodMcu(plan, mcu) && |s.pred| == MAX_COMPS_IN_SCAN && ShortMcu(mcu) && !s.skip
    requires McuInRange(plan, mcu, |mcu|, s.pred) && AllCoded(ets, McuTokens(plan, mcu, |mcu|, s.pred))
    requires Stands(s.data, s.n, TokenBits(ets, McuTokens(plan, mcu, |mcu|, s.pred)))
    ensures McuFinal(plan, hs, AllNeeded(plan), s, ZeroBlocks(|mcu|)) == ZigzagMcu(mcu)
    ensures McuEnd(plan, hs, s) == s.n + |TokenBits(ets, McuTokens(plan, mcu, |mcu|, s.pred))| <= |s.data|
    ensures McuPred(plan, hs, AllNeeded(plan), s) == DcAfter(plan, mcu, |mcu|, s.pred)
  {
    hide Zigzag, TokenBits, AllCoded, McuTokens, Codes, BlockResult, PredAfter, DcAfter, McuInRange, Zeros;
    McuRead(plan, hs, ets, mcu, s.pred, s.data, s.n, |mcu|);
    var zs, r := ZeroBlocks(|mcu|), McuFinal(plan, hs, AllNeeded(plan), s, ZeroBlocks(|mcu|));
    forall b | 0 <= b < |mcu| ensures r[b] == ZigzagMcu(mcu)[b] { assert zs[b] == Zeros(); }
  }
}
