/** An MCU of a progressive scan is decoded as it was encoded. */
module ProgRoundTrip {
  import opened AcRefine
  import opened Arith
  import opened Bits
  import opened Coefficients
  import opened EobRuns
  import opened HuffDecoding
  import opened HuffTables
  import opened ProgEncoder
  import opened ProgMeaning
  import opened ProgPasses
  import opened ProgScan
  import opened RunLength
  import opened Scans
  import opened SeqDecoder
  import opened SeqEncoder
  import opened SeqRoundTrip
  import opened SeqScanEncoder
  import opened Tokens
  import Seqs

  /** The tables of both sides describe the same codes. */
  ghost predicate ProgAgree(p: Progress, hs: seq<HuffTable>, ets: seq<EncTable>) {
    && ProgReadable(p, hs) && |ets| == |hs|
    && (p.ss > 0 ==> Matches(hs[p.AcT()], ets[p.AcT()]))
    && (p.ss == 0 && p.ah == 0 ==> forall b :: 0 <= b < |p.plan.membership| ==> DcMatches(p, hs, ets, b))
  }

  ghost predicate DcMatches(p: Progress, hs: seq<HuffTable>, ets: seq<EncTable>, b: nat)
    requires p.plan.Valid() && |hs| == |ets| == 2 * NUM_HUFF_TBLS && b < |p.plan.membership|
  {
    Matches(hs[p.plan.CompOf(b).DcT()], ets[p.plan.CompOf(b).DcT()])
  }

  // ----- DC scans -----

  /** The value the decoder finds for a block: the shifted coefficient, or its last bit. */
  function DcFound(p: Progress, block: seq<int>): (v: int)
    requires |block| == 64
  {
    if p.ah == 0 then DcValue(block, p.al) else DcValue(block, p.al) % 2
  }

  ghost predicate DcsRead(p: Progress, mcu: Mcu, n: nat, pred: seq<int>, ets: seq<EncTable>, b: nat, w: DcWalk)
    requires p.plan.Valid() && GoodMcu(p.plan, mcu) && b <= |mcu| && |pred| == MAX_COMPS_IN_SCAN
  {
    && w.n == n + |TokenBits(ets, DcMcuTokens(p, mcu, b, pred))|
    && w.pred == (if p.ah == 0 then DcPreds(p, mcu, b, pred) else pred)
    && |w.vals| == b && forall i :: 0 <= i < b ==> |mcu[i]| == 64 && w.vals[i] == DcFound(p, mcu[i])
  }

  lemma DcBlockRead(p: Progress, hs: seq<HuffTable>, ets: seq<EncTable>, mcu: Mcu, data: seq<bool>, n: nat, pred: seq<int>, b: nat)
    requires ProgAgree(p, hs, ets) && p.ss == 0 && GoodMcu(p.plan, mcu) && b < |mcu| && |pred| == MAX_COMPS_IN_SCAN
    requires AllCoded(ets, DcBlockTokens(p, mcu, b, pred)) && Stands(data, n, TokenBits(ets, DcBlockTokens(p, mcu, b, pred)))
    requires p.ah == 0 ==> DcInRange(DcDiff(p, mcu, b, pred))
    ensures |mcu[b]| == 64
    ensures p.ah == 0 ==> DcTableAt(p, hs, b)
                          && ReadDc(hs[p.plan.CompOf(b).DcT()], data, n)
                             == (DcDiff(p, mcu, b, pred), n + |TokenBits(ets, DcBlockTokens(p, mcu, b, pred))|)
    ensures p.ah != 0 ==> BitAt(data, n) == DcValue(mcu[b], p.al) % 2
                          && |TokenBits(ets, DcBlockTokens(p, mcu, b, pred))| == 1
  {
    hide TokenBits, Stands, AllCoded, DcTokens, ReadDc, DcInRange, DcDiff, DcValue, Matches, DcTable, Decodable;
    assert mcu[b] in mcu;
    if p.ah == 0 {
      assert DcTableAt(p, hs, b) && DcMatches(p, hs, ets, b);
      var t := p.plan.CompOf(b).DcT();
      TablesShape(hs[t]);
      DcRead(hs[t], ets, t, DcDiff(p, mcu, b, pred), data, n);
    } else {
      TokenBitsOne(ets, Raw(DcValue(mcu[b], p.al), 1));
      ReadsBit(data, n, DcValue(mcu[b], p.al));
    }
  }

  lemma {:induction false} DcMcuRead(p: Progress, hs: seq<HuffTable>, ets: seq<EncTable>, mcu: Mcu, data: seq<bool>, n: nat,
                                     pred: seq<int>, b: nat)
    requires ProgAgree(p, hs, ets) && p.ss == 0 && GoodMcu(p.plan, mcu) && b <= |mcu| && |pred| == MAX_COMPS_IN_SCAN
    requires AllCoded(ets, DcMcuTokens(p, mcu, b, pred)) && Stands(data, n, TokenBits(ets, DcMcuTokens(p, mcu, b, pred)))
    requires ProgInRange(p, mcu, b, pred)
    ensures DcsRead(p, mcu, n, pred, ets, b, ReadDcs(p, hs, data, n, pred, b))
    decreases b
  {
    hide *;
    AgreeValid(p, hs, ets);
    if b == 0 {
      NoDcsRead(p, hs, ets, mcu, data, n, pred);
    } else {
      DcTokensLast(p, mcu, b, pred);
      InRangeLast(p, mcu, b, pred);
      var a, c := DcMcuTokens(p, mcu, b - 1, pred), DcBlockTokens(p, mcu, b - 1, pred);
      StandsTokens(ets, data, n, a, c);
      DcMcuRead(p, hs, ets, mcu, data, n, pred, b - 1);
      DcBlockRead(p, hs, ets, mcu, data, n + |TokenBits(ets, a)|, pred, b - 1);
      DcReadMore(p, hs, ets, mcu, data, n, pred, b - 1);
    }
  }

  lemma AgreeValid(p: Progress, hs: seq<HuffTable>, ets: seq<EncTable>)
    requires ProgAgree(p, hs, ets)
    ensures p.Valid() && p.plan.Valid() && ProgReadable(p, hs) && |ets| == |hs| == 2 * NUM_HUFF_TBLS
  {
  }

  lemma NoDcsRead(p: Progress, hs: seq<HuffTable>, ets: seq<EncTable>, mcu: Mcu, data: seq<bool>, n: nat, pred: seq<int>)
    requires ProgAgree(p, hs, ets) && p.ss == 0 && GoodMcu(p.plan, mcu) && |pred| == MAX_COMPS_IN_SCAN
    ensures DcsRead(p, mcu, n, pred, ets, 0, ReadDcs(p, hs, data, n, pred, 0))
  {
    NoTokens(ets);
  }

  lemma DcTokensLast(p: Progress, mcu: Mcu, b: nat, pred: seq<int>)
    requires p.plan.Valid() && GoodMcu(p.plan, mcu) && 0 < b <= |mcu| && |pred| == MAX_COMPS_IN_SCAN
    ensures DcMcuTokens(p, mcu, b, pred) == DcMcuTokens(p, mcu, b - 1, pred) + DcBlockTokens(p, mcu, b - 1, pred)
  {
  }

  lemma InRangeLast(p: Progress, mcu: Mcu, b: nat, pred: seq<int>)
    requires p.Valid() && p.ss == 0 && GoodMcu(p.plan, mcu) && 0 < b <= |mcu| && |pred| == MAX_COMPS_IN_SCAN
    requires ProgInRange(p, mcu, b, pred)
    ensures ProgInRange(p, mcu, b - 1, pred) && (p.ah == 0 ==> DcInRange(DcDiff(p, mcu, b - 1, pred)))
  {
    hide DcInRange, DcDiff;
  }

  /** One more block. */
  lemma NextDc(p: Progress, hs: seq<HuffTable>, data: seq<bool>, n: nat, pred: seq<int>, b: nat)
    requires ProgReadable(p, hs) && p.ss == 0 && b < |p.plan.membership| && |pred| == MAX_COMPS_IN_SCAN
    ensures p.plan.Valid() && p.plan.Ci(b) < MAX_COMPS_IN_SCAN && (p.ah == 0 ==> DcTableAt(p, hs, b))
    ensures var w, ci := ReadDcs(p, hs, data, n, pred, b), p.plan.Ci(b);
            ReadDcs(p, hs, data, n, pred, b + 1)
            == if p.ah != 0 then DcWalk(w.n + 1, w.pred, w.vals + [BitAt(data, w.n)])
               else var (diff, m) := ReadDc(hs[p.plan.CompOf(b).DcT()], data, w.n);
                    DcWalk(m, w.pred[ci := w.pred[ci] + diff], w.vals + [w.pred[ci] + diff])
  {
    hide ReadDc, BitAt;
  }

  lemma DcReadMore(p: Progress, hs: seq<HuffTable>, ets: seq<EncTable>, mcu: Mcu, data: seq<bool>, n: nat, pred: seq<int>, b: nat)
    requires ProgAgree(p, hs, ets) && p.ss == 0 && GoodMcu(p.plan, mcu) && b < |mcu| && |pred| == MAX_COMPS_IN_SCAN && |mcu[b]| == 64
    requires DcsRead(p, mcu, n, pred, ets, b, ReadDcs(p, hs, data, n, pred, b))
    requires |TokenBits(ets, DcMcuTokens(p, mcu, b + 1, pred))|
          == |TokenBits(ets, DcMcuTokens(p, mcu, b, pred))| + |TokenBits(ets, DcBlockTokens(p, mcu, b, pred))|
    requires var m := n + |TokenBits(ets, DcMcuTokens(p, mcu, b, pred))|;
             if p.ah == 0 then
               && DcTableAt(p, hs, b)
               && ReadDc(hs[p.plan.CompOf(b).DcT()], data, m)
                  == (DcDiff(p, mcu, b, pred), m + |TokenBits(ets, DcBlockTokens(p, mcu, b, pred))|)
             else BitAt(data, m) == DcValue(mcu[b], p.al) % 2 && |TokenBits(ets, DcBlockTokens(p, mcu, b, pred))| == 1
    ensures DcsRead(p, mcu, n, pred, ets, b + 1, ReadDcs(p, hs, data, n, pred, b + 1))
  {
    hide TokenBits, DcMcuTokens, DcBlockTokens, ReadDc, ReadDcs, DcTable, BitAt, DcValue, ProgAgree, ProgReadable, Progress.Valid;
    AgreeValid(p, hs, ets);
    NextDc(p, hs, data, n, pred, b);
    var w, w' := ReadDcs(p, hs, data, n, pred, b), ReadDcs(p, hs, data, n, pred, b + 1);
    assert w'.vals == w.vals + [DcFound(p, mcu[b])];
  }

  // ----- Any MCU -----

  /** What the scan makes of an MCU. */
  function KnownMcu(p: Progress, mcu: Mcu, bases: seq<seq<int>>): (zs: seq<seq<int>>)
    requires |mcu| == |bases| && (forall block <- mcu :: |block| == 64) && forall z <- bases :: |z| == 64
    ensures |zs| == |mcu| && forall z <- zs :: |z| == 64
  {
    seq(|mcu|, b requires 0 <= b < |mcu| => KnownBlock(p, Zigzag(mcu[b]), bases[b]))
  }

  predicate ReadyMcu(p: Progress, mcu: Mcu, bases: seq<seq<int>>)
    requires p.se < 64
  {
    |mcu| == |bases| && forall b :: 0 <= b < |mcu| ==>
      |mcu[b]| == |bases[b]| == 64 && ReadyFor(p, Zigzag(mcu[b]), bases[b])
  }

  /** The MCU takes `used` from the stream and changes EOBRUN and the predictions. */
  ghost predicate Takes(p: Progress, mcu: Mcu, e: nat, pred: seq<int>, used: seq<Token>, e': nat, pred': seq<int>)
    requires p.Valid() && GoodMcu(p.plan, mcu) && |pred| == MAX_COMPS_IN_SCAN
  {
    if p.ss == 0 then
      used == DcMcuTokens(p, mcu, |mcu|, pred) && e' == e && pred' == if p.ah == 0 then DcPreds(p, mcu, |mcu|, pred) else pred
    else
      |mcu| == 1 && |mcu[0]| == 64 && Consumes(p.AcT(), Coding(p, Zigzag(mcu[0])), e, used, e') && pred' == pred
  }

  lemma DcKnown(p: Progress, block: seq<int>, base: seq<int>)
    requires p.Valid() && p.ss == 0 && |block| == |base| == 64 && ShortCoefs(block) && ReadyFor(p, Zigzag(block), base)
    ensures DcSet(p, base, DcFound(p, block)) == KnownBlock(p, Zigzag(block), base)
  {
    FirstCoef(block);
    FloorShort(block[0], p.al);
    hide ToShort, Pow2, SetBit, Zigzag;
  }

  lemma AcMcuReads(p: Progress, hs: seq<HuffTable>, ets: seq<EncTable>, mcu: Mcu, bases: seq<seq<int>>, s: ProgStart,
                   used: seq<Token>, e': nat, pred': seq<int>)
    requires ProgAgree(p, hs, ets) && p.ss > 0 && GoodMcu(p.plan, mcu) && Blocks(p, bases) && |s.pred| == MAX_COMPS_IN_SCAN && !s.skip
    requires ReadyMcu(p, mcu, bases) && (forall block <- mcu :: ShortCoefs(block)) && ProgInRange(p, mcu, |mcu|, s.pred)
    requires Takes(p, mcu, s.eobrun, s.pred, used, e', pred')
    requires AllCoded(ets, used) && Stands(s.data, s.n, TokenBits(ets, used))
    ensures ProgMcu(p, hs, s, bases) == ProgOut(s.n + |TokenBits(ets, used)|, e', pred', KnownMcu(p, mcu, bases))
  {
    hide Coding, Consumes, TokenBits, Stands, AllCoded, Matches, Decodable, BandInRange, AcFirstMcu, AcRefineMcu, Known, ShortCoefs,
         Zigzag, Truncated;
    var z := Zigzag(mcu[0]);
    assert mcu[0] in mcu;
    ShortZigzag(mcu[0]);
    if p.ah == 0 {
      AcFirstReads(hs[p.AcT()], ets, p, z, bases[0], s.data, s.n, s.eobrun, used, e');
    } else {
      AcRefineReads(hs[p.AcT()], ets, p, z, bases[0], s.data, s.n, s.eobrun, used, e');
    }
  }

  lemma DcMcuReads(p: Progress, hs: seq<HuffTable>, ets: seq<EncTable>, mcu: Mcu, bases: seq<seq<int>>, s: ProgStart,
                   used: seq<Token>, e': nat, pred': seq<int>)
    requires ProgAgree(p, hs, ets) && p.ss == 0 && GoodMcu(p.plan, mcu) && Blocks(p, bases) && |s.pred| == MAX_COMPS_IN_SCAN && !s.skip
    requires ReadyMcu(p, mcu, bases) && (forall block <- mcu :: ShortCoefs(block)) && ProgInRange(p, mcu, |mcu|, s.pred)
    requires Takes(p, mcu, s.eobrun, s.pred, used, e', pred')
    requires AllCoded(ets, used) && Stands(s.data, s.n, TokenBits(ets, used))
    ensures ProgMcu(p, hs, s, bases) == ProgOut(s.n + |TokenBits(ets, used)|, e', pred', KnownMcu(p, mcu, bases))
  {
    hide TokenBits, Stands, AllCoded, DcMcuTokens, DcPreds, ReadDcs, ProgReadable, DcSet, DcFound, KnownBlock, ShortCoefs, Zigzag, ReadyFor,
         ProgInRange;
    AgreeValid(p, hs, ets);
    DcMcuRead(p, hs, ets, mcu, s.data, s.n, s.pred, |mcu|);
    var w := ReadDcs(p, hs, s.data, s.n, s.pred, |mcu|);
    var got, want := ProgMcu(p, hs, s, bases).zs, KnownMcu(p, mcu, bases);
    forall b | 0 <= b < |mcu| ensures got[b] == want[b] {
      assert mcu[b] in mcu;
      DcKnown(p, mcu[b], bases[b]);
    }
  }

  /** The decoder makes of the MCU what the scan says, and stands where the next one begins. */
  lemma ProgMcuReads(p: Progress, hs: seq<HuffTable>, ets: seq<EncTable>, mcu: Mcu, bases: seq<seq<int>>, s: ProgStart,
                     used: seq<Token>, e': nat, pred': seq<int>)
    requires ProgAgree(p, hs, ets) && GoodMcu(p.plan, mcu) && Blocks(p, bases) && |s.pred| == MAX_COMPS_IN_SCAN && !s.skip
    requires ReadyMcu(p, mcu, bases) && (forall block <- mcu :: ShortCoefs(block)) && ProgInRange(p, mcu, |mcu|, s.pred)
    requires Takes(p, mcu, s.eobrun, s.pred, used, e', pred')
    requires AllCoded(ets, used) && Stands(s.data, s.n, TokenBits(ets, used))
    ensures ProgMcu(p, hs, s, bases) == ProgOut(s.n + |TokenBits(ets, used)|, e', pred', KnownMcu(p, mcu, bases))
  {
    hide *;
    if p.ss == 0 { DcMcuReads(p, hs, ets, mcu, bases, s, used, e', pred'); }
    else { AcMcuReads(p, hs, ets, mcu, bases, s, used, e', pred'); }
  }
}
