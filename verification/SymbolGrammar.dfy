/**
 The symbols of AC scans (sections G.1.2.2 and G.1.2.3 of ITU-T T.81): which there are and what follows each of them.  In refinement
 scans no size but 1 is ever announced, and none is ever read.
 */
module SymbolGrammar {
  import opened AcRefine
  import opened Bits
  import opened Coefficients
  import opened EobRuns
  import opened HuffDecoding
  import opened HuffTables
  import opened ProgPasses
  import opened ProgScan
  import opened RunLength
  import opened Scans
  import opened Statistics
  import opened Tokens
  import Seqs

  /** A field of `n` bits. */
  predicate FieldOf(tok: Token, n: nat) { tok.Raw? && tok.n == n }

  /**
   A symbol of table `t`: F0 for sixteen zeros; r * 16 + s for r zeros and a value of s bits, which follow; or n * 16 for an end of band
   run, whose length takes n bits more.  With `unit`, only values of one bit may be announced.
   */
  predicate SymbolAt(toks: seq<Token>, i: nat, t: nat, unit: bool)
    requires i < |toks|
  {
    match toks[i]
    case Raw(v, n) => true
    case Sym(t', s) =>
      && t' == t && s < 256
      && (s == 0xF0
          || (s % 16 != 0 && (unit ==> s % 16 == 1) && i + 1 < |toks| && FieldOf(toks[i + 1], s % 16))
          || (s % 16 == 0 && s / 16 <= 14 && (s > 0 ==> i + 1 < |toks| && FieldOf(toks[i + 1], s / 16))))
  }

  ghost predicate Grammatical(toks: seq<Token>, t: nat, unit: bool) {
    forall i :: 0 <= i < |toks| ==> SymbolAt(toks, i, t, unit)
  }

  lemma GrammarJoins(a: seq<Token>, b: seq<Token>, t: nat, unit: bool)
    requires Grammatical(a, t, unit) && Grammatical(b, t, unit)
    ensures Grammatical(a + b, t, unit)
  {
    var toks := a + b;
    forall i | 0 <= i < |toks| ensures SymbolAt(toks, i, t, unit) {
      if i < |a| {
        assert SymbolAt(a, i, t, unit);
        assert i + 1 < |a| ==> toks[i + 1] == a[i + 1];
      } else {
        assert SymbolAt(b, i - |a|, t, unit);
        assert i + 1 < |toks| ==> toks[i + 1] == b[i - |a| + 1];
      }
    }
  }

  lemma BitsGrammatical(bits: seq<nat>, t: nat, unit: bool)
    ensures Grammatical(BitTokens(bits), t, unit)
  {
  }

  // ----- Blocks -----

  lemma EobGrammatical(t: nat, n: nat, unit: bool)
    requires 0 < n <= MAX_EOBRUN
    ensures Grammatical(EobTokens(t, n), t, unit)
  {
    hide NumBits;
    Pow2Literals();
    NumBitsLeast(n, 15);
  }

  lemma ValueGrammatical(t: nat, r: nat, v: int)
    requires r <= 15 && v != 0 && NumBits(Abs(v)) <= 15
    ensures Grammatical(ValueTokens(t, r, v), t, false)
  {
    hide NumBits, ValueBits;
  }

  /** A band of a first scan. */
  lemma {:induction false} RunsGrammatical(z: seq<int>, t: nat, k: nat, se: nat)
    requires se < |z| && k <= se + 1 && SmallValues(z, k, se)
    ensures Grammatical(RunTokens(z, t, k, se), t, false)
    decreases se + 1 - k
  {
    hide NumBits, ValueTokens, Grammatical;
    var p := NextNonzero(z, k, se);
    Nothing(t, false);
    if p <= se {
      if p - k > 15 {
        RunsGrammatical(z, t, k + 16, se);
        ZrlGrammatical(t, false);
        GrammarJoins([Sym(t, ZRL)], RunTokens(z, t, k + 16, se), t, false);
      } else {
        RunsGrammatical(z, t, p + 1, se);
        ValueGrammatical(t, p - k, z[p]);
        GrammarJoins(ValueTokens(t, p - k, z[p]), RunTokens(z, t, p + 1, se), t, false);
      }
    }
  }

  lemma Nothing(t: nat, unit: bool)
    ensures Grammatical([], t, unit)
  {
  }

  lemma ZrlGrammatical(t: nat, unit: bool)
    ensures Grammatical([Sym(t, ZRL)], t, unit)
  {
  }

  lemma NewGrammatical(m: seq<nat>, z: seq<int>, t: nat, g: nat, q: nat)
    requires g <= q < |m| == |z| && NumZeros(m, g, q) <= 15
    ensures Grammatical(NewTokens(m, z, t, g, q), t, true)
  {
    hide NumZeros, Corrections;
    var r := NumZeros(m, g, q);
    var head := [Sym(t, r * 16 + 1), Raw(if z[q] < 0 then 0 else 1, 1)];
    assert (r * 16 + 1) % 16 == 1;
    assert Grammatical(head, t, true);
    BitsGrammatical(Corrections(m, g, q), t, true);
    GrammarJoins(head, BitTokens(Corrections(m, g, q)), t, true);
  }

  lemma ZrlGroupGrammatical(m: seq<nat>, t: nat, g: nat, p: nat)
    requires g <= p <= |m|
    ensures Grammatical(ZrlTokens(m, t, g, p), t, true)
  {
    hide Corrections, Grammatical;
    ZrlGrammatical(t, true);
    BitsGrammatical(Corrections(m, g, p), t, true);
    GrammarJoins([Sym(t, ZRL)], BitTokens(Corrections(m, g, p)), t, true);
  }

  /** A refined band. */
  lemma {:induction false} RefinementsGrammatical(m: seq<nat>, z: seq<int>, t: nat, g: nat, se: nat)
    requires se < |m| == |z| && g <= se + 1
    ensures Grammatical(RefineTokens(m, z, t, g, se), t, true)
    decreases se + 1 - g
  {
    hide NewTokens, ZrlTokens, Grammatical, NumZeros, RefineTokens, NextNew, Stop;
    var q, p := NextNew(m, g, se), Stop(m, g, 15, se);
    StopAfterNew(m, g, se);
    if q > se {
      RefineNone(m, z, t, g, se);
      Nothing(t, true);
    } else if p < q {
      RefineZrl(m, z, t, g, se);
      RefinementsGrammatical(m, z, t, p + 1, se);
      ZrlGroupGrammatical(m, t, g, p);
      GrammarJoins(ZrlTokens(m, t, g, p), RefineTokens(m, z, t, p + 1, se), t, true);
    } else {
      RefineNew(m, z, t, g, se);
      RefinementsGrammatical(m, z, t, q + 1, se);
      NewGrammatical(m, z, t, g, q);
      GrammarJoins(NewTokens(m, z, t, g, q), RefineTokens(m, z, t, q + 1, se), t, true);
    }
  }

  /** The values of a first scan fit their symbols. */
  predicate Fits(p: Progress, z: seq<int>)
    requires |z| == 64 && p.se < 64
  {
    p.ah == 0 ==> BandInRange(p, z, p.se + 1)
  }

  lemma HeadGrammatical(p: Progress, z: seq<int>)
    requires p.Valid() && p.ss > 0 && |z| == 64 && Fits(p, z)
    ensures Grammatical(Coding(p, z).head, p.AcT(), p.ah != 0)
  {
    hide RunTokens, RefineTokens, RefineEnd, RunEnd, Corrections, Grammatical, NumBits, Shift;
    if p.ah == 0 {
      var v := Shifted(z, p.al);
      assert SmallValues(v, p.ss, p.se);
      RunsGrammatical(v, p.AcT(), p.ss, p.se);
    } else {
      RefinementsGrammatical(Mags(z, p.al), z, p.AcT(), p.ss, p.se);
    }
  }

  // ----- Scans -----

  ghost predicate ChunkFine(c: Chunk, t: nat, unit: bool) { Grammatical(ChunkTokens(t, c), t, unit) }

  /** What has been emitted, and the beginning of the pending run. */
  ghost predicate Fine(s: RunState, t: nat, unit: bool) {
    && (forall i :: 0 <= i < |s.chunks| ==> ChunkFine(s.chunks[i], t, unit))
    && (s.run != [] ==> Grammatical(s.run[0].head, t, unit))
  }

  lemma FlushFine(s: RunState, t: nat, unit: bool)
    requires Fine(s, t, unit) && |s.run| <= MAX_EOBRUN
    ensures Fine(Flush(s), t, unit)
  {
    hide Grammatical, EobTokens, BitTokens, Tails;
    if s.run != [] {
      EobGrammatical(t, |s.run|, unit);
      BitsGrammatical(Tails(s.run), t, unit);
      GrammarJoins(s.run[0].head, EobTokens(t, |s.run|), t, unit);
      GrammarJoins(s.run[0].head + EobTokens(t, |s.run|), BitTokens(Tails(s.run)), t, unit);
    }
  }

  lemma AbsorbFine(s: RunState, c: BandCoding, t: nat, unit: bool)
    requires s.Valid() && c.Good() && Fine(s, t, unit) && Grammatical(c.head, t, unit)
    ensures Fine(Absorb(s, c), t, unit)
  {
    hide Grammatical, ChunkFine, Tails, BandCoding.Good, MustFlush;
    FlushFine(s, t, unit);
    var f := Flush(s);
    JoinFine(s, c, t, unit);
    FlushValid(s);
    JoinFine(f, c, t, unit);
    PlainFine(c, t, unit);
  }

  lemma PlainFine(c: BandCoding, t: nat, unit: bool)
    requires Grammatical(c.head, t, unit)
    ensures ChunkFine(Plain(c), t, unit)
  {
  }

  lemma JoinFine(s: RunState, c: BandCoding, t: nat, unit: bool)
    requires |s.run| < MAX_EOBRUN && Fine(s, t, unit) && Grammatical(c.head, t, unit)
    ensures Fine(Join(s, c), t, unit)
  {
    hide Grammatical, ChunkFine, Tails, MustFlush;
    FlushFine(RunState(s.chunks, s.run + [c]), t, unit);
  }

  lemma {:induction false} AbsorbAllFine(codes: seq<BandCoding>, t: nat, unit: bool)
    requires forall c <- codes :: c.Good() && Grammatical(c.head, t, unit)
    ensures Fine(AbsorbAll(codes), t, unit)
  {
    hide Absorb, Grammatical, BandCoding.Good, ChunkFine;
    if codes != [] {
      var k := |codes| - 1;
      assert codes[k] in codes;
      AbsorbAllFine(codes[..k], t, unit);
      AbsorbAllValid(codes[..k]);
      AbsorbFine(AbsorbAll(codes[..k]), codes[k], t, unit);
    }
  }

  lemma {:induction false} ChunksFine(t: nat, chunks: seq<Chunk>, unit: bool)
    requires forall i :: 0 <= i < |chunks| ==> ChunkFine(chunks[i], t, unit)
    ensures Grammatical(ChunksTokens(t, chunks), t, unit)
  {
    hide ChunkTokens, Grammatical;
    if chunks == [] {
      Nothing(t, unit);
    } else {
      var k := |chunks| - 1;
      ChunksFine(t, chunks[..k], unit);
      assert ChunkFine(chunks[k], t, unit);
      GrammarJoins(ChunksTokens(t, chunks[..k]), ChunkTokens(t, chunks[k]), t, unit);
    }
  }

  /** The blocks of an interval fit their symbols. */
  ghost predicate AllFit(p: Progress, mcus: seq<Mcu>)
    requires p.Valid() && p.ss > 0 && GoodMcus(p.plan, mcus)
  {
    forall i :: 0 <= i < |mcus| ==> |mcus[i]| == 1 && |mcus[i][0]| == 64 && Fits(p, Zigzag(mcus[i][0]))
  }

  /** All tokens of a restart interval of an AC scan. */
  lemma IntervalGrammatical(p: Progress, mcus: seq<Mcu>)
    requires p.Valid() && p.ss > 0 && GoodMcus(p.plan, mcus) && AllFit(p, mcus)
    ensures Grammatical(Whole(p, mcus), p.AcT(), p.ah != 0)
  {
    hide Coding, Grammatical, AbsorbAll, ChunkFine, BandCoding.Good, GoodMcus, Zigzag, Fits, ChunksTokens, Flush;
    var t, unit, codes := p.AcT(), p.ah != 0, Codings(p, mcus);
    CodingsGood(p, mcus);
    forall c | c in codes ensures Grammatical(c.head, t, unit) {
      var i :| 0 <= i < |mcus| && codes[i] == c;
      HeadGrammatical(p, Zigzag(mcus[i][0]));
    }
    AbsorbAllFine(codes, t, unit);
    AbsorbAllValid(codes);
    var s := AbsorbAll(codes);
    RunShort(s);
    FlushFine(s, t, unit);
    NothingWaits(s);
    ChunksFine(t, Flush(s).chunks, unit);
    assert ChunksTokens(t, Flush(s).chunks) + [] == ChunksTokens(t, Flush(s).chunks);
  }

  lemma RunShort(s: RunState)
    requires s.Valid()
    ensures |s.run| <= MAX_EOBRUN
  {
  }

  lemma NothingWaits(s: RunState)
    ensures Flush(s).run == []
  {
  }

  /** A refinement scan announces only values of one bit, whatever its coefficients. */
  lemma RefinementSymbols(p: Progress, mcus: seq<Mcu>)
    requires p.Valid() && p.ss > 0 && p.ah != 0 && GoodMcus(p.plan, mcus)
    ensures Grammatical(Whole(p, mcus), p.AcT(), true)
  {
    hide GoodMcu, Whole, Grammatical, Zigzag;
    forall i | 0 <= i < |mcus| ensures |mcus[i]| == 1 && |mcus[i][0]| == 64 { OneBlock(p, mcus, i); }
    IntervalGrammatical(p, mcus);
  }

  // ----- The decoder's side -----

  /** No size other than 0 and 1 can be read with the table, wherever in whatever data. */
  ghost predicate UnitSizes(h: HuffTable) {
    && h.WellTyped() && Count(h.bits, 16) <= 256
    && forall data: seq<bool>, n: nat :: DecodeSymbol(h, data, n) % 16 <= 1
  }

  /** No symbol announces more than one bit. */
  predicate SmallSizes(toks: seq<Token>) { forall tok <- toks :: tok.Sym? ==> tok.s % 16 <= 1 }

  lemma {:induction false} AllSmallSizes(p: Progress, segs: seq<seq<Mcu>>)
    requires p.Valid() && p.ss > 0 && p.ah != 0 && forall seg <- segs :: GoodMcus(p.plan, seg)
    ensures SmallSizes(AllWhole(p, segs))
  {
    hide Whole, GoodMcus, Grammatical;
    if segs != [] {
      var k := |segs| - 1;
      assert segs[k] in segs;
      AllSmallSizes(p, segs[..k]);
      RefinementSymbols(p, segs[k]);
      GrammarIsSmall(Whole(p, segs[k]), p.AcT());
    }
  }

  lemma GrammarIsSmall(toks: seq<Token>, t: nat)
    requires Grammatical(toks, t, true)
    ensures SmallSizes(toks)
  {
    forall tok | tok in toks && tok.Sym? ensures tok.s % 16 <= 1 {
      var i :| 0 <= i < |toks| && toks[i] == tok;
      assert SymbolAt(toks, i, t, true);
    }
  }

  /** A table that was made for tokens with small sizes leads to no other symbol. */
  lemma TableHasUnitSizes(h: HuffTable, toks: seq<Token>, t: nat)
    requires TableFor(h, toks, t) && SmallSizes(toks)
    ensures UnitSizes(h)
  {
    hide OptimalTable.OptimalFor, DecodeLength, DecodeIndex, Legal;
    LegalCount(h.bits);
    forall data: seq<bool>, n: nat ensures DecodeSymbol(h, data, n) % 16 <= 1 {
      var s := DecodeSymbol(h, data, n);
      if DecodeLength(h.bits, data, n) != 17 {
        var listed := h.huffval[..Count(h.bits, 16)];
        assert s == listed[DecodeIndex(h.bits, data, n)] && s in listed;
        assert Sym(t, s) in toks;
      }
    }
  }

  lemma LegalCount(bits: seq<nat>)
    requires Legal(bits)
    ensures Count(bits, 16) <= 256
  {
  }

  /**
   With the table that the encoder makes for a refinement scan, the decoder never reads a size other than 0 or 1, neither in the scan's
   own stream nor in any other: it has no occasion to warn of a bad code.
   */
  lemma RefinementReadsUnits(p: Progress, mcus: seq<Mcu>, hs: seq<HuffTable>)
    requires p.Valid() && p.ss > 0 && p.ah != 0 && GoodMcus(p.plan, mcus) && ProgSelected(p, p.AcT())
    requires ProgTablesFor(p, hs, ScanTokenList(p, mcus))
    ensures UnitSizes(hs[p.AcT()])
  {
    hide TableFor, UnitSizes, SmallSizes, GoodMcus, ProgSelected, AllWhole;
    SplitMembers(p.plan, mcus, p.plan.restartInterval);
    AllSmallSizes(p, AllSegs(mcus, p.plan.restartInterval));
    TableHasUnitSizes(hs[p.AcT()], ScanTokenList(p, mcus), p.AcT());
  }
}
