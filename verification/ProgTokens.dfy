/** The symbols that a progressive scan can call for, and the tables it needs. */
module ProgTokens {
  import opened AcRefine
  import opened Bits
  import opened Coefficients
  import opened EobRuns
  import opened ProgEncoder
  import opened ProgScan
  import opened RunLength
  import opened Scans
  import opened SeqEncoder
  import opened SeqScanEncoder
  import opened Statistics
  import opened TokenOutput
  import opened Tokens
  import Seqs

  // ----- AC scans -----

  /** Tokens of one AC table that `jpeg_gen_optimal_table` can deal with. */
  ghost predicate Proper(t: nat, toks: seq<Token>) {
    AllCodable(toks) && OfTable(toks, t) && (toks != [] ==> toks[0].Sym?)
  }

  lemma ProperJoin(t: nat, a: seq<Token>, b: seq<Token>)
    requires Proper(t, a) && AllCodable(b) && OfTable(b, t) && (a != [] || b == [] || b[0].Sym?)
    ensures Proper(t, a + b)
  {
    hide Codable;
  }

  lemma {:induction false} RunsProper(v: seq<int>, t: nat, k: nat, se: nat)
    requires |v| == 64 && k <= se + 1 && se < 64 && NUM_HUFF_TBLS <= t < 2 * NUM_HUFF_TBLS
    requires forall i :: k <= i <= se ==> NumBits(Abs(v[i])) <= MAX_COEF_BITS
    ensures Proper(t, RunTokens(v, t, k, se))
    decreases se + 1 - k
  {
    hide NumBits, NextNonzero, ValueTokens, Proper;
    var q := NextNonzero(v, k, se);
    if q > se {
      NothingProper(t);
    } else if q - k > 15 {
      RunsProper(v, t, k + 16, se);
      ZrlAlone(t);
      ProperBoth(t, [Sym(t, ZRL)], RunTokens(v, t, k + 16, se));
    } else {
      RunsProper(v, t, q + 1, se);
      ValueProper(t, q - k, v[q]);
      ProperBoth(t, ValueTokens(t, q - k, v[q]), RunTokens(v, t, q + 1, se));
    }
  }

  lemma ZrlAlone(t: nat)
    requires NUM_HUFF_TBLS <= t < 2 * NUM_HUFF_TBLS
    ensures Proper(t, [Sym(t, ZRL)])
  {
  }

  lemma ValueProper(t: nat, r: nat, v: int)
    requires NUM_HUFF_TBLS <= t < 2 * NUM_HUFF_TBLS && r <= 15 && v != 0 && NumBits(Abs(v)) <= MAX_COEF_BITS
    ensures Proper(t, ValueTokens(t, r, v))
  {
    hide NumBits, ValueBits;
    assert NumBits(Abs(v)) != 0;
  }

  lemma BitsProper(t: nat, bits: seq<nat>)
    ensures AllCodable(BitTokens(bits)) && OfTable(BitTokens(bits), t)
  {
  }

  lemma ZrlProper(m: seq<nat>, t: nat, g: nat, q: nat)
    requires g <= q <= |m| && NUM_HUFF_TBLS <= t < 2 * NUM_HUFF_TBLS
    ensures Proper(t, ZrlTokens(m, t, g, q)) && ZrlTokens(m, t, g, q) != []
  {
    hide Corrections, BitTokens;
    BitsProper(t, Corrections(m, g, q));
  }

  lemma NewProper(m: seq<nat>, z: seq<int>, t: nat, g: nat, q: nat)
    requires g <= q < |m| == |z| && NUM_HUFF_TBLS <= t < 2 * NUM_HUFF_TBLS && NumZeros(m, g, q) <= 15
    ensures Proper(t, NewTokens(m, z, t, g, q)) && NewTokens(m, z, t, g, q) != []
  {
    hide Corrections, BitTokens, NumZeros;
    BitsProper(t, Corrections(m, g, q));
  }

  lemma {:induction false} RefinementsProper(m: seq<nat>, z: seq<int>, t: nat, g: nat, se: nat)
    requires se < |m| == |z| && g <= se + 1 && NUM_HUFF_TBLS <= t < 2 * NUM_HUFF_TBLS
    ensures Proper(t, RefineTokens(m, z, t, g, se))
    decreases se + 1 - g
  {
    hide NextNew, Stop, ZrlTokens, NewTokens, Proper, NumZeros, RefineTokens, RefineEnd;
    var q, r := NextNew(m, g, se), Stop(m, g, 15, se);
    StopAfterNew(m, g, se);
    if q > se {
      RefineNone(m, z, t, g, se);
      NothingProper(t);
    } else if r < q {
      RefineZrl(m, z, t, g, se);
      ZrlProper(m, t, g, r);
      RefinementsProper(m, z, t, r + 1, se);
      ProperBoth(t, ZrlTokens(m, t, g, r), RefineTokens(m, z, t, r + 1, se));
    } else {
      RefineNew(m, z, t, g, se);
      NewProper(m, z, t, g, q);
      RefinementsProper(m, z, t, q + 1, se);
      ProperBoth(t, NewTokens(m, z, t, g, q), RefineTokens(m, z, t, q + 1, se));
    }
  }

  lemma NothingProper(t: nat)
    ensures Proper(t, [])
  {
  }

  lemma ProperBoth(t: nat, a: seq<Token>, b: seq<Token>)
    requires Proper(t, a) && Proper(t, b)
    ensures Proper(t, a + b)
  {
    ProperJoin(t, a, b);
  }

  lemma CodingProper(p: Progress, z: seq<int>)
    requires p.Valid() && p.ss > 0 && |z| == 64 && (p.ah == 0 ==> BandInRange(p, z, p.se + 1))
    ensures Proper(p.AcT(), Coding(p, z).head)
  {
    hide RunTokens, RefineTokens, RunEnd, RefineEnd, Corrections, Proper, NumBits, Shift;
    if p.ah == 0 {
      RunsProper(Shifted(z, p.al), p.AcT(), p.ss, p.se);
    } else {
      RefinementsProper(Mags(z, p.al), z, p.AcT(), p.ss, p.se);
    }
  }

  lemma EobProper(t: nat, n: nat)
    requires 0 < n <= MAX_EOBRUN && NUM_HUFF_TBLS <= t < 2 * NUM_HUFF_TBLS
    ensures Proper(t, EobTokens(t, n)) && UsesTable(EobTokens(t, n), t)
  {
    hide NumBits;
    RunLengthBits(n);
    var nbits: nat := NumBits(n) - 1;
    assert Sym(t, nbits * 16) in EobTokens(t, n);
  }

  lemma ChunkProper(t: nat, c: Chunk)
    requires c.Good() && NUM_HUFF_TBLS <= t < 2 * NUM_HUFF_TBLS && forall b <- c.Codes() :: Proper(t, b.head)
    ensures Proper(t, ChunkTokens(t, c)) && UsesTable(ChunkTokens(t, c), t)
  {
    hide EobTokens, Tails, Proper, BitTokens;
    if c.Plain? {
      assert c.code in c.Codes();
      HeadUses(t, c.code.head);
    } else {
      assert c.codes[0] in c.Codes();
      var h, e, b := c.codes[0].head, EobTokens(t, |c.codes|), BitTokens(Tails(c.codes));
      EobProper(t, |c.codes|);
      ProperBoth(t, h, e);
      BitsProper(t, Tails(c.codes));
      UsesMore(h, e, t);
      UsesMore(h + e, b, t);
      EobSome(t, |c.codes|);
      ProperJoin(t, h + e, b);
    }
  }

  lemma EobSome(t: nat, n: nat)
    requires n > 0
    ensures EobTokens(t, n) != []
  {
  }

  lemma HeadUses(t: nat, toks: seq<Token>)
    requires Proper(t, toks) && toks != []
    ensures UsesTable(toks, t)
  {
    assert toks[0] in toks;
    assert Codable(toks[0]);
    assert toks[0] == Sym(t, toks[0].s);
  }

  lemma {:induction false} ChunksProper(t: nat, chunks: seq<Chunk>)
    requires (forall c <- chunks :: c.Good()) && NUM_HUFF_TBLS <= t < 2 * NUM_HUFF_TBLS
    requires forall b <- AllCodes(chunks) :: Proper(t, b.head)
    ensures Proper(t, ChunksTokens(t, chunks)) && (chunks != [] ==> UsesTable(ChunksTokens(t, chunks), t))
  {
    hide ChunkTokens, Proper, UsesTable, Chunk.Codes, Chunk.Good;
    if chunks == [] {
      NothingProper(t);
    } else {
      var before, last := chunks[..|chunks| - 1], chunks[|chunks| - 1];
      assert last in chunks;
      forall b | b in AllCodes(before) ensures Proper(t, b.head) { assert b in AllCodes(chunks); }
      forall b | b in last.Codes() ensures Proper(t, b.head) { assert b in AllCodes(chunks); }
      ChunksProper(t, before);
      ChunkProper(t, last);
      ProperBoth(t, ChunksTokens(t, before), ChunkTokens(t, last));
      UsesMore(ChunksTokens(t, before), ChunkTokens(t, last), t);
    }
  }

  /** All MCUs of a restart interval are in range. */
  ghost predicate IntervalInRange(p: Progress, mcus: seq<Mcu>)
    requires p.Valid() && GoodMcus(p.plan, mcus)
  {
    forall i :: 0 <= i < |mcus| ==> IntervalInRangeAt(p, mcus, i)
  }

  ghost predicate IntervalInRangeAt(p: Progress, mcus: seq<Mcu>, i: nat)
    requires p.Valid() && GoodMcus(p.plan, mcus) && i < |mcus|
  {
    assert mcus[i] in mcus;
    assert GoodMcus(p.plan, mcus[..i]) by { forall mcu | mcu in mcus[..i] ensures GoodMcu(p.plan, mcu) { assert mcu in mcus; } }
    ProgInRange(p, mcus[i], |mcus[i]|, DcPredsAll(p, mcus[..i]))
  }

  lemma {:induction false} AbsorbKeepsAll(codes: seq<BandCoding>)
    requires forall c <- codes :: c.Good()
    ensures AllCodes(AbsorbAll(codes).chunks) + AbsorbAll(codes).run == codes
  {
    hide Absorb, BandCoding.Good, AllCodes;
    if codes == [] {
      NoCodes();
    } else {
      var n := |codes| - 1;
      AbsorbKeepsAll(codes[..n]);
      assert codes[n] in codes;
      AbsorbKeeps(AbsorbAll(codes[..n]), codes[n]);
      Seqs.InitLast(codes);
    }
  }

  lemma NoCodes()
    ensures AllCodes([]) == []
  {
  }

  /** The chunks of a finished interval hold the codings of its blocks, in order. */
  lemma FlushedCodes(codes: seq<BandCoding>)
    requires forall c <- codes :: c.Good()
    ensures var s := Flush(AbsorbAll(codes));
            && s.run == [] && AllCodes(s.chunks) == codes && (forall c <- s.chunks :: c.Good())
            && (codes != [] ==> s.chunks != [])
  {
    hide AbsorbAll, BandCoding.Good, AllCodes, Tails, Chunk.Good;
    AbsorbKeepsAll(codes);
    AbsorbAllValid(codes);
    FlushKeeps(AbsorbAll(codes));
    FlushValid(AbsorbAll(codes));
    var s := Flush(AbsorbAll(codes));
    assert AllCodes(s.chunks) + [] == AllCodes(s.chunks);
    if s.chunks == [] { NoCodes(); }
  }

  lemma AcWhole(p: Progress, mcus: seq<Mcu>)
    requires p.Valid() && p.ss > 0 && GoodMcus(p.plan, mcus) && IntervalInRange(p, mcus)
    ensures Proper(p.AcT(), Whole(p, mcus)) && (mcus != [] ==> UsesTable(Whole(p, mcus), p.AcT()))
  {
    hide AbsorbAll, Flush, ChunksTokens, Proper, UsesTable, Coding, BandInRange, Zigzag, BandCoding.Good, DcPredsAll, Chunk.Good,
         AllCodes;
    var codes, t := Codings(p, mcus), p.AcT();
    CodingsGood(p, mcus);
    FlushedCodes(codes);
    forall c | c in codes ensures Proper(t, c.head) {
      var i :| 0 <= i < |mcus| && codes[i] == c;
      assert IntervalInRangeAt(p, mcus, i);
      CodingProper(p, Zigzag(mcus[i][0]));
    }
    var s := Flush(AbsorbAll(codes));
    ChunksProper(t, s.chunks);
    assert ChunksTokens(t, s.chunks) + [] == ChunksTokens(t, s.chunks);
  }
}
