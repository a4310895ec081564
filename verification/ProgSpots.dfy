/** Where each MCU of a progressive scan is found in the stream. */
module ProgSpots {
  import opened BitOutput
  import opened Bits
  import opened Coefficients
  import opened EobRuns
  import opened HuffTables
  import opened ProgEncoder
  import opened ProgMeaning
  import opened ProgPasses
  import opened ProgRoundTrip
  import opened ProgScan
  import opened ProgTokens
  import opened Scans
  import opened Segments
  import opened SeqEncoder
  import opened SeqRoundTrip
  import opened SeqScanEncoder
  import opened TokenOutput
  import opened Tokens
  import opened TwoPass
  import Seqs

  /** The chunks of a restart interval of an AC scan. */
  function ChunksOf(p: Progress, seg: seq<Mcu>): (chunks: seq<Chunk>)
    requires p.Valid() && p.ss > 0 && GoodMcus(p.plan, seg)
  {
    Flush(AbsorbAll(Codings(p, seg))).chunks
  }

  lemma ChunksCover(p: Progress, seg: seq<Mcu>)
    requires p.Valid() && p.ss > 0 && GoodMcus(p.plan, seg)
    ensures AllCodes(ChunksOf(p, seg)) == Codings(p, seg) && (forall c <- ChunksOf(p, seg) :: c.Good())
    ensures Whole(p, seg) == ChunksTokens(p.AcT(), ChunksOf(p, seg))
  {
    hide AbsorbAll, Flush, ChunksTokens, AllCodes, Coding, BandCoding.Good, Chunk.Good;
    CodingsGood(p, seg);
    FlushedCodes(Codings(p, seg));
    assert ChunksTokens(p.AcT(), ChunksOf(p, seg)) + [] == ChunksTokens(p.AcT(), ChunksOf(p, seg));
  }

  /** What comes before the k-th MCU of an interval in the stream, and the EOBRUN there. */
  ghost function Ahead(p: Progress, seg: seq<Mcu>, k: nat): (a: Place)
    requires p.Valid() && GoodMcus(p.plan, seg) && k <= |seg|
  {
    if p.ss == 0 then GoodPrefix(p.plan, seg, k); Place(DcTokensAll(p, seg[..k]), 0)
    else if k == |seg| then Place(Whole(p, seg), 0)
    else ChunksCover(p, seg); Lead(p.AcT(), ChunksOf(p, seg), k)
  }

  ghost function PredsAt(p: Progress, seg: seq<Mcu>, k: nat): (l: seq<int>)
    requires p.Valid() && GoodMcus(p.plan, seg) && k <= |seg|
    ensures |l| == MAX_COMPS_IN_SCAN
  {
    GoodPrefix(p.plan, seg, k);
    if p.ss == 0 then DcPredsAll(p, seg[..k]) else NoDc()
  }

  lemma AheadStart(p: Progress, seg: seq<Mcu>)
    requires p.Valid() && GoodMcus(p.plan, seg) && seg != []
    ensures Ahead(p, seg, 0) == Place([], 0) && PredsAt(p, seg, 0) == NoDc()
  {
    hide AbsorbAll, Flush, Coding, Whole, Chunk.Good;
    if p.ss == 0 {
      assert seg[..0] == [];
    } else {
      ChunksCover(p, seg);
      FirstLead(p.AcT(), ChunksOf(p, seg));
    }
  }

  lemma {:induction false} FirstLead(t: nat, chunks: seq<Chunk>)
    requires |AllCodes(chunks)| > 0
    ensures Lead(t, chunks, 0) == Place([], 0)
    decreases |chunks|
  {
    hide ChunkTokens;
    var before, last := chunks[..|chunks| - 1], chunks[|chunks| - 1];
    if |AllCodes(before)| > 0 {
      FirstLead(t, before);
    } else {
      LeadInStart(t, last);
      NoTokensBefore(t, before);
    }
  }

  lemma {:induction false} NoTokensBefore(t: nat, chunks: seq<Chunk>)
    requires AllCodes(chunks) == []
    ensures ChunksTokens(t, chunks) == []
    decreases |chunks|
  {
    if chunks != [] {
      NoTokensBefore(t, chunks[..|chunks| - 1]);
      assert chunks[|chunks| - 1].Codes() == [];
    }
  }

  /** An MCU takes its tokens from the stream and leaves the next one ahead. */
  lemma SpotStep(p: Progress, seg: seq<Mcu>, k: nat) returns (used: seq<Token>)
    requires p.Valid() && GoodMcus(p.plan, seg) && k < |seg|
    ensures GoodMcu(p.plan, seg[k])
    ensures Takes(p, seg[k], Ahead(p, seg, k).eobrun, PredsAt(p, seg, k), used, Ahead(p, seg, k + 1).eobrun, PredsAt(p, seg, k + 1))
    ensures Ahead(p, seg, k + 1).toks == Ahead(p, seg, k).toks + used && Ahead(p, seg, k + 1).toks <= Whole(p, seg)
  {
    hide AbsorbAll, Flush, Coding, Whole, Chunk.Good, DcTokensAll, DcPredsAll, DcMcuTokens, DcPreds, Consumes, GoodMcu, Lead, AllCodes,
         BandCoding.Good, ChunksOf;
    assert seg[k] in seg;
    if p.ss == 0 {
      used := DcSpot(p, seg, k);
    } else {
      ChunksCover(p, seg);
      OneBlock(p, seg, k);
      var next;
      used, next := LeadStep(p.AcT(), ChunksOf(p, seg), k);
    }
  }

  lemma DcSpot(p: Progress, seg: seq<Mcu>, k: nat) returns (used: seq<Token>)
    requires p.Valid() && p.ss == 0 && GoodMcus(p.plan, seg) && k < |seg|
    ensures GoodMcu(p.plan, seg[k])
    ensures Takes(p, seg[k], 0, PredsAt(p, seg, k), used, 0, PredsAt(p, seg, k + 1))
    ensures Ahead(p, seg, k + 1).toks == Ahead(p, seg, k).toks + used && Ahead(p, seg, k + 1).toks <= Whole(p, seg)
  {
    hide DcTokensAll, DcPredsAll, DcMcuTokens, DcPreds, GoodMcu;
    assert seg[k] in seg;
    GoodPrefix(p.plan, seg, k);
    GoodPrefix(p.plan, seg, k + 1);
    assert seg[..k + 1] == seg[..k] + [seg[k]];
    DcSnoc(p, seg[..k], seg[k]);
    NoPredictions(p, seg[..k]);
    SoFarGrows(p, seg, k + 1);
    used := DcMcuTokens(p, seg[k], |seg[k]|, DcPredsAll(p, seg[..k]));
  }

  /** The bits of an MCU stand in the finished segment where those before it end. */
  lemma SpotStands(p: Progress, ets: seq<EncTable>, bytes: seq<nat>, seg: seq<Mcu>, k: nat) returns (used: seq<Token>)
    requires p.Valid() && GoodMcus(p.plan, seg) && k < |seg| && TokenSegment(ets, bytes, Whole(p, seg))
    ensures GoodMcu(p.plan, seg[k])
    ensures Takes(p, seg[k], Ahead(p, seg, k).eobrun, PredsAt(p, seg, k), used, Ahead(p, seg, k + 1).eobrun, PredsAt(p, seg, k + 1))
    ensures var n := |TokenBits(ets, Ahead(p, seg, k).toks)|;
            && AllCoded(ets, used) && Stands(Unpack(bytes), n, TokenBits(ets, used))
            && n + |TokenBits(ets, used)| == |TokenBits(ets, Ahead(p, seg, k + 1).toks)| <= |Unpack(bytes)|
  {
    hide Whole, Takes, Ahead, PredsAt, TokenBits, AllCoded, Unpack, Stands, Padded;
    used := SpotStep(p, seg, k);
    var a, b, all := Ahead(p, seg, k).toks, Ahead(p, seg, k + 1).toks, Whole(p, seg);
    PrefixBits(ets, b, all);
    EarlierCoded(ets, b, all);
    BothCoded(ets, a, used);
    TokenBitsConcat(ets, a, used);
    PaddedPrefix(TokenBits(ets, all));
    Seqs.PrefixTrans(TokenBits(ets, b), TokenBits(ets, all), Unpack(bytes));
    StandsPrefix(Unpack(bytes), TokenBits(ets, a) + TokenBits(ets, used));
    StandsSplit(Unpack(bytes), 0, TokenBits(ets, a), TokenBits(ets, used));
  }

  lemma PaddedPrefix(bits: seq<bool>)
    ensures bits <= Padded(bits)
  {
  }

  lemma PrefixBits(ets: seq<EncTable>, a: seq<Token>, b: seq<Token>)
    requires a <= b
    ensures TokenBits(ets, a) <= TokenBits(ets, b)
  {
    hide TokenBits;
    assert b == a + b[|a|..];
    TokenBitsConcat(ets, a, b[|a|..]);
  }
}
