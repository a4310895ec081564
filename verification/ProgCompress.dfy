/**
 A progressive scan from end to end: statistics, optimal tables, output, and decoding from a stream that arrives in pieces
 of any size.
 */
module ProgCompress {
  import opened AcRefine
  import opened BitInput
  import opened BitOutput
  import opened Bits
  import opened Coefficients
  import opened HuffDecoding
  import opened HuffTables
  import opened ProgDecoder
  import opened ProgEncoder
  import opened ProgMeaning
  import opened ProgPasses
  import opened ProgRoundTrip
  import opened ProgScan
  import opened ProgTheorem
  import opened ProgTokens
  import opened Scans
  import opened Segments
  import opened SeqDecoder
  import opened SeqEncoder
  import opened SeqGather
  import opened SeqRoundTrip
  import opened SeqScanEncoder
  import opened Statistics
  import opened Streams
  import opened SymbolGrammar
  import opened TokenOutput
  import opened Tokens
  import opened TwoPass
  import Seqs

  // ----- Tables -----

  /** The tables the scan selects pass the checks of both coders. */
  ghost predicate ProgUsable(p: Progress, hs: seq<HuffTable>) {
    && p.plan.Valid() && |hs| == 2 * NUM_HUFF_TBLS && (forall h <- hs :: h.WellTyped())
    && forall t: nat :: t < |hs| && ProgSelected(p, t) ==> Usable(hs[t], t)
  }

  lemma TablesServe(p: Progress, hs: seq<HuffTable>, toks: seq<Token>)
    requires p.plan.Valid() && ProgTablesFor(p, hs, toks)
    ensures ProgUsable(p, hs)
  {
    hide ProgSelected;
    forall t: nat | t < |hs| && ProgSelected(p, t) ensures Usable(hs[t], t) { assert TableFor(hs[t], toks, t); }
  }

  /** The encoder's derived tables (`start_pass_phuff`). */
  method StartProgEncoder(p: Progress, hs: seq<HuffTable>) returns (ets: seq<EncTable>)
    requires ProgUsable(p, hs)
    ensures |ets| == |hs| == 2 * NUM_HUFF_TBLS && AllWellFormed(ets)
    ensures forall t: nat :: t < |hs| && ProgSelected(p, t) ==> Matches(hs[t], ets[t])
  {
    hide Usable, WellFormed, Matches, ProgSelectedUpTo, TableOf;
    ets := seq(2 * NUM_HUFF_TBLS, t => NoEncTable());
    NothingSelectedYet(p);
    if !Coded(p) { NoneSelectedAtAll(p); return; }
    var ci := 0;
    while ci < |p.plan.comps|
      invariant 0 <= ci <= |p.plan.comps| && |ets| == 2 * NUM_HUFF_TBLS && AllWellFormed(ets)
      invariant forall t: nat :: t < |hs| && ProgSelectedUpTo(p, t, ci) ==> Matches(hs[t], ets[t])
    {
      ProgSelectedMore(p, ci);
      var t := TableOf(p, ci);
      var e := EncoderTable(hs[t], t);
      ets := ets[t := e];
      ci := ci + 1;
    }
  }

  lemma NoneSelectedAtAll(p: Progress)
    requires p.plan.Valid() && !Coded(p)
    ensures forall t: nat :: !ProgSelected(p, t)
  {
  }

  /** The decoder's derived tables (`start_pass_phuff_decoder`). */
  method StartProgDecoder(p: Progress, hs: seq<HuffTable>) returns (ds: seq<DecTable>)
    requires ProgUsable(p, hs)
    ensures |ds| == |hs|
    ensures forall t: nat :: t < |hs| && ProgSelected(p, t) ==> Derived(hs[t], ds[t])
  {
    hide Usable, Derived, ProgSelectedUpTo, TableOf;
    ds := seq(2 * NUM_HUFF_TBLS, t => NoDecTable());
    NothingSelectedYet(p);
    if !Coded(p) { NoneSelectedAtAll(p); return; }
    var ci := 0;
    while ci < |p.plan.comps|
      invariant 0 <= ci <= |p.plan.comps| && |ds| == 2 * NUM_HUFF_TBLS
      invariant forall t: nat :: t < |hs| && ProgSelectedUpTo(p, t, ci) ==> Derived(hs[t], ds[t])
    {
      ProgSelectedMore(p, ci);
      var t := TableOf(p, ci);
      var d := DecoderTable(hs[t], t);
      ds := ds[t := d];
      ci := ci + 1;
    }
  }

  lemma TableOfAc(p: Progress)
    requires p.Valid() && p.ss > 0
    ensures ProgSelected(p, p.AcT())
  {
    ProgSelectedMore(p, 0);
  }

  lemma TableOfDc(p: Progress, b: nat)
    requires p.Valid() && p.ss == 0 && p.ah == 0 && b < |p.plan.membership|
    ensures ProgSelected(p, p.plan.CompOf(b).DcT()) && p.plan.CompOf(b).DcT() < NUM_HUFF_TBLS
  {
    ProgSelectedMore(p, p.plan.Ci(b));
    assert p.plan.CompOf(b).Valid();
  }

  lemma ReadableFrom(p: Progress, hs: seq<HuffTable>)
    requires p.Valid() && ProgUsable(p, hs)
    ensures ProgReadable(p, hs)
  {
    hide ProgSelected, Usable, DcTable, Decodable;
    if p.ss > 0 {
      TableOfAc(p);
      UsableServes(hs[p.AcT()], p.AcT());
    } else if p.ah == 0 {
      forall b | 0 <= b < |p.plan.membership| ensures DcTableAt(p, hs, b) {
        TableOfDc(p, b);
        UsableServes(hs[p.plan.CompOf(b).DcT()], p.plan.CompOf(b).DcT());
      }
    }
  }

  lemma UsableServes(h: HuffTable, t: nat)
    requires Usable(h, t)
    ensures Decodable(h) && (t < NUM_HUFF_TBLS ==> DcTable(h))
  {
  }

  lemma AgreeFrom(p: Progress, hs: seq<HuffTable>, ets: seq<EncTable>)
    requires p.Valid() && ProgUsable(p, hs) && |ets| == |hs|
    requires forall t: nat :: t < |hs| && ProgSelected(p, t) ==> Matches(hs[t], ets[t])
    ensures ProgAgree(p, hs, ets)
  {
    hide ProgSelected, Usable, Matches, ProgReadable;
    ReadableFrom(p, hs);
    if p.ss > 0 {
      TableOfAc(p);
    } else if p.ah == 0 {
      forall b | 0 <= b < |p.plan.membership| ensures DcMatches(p, hs, ets, b) { TableOfDc(p, b); }
    }
  }

  lemma ReadyFrom(p: Progress, hs: seq<HuffTable>, ds: seq<DecTable>)
    requires p.Valid() && ProgUsable(p, hs) && |ds| == |hs|
    requires forall t: nat :: t < |hs| && ProgSelected(p, t) ==> Derived(hs[t], ds[t])
    ensures ProgReady(p, hs, ds)
  {
    hide ProgSelected, Usable, Derived, ProgReadable;
    ReadableFrom(p, hs);
    if p.ss > 0 {
      TableOfAc(p);
    } else if p.ah == 0 {
      forall b | 0 <= b < |p.plan.membership| ensures DcDerived(p, hs, ds, b) { TableOfDc(p, b); }
    }
  }

  /** Every token of the scan has a code in the tables made for it. */
  lemma ProgTokensCoded(p: Progress, hs: seq<HuffTable>, ets: seq<EncTable>, toks: seq<Token>, some: bool)
    requires p.plan.Valid() && ProgTablesFor(p, hs, toks) && TokensGood(p, toks, some) && |ets| == |hs|
    requires forall t: nat :: t < |hs| && ProgSelected(p, t) ==> Matches(hs[t], ets[t])
    ensures AllCoded(ets, toks)
  {
    hide ProgSelected, TableFor, Matches;
    forall tok | tok in toks ensures HasCode(ets, tok) {
      assert Codable(tok);
      if tok.Sym? { ListedCoded(hs[tok.t], ets[tok.t], toks, tok.t, tok.s); }
    }
  }

  // ----- Output -----

  /** `finish_pass_phuff`, and the marker that follows the scan. */
  method FinishOutput(e: PhuffEncoder, m: nat) returns (ok: bool, out: seq<nat>, ghost done: seq<(seq<nat>, nat)>)
    requires e.Valid() && !e.sink.gather && IsMarker(m)
    modifies e`eobrun, e`be, e.sink`toks, e.sink.w, e.sink.counts
    ensures GoodMcus(e.p.plan, e.cur)
    ensures ok ==> out == Join(done) && Framed(done, m) && |done| == |e.segs| + 1
    ensures ok ==> TokenSegment(e.sink.ets, done[|e.segs|].0, Whole(e.p, e.cur))
    ensures ok ==> forall j :: 0 <= j < |e.segs| ==>
                     GoodMcus(e.p.plan, e.segs[j]) && TokenSegment(e.sink.ets, done[j].0, Whole(e.p, e.segs[j]))
    ensures !ok ==> !AllCoded(e.sink.ets, Whole(e.p, e.cur))
  {
    hide PhuffEncoder.Valid, TokenSink.Valid, PhuffEncoder.Standing, Whole, AllCoded, BitWriter.Valid, TokenSegment, Padded, Unpack, GoodMcus,
         AreBytes, Join, Sent, Progress.Valid;
    out, done := [], [];
    EncoderParts(e);
    ok := e.FlushRun();
    if !ok { return; }
    var k, w := e.sink, e.sink.w;
    OutputSide(k);
    ghost var bits := w.bits;
    w.FlushBits();
    ClosesSegment(k.ets, w.bytes, bits, k.toks);
    done := w.done + [(w.bytes, m)];
    SegmentsClosed(e.p, k.ets, w.done, k.segs, e.segs, w.bytes, m);
    w.EmitMarker(m);
    WriterOut(w);
    out := w.out;
  }

  lemma OutputSide(k: TokenSink)
    requires k.Valid() && !k.gather
    ensures k.w.Valid() && Sent([], k.w.bits, k.ets, k.toks) && TokenSegments(k.ets, k.w.done, k.segs)
  {
    hide BitWriter.Valid, Sent, TokenSegment;
  }

  lemma SegmentsClosed(p: Progress, ets: seq<EncTable>, done: seq<(seq<nat>, nat)>, toks: seq<seq<Token>>, segs: seq<seq<Mcu>>,
                       bytes: seq<nat>, m: nat)
    requires p.Valid() && WholeSegs(p, toks, segs) && TokenSegments(ets, done, toks) && AreBytes(bytes) && IsMarker(m)
    ensures Framed(done + [(bytes, m)], m) && |done| == |segs|
    ensures forall j :: 0 <= j < |segs| ==> GoodMcus(p.plan, segs[j]) && TokenSegment(ets, done[j].0, Whole(p, segs[j]))
  {
    hide Whole, AreBytes, Padded, TokenBits, Unpack, AllCoded, GoodMcus, RstMarker;
    SameCount(p, toks, segs);
    forall j | 0 <= j < |segs|
      ensures GoodMcus(p.plan, segs[j]) && TokenSegment(ets, done[j].0, Whole(p, segs[j])) && AreBytes(done[j].0)
    {
      assert TokenSegment(ets, done[j].0, toks[j]);
    }
  }

  /** The statistics pass; a DC refinement scan needs none. */
  method GatherTables(p: Progress, mcus: seq<Mcu>, tables: seq<HuffTable>) returns (r: Result<seq<HuffTable>>)
    requires p.Valid() && p.plan.Covered() && GoodMcus(p.plan, mcus) && mcus != []
    requires |tables| == 2 * NUM_HUFF_TBLS && forall h <- tables :: h.WellTyped()
    requires forall t: nat :: ProgSelected(p, t) ==> CountsFit(ScanTokenList(p, mcus), t)
    ensures r.Err? ==> r.error == BadDctCoef || r.error == HuffClenOverflow
    ensures r == Err(BadDctCoef) <==> !ProgScanInRange(p, mcus)
    ensures r == Err(HuffClenOverflow) ==> exists t: nat :: ProgSelected(p, t) && Overflows(ScanTokenList(p, mcus), t)
    ensures r.Ok? ==> ProgTablesFor(p, r.value, ScanTokenList(p, mcus))
  {
    hide *;
    ValidPlan(p);
    if p.ss == 0 && p.ah != 0 {
      NoneNeeded(p, tables, ScanTokenList(p, mcus));
      RefineInRange(p, mcus);
      return Ok(tables);
    }
    var ets := NoEncTables();
    var st, e := CodeScan(p, true, ets, mcus);
    if st.Failure? { return Err(st.error); }
    r := FinishGatherProg(e, tables, mcus);
  }

  method NoEncTables() returns (ets: seq<EncTable>)
    ensures |ets| == 2 * NUM_HUFF_TBLS && AllWellFormed(ets)
  {
    ets := seq(2 * NUM_HUFF_TBLS, t => NoEncTable());
  }

  lemma RefineInRange(p: Progress, mcus: seq<Mcu>)
    requires p.Valid() && GoodMcus(p.plan, mcus) && p.ah != 0
    ensures ProgScanInRange(p, mcus)
  {
    hide DcPredsAll, Split, Intervals, GoodMcu;
    SplitMembers(p.plan, mcus, p.plan.restartInterval);
  }

  /** All segments of the stream. */
  lemma CarriesAll(p: Progress, ets: seq<EncTable>, done: seq<(seq<nat>, nat)>, segs: seq<seq<Mcu>>, cur: seq<Mcu>, mcus: seq<Mcu>)
    requires p.Valid() && GoodMcus(p.plan, mcus) && ProgScanInRange(p, mcus) && (segs, cur) == Split(mcus, p.plan.restartInterval)
    requires |done| == |segs| + 1 && GoodMcus(p.plan, cur) && TokenSegment(ets, done[|segs|].0, Whole(p, cur))
    requires forall j :: 0 <= j < |segs| ==> GoodMcus(p.plan, segs[j]) && TokenSegment(ets, done[j].0, Whole(p, segs[j]))
    ensures Carries(p, ets, done, AllSegs(mcus, p.plan.restartInterval))
  {
    hide TokenSegment, Whole, IntervalInRange, Split, Intervals, GoodMcus;
    SplitMembers(p.plan, mcus, p.plan.restartInterval);
    var all := AllSegs(mcus, p.plan.restartInterval);
    forall j | 0 <= j < |all| ensures CarriesAt(p, ets, done[j].0, all[j]) {
      assert IntervalInRange(p, all[j]);
    }
  }

  /** Decoding a refinement scan with its table gives no occasion to warn of a bad code. */
  ghost predicate CleanlyRead(p: Progress, hs: seq<HuffTable>) {
    p.Valid() && p.ss > 0 && p.ah != 0 ==> p.AcT() < |hs| && UnitSizes(hs[p.AcT()])
  }

  lemma TablesReadCleanly(p: Progress, mcus: seq<Mcu>, hs: seq<HuffTable>)
    requires p.Valid() && GoodMcus(p.plan, mcus) && ProgTablesFor(p, hs, ScanTokenList(p, mcus))
    ensures CleanlyRead(p, hs)
  {
    hide TableFor, UnitSizes, GoodMcus, ScanTokenList, ProgSelected;
    if p.ss > 0 && p.ah != 0 {
      TableOfAc(p);
      RefinementReadsUnits(p, mcus, hs);
    }
  }

  /** Makes the tables of a scan and codes it; the stream is followed by the marker `m`. */
  method CompressProg(p: Progress, mcus: seq<Mcu>, tables: seq<HuffTable>, m: nat)
    returns (r: Result<(seq<HuffTable>, seq<nat>)>, ghost x: ProgSource)
    requires p.Valid() && p.plan.Covered() && GoodMcus(p.plan, mcus) && mcus != [] && IsMarker(m)
    requires forall mcu <- mcus :: ShortMcu(mcu)
    requires |tables| == 2 * NUM_HUFF_TBLS && forall h <- tables :: h.WellTyped()
    requires forall t: nat :: ProgSelected(p, t) ==> CountsFit(ScanTokenList(p, mcus), t)
    ensures r.Err? ==> r.error == BadDctCoef || r.error == HuffClenOverflow
    ensures r == Err(BadDctCoef) <==> !ProgScanInRange(p, mcus)
    ensures r == Err(HuffClenOverflow) ==> exists t: nat :: ProgSelected(p, t) && Overflows(ScanTokenList(p, mcus), t)
    ensures r.Ok? ==> x.Valid() && x.p == p && x.mcus == mcus && x.hs == r.value.0 && x.m == m && x.rest == []
                      && ProgUsable(p, r.value.0) && r.value.1 == Join(x.done)
    ensures r.Ok? ==> CleanlyRead(p, r.value.0)
  {
    hide *;
    x := ProgSource(p, [], [], mcus, [], m, []);
    ValidPlan(p);
    var g := GatherTables(p, mcus, tables);
    if g.Err? { return Err(g.error), x; }
    var hs := g.value;
    TablesServe(p, hs, ScanTokenList(p, mcus));
    var ets := StartProgEncoder(p, hs);
    ScanTokensGood(p, mcus);
    ProgTokensCoded(p, hs, ets, ScanTokenList(p, mcus), mcus != []);
    AgreeFrom(p, hs, ets);
    TablesReadCleanly(p, mcus, hs);
    var st, e := CodeScan(p, false, ets, mcus);
    if st.Failure? { assert false; }
    LastCoded(ets, p, mcus, e.segs, e.cur);
    var ok, out;
    ghost var done;
    ok, out, done := FinishOutput(e, m);
    if !ok { assert false; }
    CarriesAll(p, ets, done, e.segs, e.cur, mcus);
    x := ProgSource(p, hs, ets, mcus, done, m, []);
    SourceMade(x);
    r := Ok((hs, out));
  }

  lemma ValidPlan(p: Progress)
    requires p.Valid()
    ensures p.plan.Valid()
  {
  }

  lemma SourceMade(x: ProgSource)
    requires ProgAgree(x.p, x.hs, x.ets) && x.p.Valid() && GoodMcus(x.p.plan, x.mcus) && Framed(x.done, x.m)
    requires (forall mcu <- x.mcus :: ShortMcu(mcu)) && Carries(x.p, x.ets, x.done, AllSegs(x.mcus, x.p.plan.restartInterval))
    ensures x.Valid()
  {
  }

  lemma LastCoded(ets: seq<EncTable>, p: Progress, mcus: seq<Mcu>, segs: seq<seq<Mcu>>, cur: seq<Mcu>)
    requires p.Valid() && GoodMcus(p.plan, mcus) && (segs, cur) == Split(mcus, p.plan.restartInterval)
    requires AllCoded(ets, ScanTokenList(p, mcus))
    ensures GoodMcus(p.plan, cur) && AllCoded(ets, Whole(p, cur))
  {
    hide AllCoded, Whole, Split, Intervals, GoodMcus, AllWhole;
    SplitMembers(p.plan, mcus, p.plan.restartInterval);
    WholeCoded(ets, p, AllSegs(mcus, p.plan.restartInterval), |segs|);
  }

  // ----- The theorem -----

  datatype Delivery = Arrived | Rejected(error: Error) | Starved

  lemma FirstStart(dec: PhuffDecoder, x: ProgSource)
    requires x.Valid() && x.mcus != []
    requires dec.Valid() && !dec.AtRestart() && For(dec, x)
    requires dec.src.seg == Scan(dec.src.file, 0) && dec.src.data == Unpack(dec.src.seg.data)
    requires dec.Next() == ProgStart(dec.src.data, 0, 0, NoDc(), false)
    requires dec.restartsToGo == x.p.plan.restartInterval && dec.nextRestartNum == 0
    ensures BeforeNth(dec, x, 0)
  {
    hide ProgSource.Valid, PhuffDecoder.Valid, PhuffDecoder.Next, ProgSource.StartAt, ProgSource.All, Scan, Unpack, GoodMcu, ShortMcu,
         Join, Where, Framed;
    SourceFacts(x);
    WhereFirst(x.mcus, x.p.plan.restartInterval);
    McuAtWhere(x, 0);
    SegScanned(x.done, x.m, x.rest, 0);
    IntervalStarts(x, 0);
  }

  ghost function WithRest(x: ProgSource, rest: seq<nat>): (y: ProgSource)
    requires x.Valid()
    ensures y.Valid() && y == x.(rest := rest)
  {
    x.(rest := rest)
  }

  /**
   Decodes a progressive scan from its parameters, its tables and its bytes alone, of which `first` are there at the beginning and
   the others come in pieces of the given sizes.  Every block of the store becomes what the scan, which was made from `x.mcus`, makes
   known of it, unless the pieces end before the file does.
   */
  method RestoreProgScan(p: Progress, hs: seq<HuffTable>, file: seq<nat>, store: seq<seq<array<int>>>, first: nat, grants: seq<nat>,
                         ghost x: ProgSource)
    returns (ok: bool)
    requires x.Valid() && x.p == p && x.hs == hs && x.mcus != [] && file == x.File() && AreBytes(x.rest) && ProgUsable(p, hs)
    requires Separated(store) && AllReady(p, x.mcus, Stored(store))
    modifies ArraysOf(store)
    ensures ok ==> Stored(store) == KnownAll(p, x.mcus, old(Stored(store)))
    ensures !ok ==> first + Total(grants) < |file|
  {
    hide Progress.Valid, GoodMcus, IsMarker, AreBytes, ShortMcu, Separated, AllReady, Stored, KnownAll, ProgSource.Valid, ProgSource.File,
         Join, ProgUsable, ProgReady, Derived, Scan, Unpack, BeforeNth, PhuffDecoder.Valid, PhuffDecoder.Next, For, Framed, ProgReadable;
    SourceFacts(x);
    FileBytes(x.done, x.m, x.rest);
    FileIs(x);
    var ds := StartProgDecoder(p, hs);
    ReadyFrom(p, hs, ds);
    var src := new BitSource(file, if first <= |file| then first else |file|, 0);
    var dec := new PhuffDecoder(p, hs, ds, src, 0);
    ForThis(dec, x);
    FirstStart(dec, x);
    ok := ReadProgScan(dec, store, grants, x);
  }

  /** The stream that was made of a scan: the segments of `x`, then the marker, then `rest`; its tables are read cleanly. */
  ghost predicate MadeFrom(x: ProgSource, p: Progress, mcus: seq<Mcu>, m: nat, out: seq<nat>, rest: seq<nat>) {
    x.Valid() && x.p == p && x.mcus == mcus && x.m == m && x.File() == out + rest && CleanlyRead(p, x.hs)
  }

  /**
   A progressive scan from end to end, whatever its mode and restart interval and however its bytes arrive: every
   coefficient that it covers goes from what was known before to the precision of the scan, and nothing else changes.
   The stream `out` may be followed by anything (`rest`).  The scan is refused exactly if a coefficient is out of range, or for a code
   length overflow; otherwise, once all bytes have been delivered, it arrives.
   */
  method ProgScanRoundTrip(p: Progress, mcus: seq<Mcu>, store: seq<seq<array<int>>>, tables: seq<HuffTable>, m: nat,
                           rest: seq<nat>, first: nat, grants: seq<nat>)
    returns (o: Delivery, out: seq<nat>, ghost x: ProgSource)
    requires p.Valid() && p.plan.Covered() && GoodMcus(p.plan, mcus) && mcus != [] && IsMarker(m) && AreBytes(rest)
    requires (forall mcu <- mcus :: ShortMcu(mcu)) && Separated(store) && AllReady(p, mcus, Stored(store))
    requires |tables| == 2 * NUM_HUFF_TBLS && forall h <- tables :: h.WellTyped()
    requires forall t: nat :: ProgSelected(p, t) ==> CountsFit(ScanTokenList(p, mcus), t)
    modifies ArraysOf(store)
    ensures !o.Rejected? ==> MadeFrom(x, p, mcus, m, out, rest)
    ensures o.Arrived? ==> Stored(store) == KnownAll(p, mcus, old(Stored(store)))
    ensures !o.Rejected? && first + Total(grants) >= |out| + |rest| ==> o.Arrived?
    ensures o == Rejected(BadDctCoef) <==> !ProgScanInRange(p, mcus)
    ensures o.Rejected? && o.error != BadDctCoef ==>
              o.error == HuffClenOverflow && exists t: nat :: ProgSelected(p, t) && Overflows(ScanTokenList(p, mcus), t)
    ensures o.Rejected? ==> Stored(store) == old(Stored(store))
  {
    hide Progress.Valid, GoodMcus, IsMarker, AreBytes, ShortMcu, Separated, AllReady, Stored, ProgSelected, CountsFit, ScanTokenList, KnownAll,
         ProgScanInRange, Overflows, ProgSource.Valid, ProgSource.File, Join, ProgUsable;
    var c;
    c, x := CompressProg(p, mcus, tables, m);
    if c.Err? { return Rejected(c.error), [], x; }
    var hs: seq<HuffTable> := c.value.0;
    out := c.value.1;
    FileIs(x);
    x := WithRest(x, rest);
    FileIs(x);
    var ok := RestoreProgScan(p, hs, out + rest, store, first, grants, x);
    if !ok { return Starved, out, x; }
    return Arrived, out, x;
  }

  lemma FileIs(x: ProgSource)
    ensures x.File() == Join(x.done) + x.rest
  {
  }

  lemma ForThis(dec: PhuffDecoder, x: ProgSource)
    requires dec.p == x.p && dec.hs == x.hs && dec.src.file == x.File()
    ensures For(dec, x)
  {
  }
}
