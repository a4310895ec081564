/** The passes of a progressive scan: statistics, tables, output. */
module ProgPasses {
  import opened AcRefine
  import opened BitOutput
  import opened Bits
  import opened Coefficients
  import opened EobRuns
  import opened HuffTables
  import opened ProgEncoder
  import opened ProgScan
  import opened ProgTokens
  import opened RunLength
  import opened Scans
  import opened Segments
  import opened SeqEncoder
  import opened SeqGather
  import opened SeqScanEncoder
  import opened Statistics
  import opened TokenOutput
  import opened Tokens
  import opened TwoPass
  import Seqs

  // ----- The tokens of a scan -----

  /** The tokens of complete restart intervals. */
  function AllWhole(p: Progress, segs: seq<seq<Mcu>>): (toks: seq<Token>)
    requires p.Valid() && forall seg <- segs :: GoodMcus(p.plan, seg)
  {
    if segs == [] then [] else AllWhole(p, segs[..|segs| - 1]) + Whole(p, segs[|segs| - 1])
  }

  /** All tokens of a scan. */
  function ScanTokenList(p: Progress, mcus: seq<Mcu>): (toks: seq<Token>)
    requires p.Valid() && GoodMcus(p.plan, mcus)
  {
    SplitMembers(p.plan, mcus, p.plan.restartInterval);
    AllWhole(p, AllSegs(mcus, p.plan.restartInterval))
  }

  ghost predicate ProgScanInRange(p: Progress, mcus: seq<Mcu>)
    requires p.Valid() && GoodMcus(p.plan, mcus)
  {
    SplitMembers(p.plan, mcus, p.plan.restartInterval);
    forall j :: 0 <= j < |AllSegs(mcus, p.plan.restartInterval)| ==>
      IntervalInRange(p, AllSegs(mcus, p.plan.restartInterval)[j])
  }

  lemma {:induction false} WholeAgrees(p: Progress, toks: seq<seq<Token>>, segs: seq<seq<Mcu>>)
    requires p.Valid() && WholeSegs(p, toks, segs)
    ensures (forall seg <- segs :: GoodMcus(p.plan, seg)) && AllOf(toks) == AllWhole(p, segs)
  {
    hide Whole, GoodMcus;
    if segs != [] { WholeAgrees(p, toks[..|toks| - 1], segs[..|segs| - 1]); }
  }

  lemma WholeAppends(p: Progress, segs: seq<seq<Mcu>>, cur: seq<Mcu>)
    requires p.Valid() && (forall seg <- segs :: GoodMcus(p.plan, seg)) && GoodMcus(p.plan, cur)
    ensures forall seg <- segs + [cur] :: GoodMcus(p.plan, seg)
    ensures AllWhole(p, segs + [cur]) == AllWhole(p, segs) + Whole(p, cur)
  {
    hide Whole, GoodMcus;
    Seqs.SnocInit(segs, cur);
  }

  /** What has been emitted for the first MCUs of an interval stays emitted. */
  lemma {:induction false} SoFarGrows(p: Progress, mcus: seq<Mcu>, i: nat)
    requires p.Valid() && GoodMcus(p.plan, mcus) && i <= |mcus| && GoodMcus(p.plan, mcus[..i])
    ensures SoFar(p, mcus[..i]) <= SoFar(p, mcus)
  {
    hide *;
    if i == |mcus| {
      Seqs.TakeAll(mcus);
    } else {
      var n := |mcus| - 1;
      GoodPrefix(p.plan, mcus, n);
      Seqs.TakeOfTake(mcus, i, n);
      SoFarGrows(p, mcus[..n], i);
      Seqs.InitLast(mcus);
      SoFarSnoc(p, mcus[..n], mcus[n]);
      Seqs.PrefixTrans(SoFar(p, mcus[..i]), SoFar(p, mcus[..n]), SoFar(p, mcus));
    }
  }

  lemma SoFarSnoc(p: Progress, mcus: seq<Mcu>, mcu: Mcu)
    requires p.Valid() && GoodMcus(p.plan, mcus) && GoodMcu(p.plan, mcu)
    ensures GoodMcus(p.plan, mcus + [mcu]) && SoFar(p, mcus) <= SoFar(p, mcus + [mcu])
  {
    hide AbsorbAll, Emitted, Codings, Coding, DcTokensAll, DcPredsAll, DcMcuTokens, Absorb, Zigzag, BandCoding.Good;
    if p.ss == 0 {
      DcSnoc(p, mcus, mcu);
    } else {
      CodingsSnoc(p, mcus, mcu);
      CodingGood(p, Zigzag(mcu[0]));
      AbsorbSnoc(Codings(p, mcus), Coding(p, Zigzag(mcu[0])));
      AbsorbExtends(p.AcT(), AbsorbAll(Codings(p, mcus)), Coding(p, Zigzag(mcu[0])));
    }
  }

  lemma SoFarInWhole(p: Progress, mcus: seq<Mcu>)
    requires p.Valid() && GoodMcus(p.plan, mcus)
    ensures SoFar(p, mcus) <= Whole(p, mcus)
  {
    hide AbsorbAll, Emitted, Codings, DcTokensAll, Flush;
    if p.ss > 0 { EmittedPrefix(p.AcT(), AbsorbAll(Codings(p, mcus))); }
  }

  lemma {:induction false} WholeCoded(ets: seq<EncTable>, p: Progress, segs: seq<seq<Mcu>>, j: nat)
    requires p.Valid() && (forall seg <- segs :: GoodMcus(p.plan, seg)) && j < |segs| && AllCoded(ets, AllWhole(p, segs))
    ensures GoodMcus(p.plan, segs[j]) && AllCoded(ets, Whole(p, segs[j]))
  {
    hide Whole, GoodMcus, AllCoded;
    var n := |segs| - 1;
    BothCoded(ets, AllWhole(p, segs[..n]), Whole(p, segs[n]));
    assert segs[j] in segs;
    if j < n { WholeCoded(ets, p, segs[..n], j); }
  }

  /** If all tokens of the scan have codes, so have those emitted for a part of it. */
  lemma PartCoded(ets: seq<EncTable>, p: Progress, mcus: seq<Mcu>, i: nat)
    requires p.Valid() && GoodMcus(p.plan, mcus) && i <= |mcus| && AllCoded(ets, ScanTokenList(p, mcus))
    ensures var (segs, cur) := Split(mcus[..i], p.plan.restartInterval);
            && GoodMcus(p.plan, cur) && AllCoded(ets, SoFar(p, cur))
            && (forall j :: 0 <= j < |segs| ==> GoodMcus(p.plan, segs[j]) && AllCoded(ets, Whole(p, segs[j])))
  {
    hide Whole, SoFar, AllCoded, GoodMcu, Split, Intervals;
    var ri := p.plan.restartInterval;
    SplitPrefix(mcus, ri, i);
    SplitMembers(p.plan, mcus, ri);
    var all := AllSegs(mcus, ri);
    var (segs, cur) := Split(mcus[..i], ri);
    var last := all[|segs|];
    WholeCoded(ets, p, all, |segs|);
    assert cur == last[..|cur|];
    GoodPrefix(p.plan, last, |cur|);
    SoFarGrows(p, last, |cur|);
    SoFarInWhole(p, last);
    Seqs.PrefixTrans(SoFar(p, cur), SoFar(p, last), Whole(p, last));
    EarlierCoded(ets, SoFar(p, cur), Whole(p, last));
    forall j | 0 <= j < |segs| ensures GoodMcus(p.plan, segs[j]) && AllCoded(ets, Whole(p, segs[j])) {
      WholeCoded(ets, p, all, j);
    }
  }

  // ----- Ranges -----

  lemma IntervalGrows(p: Progress, mcus: seq<Mcu>, mcu: Mcu)
    requires p.Valid() && GoodMcus(p.plan, mcus) && GoodMcu(p.plan, mcu) && IntervalInRange(p, mcus)
    requires ProgInRange(p, mcu, |mcu|, DcPredsAll(p, mcus))
    ensures GoodMcus(p.plan, mcus + [mcu]) && IntervalInRange(p, mcus + [mcu])
  {
    hide ProgInRange, GoodMcu, DcPredsAll;
    var more := mcus + [mcu];
    forall i | 0 <= i < |more| ensures IntervalInRangeAt(p, more, i) {
      assert more[i] in more;
      if i < |mcus| {
        assert IntervalInRangeAt(p, mcus, i);
        assert more[..i] == mcus[..i];
      } else {
        assert more[..i] == mcus;
      }
    }
  }

  lemma OutOfRange(p: Progress, mcus: seq<Mcu>, i: nat)
    requires p.Valid() && GoodMcus(p.plan, mcus) && i < |mcus|
    requires var (segs, cur) := Split(mcus[..i], p.plan.restartInterval);
             var cur0 := if p.plan.restartInterval > 0 && |cur| == p.plan.restartInterval then [] else cur;
             GoodMcu(p.plan, mcus[i]) && GoodMcus(p.plan, cur0) && !ProgInRange(p, mcus[i], |mcus[i]|, DcPredsAll(p, cur0))
    ensures !ProgScanInRange(p, mcus)
  {
    hide ProgInRange, GoodMcu, DcPredsAll, Split, Intervals;
    var ri := p.plan.restartInterval;
    SplitNext(mcus, ri, i);
    SplitPrefix(mcus, ri, i + 1);
    SplitMembers(p.plan, mcus, ri);
    var all := AllSegs(mcus, ri);
    var (segs', cur') := Split(mcus[..i + 1], ri);
    var seg, k := all[|segs'|], |cur'| - 1;
    assert seg in all;
    assert seg[k] == mcus[i] && seg[..k] == cur'[..k];
    assert !IntervalInRangeAt(p, seg, k);
  }

  // ----- Coding a scan -----

  /** Every restart interval so far is in range. */
  ghost predicate InRangeSoFar(p: Progress, segs: seq<seq<Mcu>>, cur: seq<Mcu>)
    requires p.Valid()
  {
    && GoodMcus(p.plan, cur) && IntervalInRange(p, cur)
    && forall j :: 0 <= j < |segs| ==> GoodMcus(p.plan, segs[j]) && IntervalInRange(p, segs[j])
  }

  lemma InRangeNext(p: Progress, segs: seq<seq<Mcu>>, cur: seq<Mcu>, mcu: Mcu, restart: bool)
    requires p.Valid() && InRangeSoFar(p, segs, cur) && GoodMcu(p.plan, mcu)
    requires var cur0 := if restart then [] else cur;
             GoodMcus(p.plan, cur0) && ProgInRange(p, mcu, |mcu|, DcPredsAll(p, cur0))
    ensures InRangeSoFar(p, if restart then segs + [cur] else segs, (if restart then [] else cur) + [mcu])
  {
    hide ProgInRange, GoodMcu, DcPredsAll;
    IntervalGrows(p, if restart then [] else cur, mcu);
  }

  /** Codes all MCUs of a scan with a new encoder, in either form. */
  method CodeScan(p: Progress, gather: bool, ets: seq<EncTable>, mcus: seq<Mcu>) returns (st: Status, e: PhuffEncoder)
    requires p.Valid() && |ets| == 2 * NUM_HUFF_TBLS && AllWellFormed(ets) && GoodMcus(p.plan, mcus)
    ensures fresh(e) && fresh(e.sink) && fresh(e.sink.w) && fresh(e.sink.counts) && fresh(e.bitBuffer)
    ensures e.p == p && e.sink.gather == gather && e.sink.ets == ets
    ensures st.Success? ==> e.Valid() && (e.segs, e.cur) == Split(mcus, p.plan.restartInterval) && ProgScanInRange(p, mcus)
    ensures st.Failure? ==> st == Failure(BadDctCoef) || st == Failure(HuffMissingCode)
    ensures st == Failure(BadDctCoef) ==> !ProgScanInRange(p, mcus)
    ensures st == Failure(HuffMissingCode) ==> !gather && !AllCoded(ets, ScanTokenList(p, mcus))
  {
    hide PhuffEncoder.Valid, ProgInRange, InRangeSoFar, GoodMcu, Split, Intervals, AllCoded, SoFar, Whole, DcPredsAll,
         AllWellFormed, Progress.Valid;
    e := new PhuffEncoder(p, gather, ets);
    ghost var ri := p.plan.restartInterval;
    var i := 0;
    assert mcus[..0] == [];
    SplitNothing(ri);
    NothingOutOfRange(p);
    while i < |mcus|
      invariant 0 <= i <= |mcus| && e.Valid() && e.p == p && e.sink.gather == gather && e.sink.ets == ets
      invariant fresh(e) && fresh(e.sink) && fresh(e.sink.w) && fresh(e.sink.counts) && fresh(e.bitBuffer)
      invariant (e.segs, e.cur) == Split(mcus[..i], ri) && InRangeSoFar(p, e.segs, e.cur)
    {
      ghost var segs, cur := e.segs, e.cur;
      ghost var restart := ri > 0 && |cur| == ri;
      GoodPrefix(p.plan, mcus, i);
      SplitNext(mcus, ri, i);
      assert [] + [mcus[i]] == [mcus[i]];
      st := e.EncodeMcu(mcus[i]);
      if st.Failure? {
        if st.error == BadDctCoef { OutOfRange(p, mcus, i); } else { MissingCode(ets, p, mcus, i); }
        return;
      }
      InRangeNext(p, segs, cur, mcus[i], restart);
      i := i + 1;
    }
    assert mcus[..|mcus|] == mcus;
    AllInRangeNow(p, mcus, e.segs, e.cur);
    st := Success;
  }

  lemma NothingOutOfRange(p: Progress)
    requires p.Valid()
    ensures InRangeSoFar(p, [], [])
  {
  }

  lemma AllInRangeNow(p: Progress, mcus: seq<Mcu>, segs: seq<seq<Mcu>>, cur: seq<Mcu>)
    requires p.Valid() && GoodMcus(p.plan, mcus) && (segs, cur) == Split(mcus, p.plan.restartInterval)
    requires InRangeSoFar(p, segs, cur)
    ensures ProgScanInRange(p, mcus)
  {
    hide IntervalInRange, Intervals, Split;
  }

  lemma PresentCode(ets: seq<EncTable>, p: Progress, mcus: seq<Mcu>, i: nat)
    requires p.Valid() && GoodMcus(p.plan, mcus) && i < |mcus| && AllCoded(ets, ScanTokenList(p, mcus))
    ensures var (segs, cur) := Split(mcus[..i], p.plan.restartInterval);
            var restart := p.plan.restartInterval > 0 && |cur| == p.plan.restartInterval;
            var cur0 := if restart then [] else cur;
            && GoodMcus(p.plan, cur0 + [mcus[i]]) && AllCoded(ets, SoFar(p, cur0 + [mcus[i]]))
            && (restart ==> GoodMcus(p.plan, cur) && AllCoded(ets, Whole(p, cur)))
  {
    hide AllCoded, SoFar, Whole, Split, Intervals, GoodMcu, ScanTokenList;
    assert [] + [mcus[i]] == [mcus[i]];
    SplitNext(mcus, p.plan.restartInterval, i);
    PartCoded(ets, p, mcus, i + 1);
    var (segs, cur) := Split(mcus[..i], p.plan.restartInterval);
    assert (segs + [cur])[|segs|] == cur;
  }

  lemma MissingCode(ets: seq<EncTable>, p: Progress, mcus: seq<Mcu>, i: nat)
    requires p.Valid() && GoodMcus(p.plan, mcus) && i < |mcus|
    requires var (segs, cur) := Split(mcus[..i], p.plan.restartInterval);
             var restart := p.plan.restartInterval > 0 && |cur| == p.plan.restartInterval;
             var cur0 := if restart then [] else cur;
             && GoodMcus(p.plan, cur) && GoodMcus(p.plan, cur0 + [mcus[i]])
             && (!AllCoded(ets, SoFar(p, cur0 + [mcus[i]])) || (restart && !AllCoded(ets, Whole(p, cur))))
    ensures !AllCoded(ets, ScanTokenList(p, mcus))
  {
    hide AllCoded, SoFar, Whole, Split, Intervals, GoodMcus, ScanTokenList;
    if AllCoded(ets, ScanTokenList(p, mcus)) { PresentCode(ets, p, mcus, i); }
  }

  // ----- DC tokens -----

  lemma DcBlockGood(p: Progress, mcu: Mcu, b: nat, lastDc: seq<int>)
    requires p.plan.Valid() && GoodMcu(p.plan, mcu) && b < |mcu| && |lastDc| == MAX_COMPS_IN_SCAN
    requires p.ah == 0 ==> DcInRange(DcDiff(p, mcu, b, lastDc))
    ensures var toks, t := DcBlockTokens(p, mcu, b, lastDc), p.plan.CompOf(b).DcT();
            AllCodable(toks) && OfTable(toks, t) && (p.ah == 0 ==> UsesTable(toks, t))
  {
    hide NumBits, ValueBits, DcDiff, DcValue;
    var toks, t := DcBlockTokens(p, mcu, b, lastDc), p.plan.CompOf(b).DcT();
    assert p.plan.CompOf(b).Valid();
    if p.ah == 0 { assert toks[0] in toks && toks[0] == Sym(t, toks[0].s); }
  }

  /** Symbols of the DC tables of the first `n` blocks only, and every such table used. */
  ghost predicate DcGood(p: Progress, toks: seq<Token>, n: nat)
    requires p.plan.Valid() && n <= |p.plan.membership|
  {
    && AllCodable(toks) && SymsOf(p, toks)
    && (p.ah == 0 ==> forall b :: 0 <= b < n ==> UsesDc(p, toks, b))
  }

  /** Symbols belong to tables that the scan selects. */
  ghost predicate SymsOf(p: Progress, toks: seq<Token>)
    requires p.plan.Valid()
  {
    forall tok <- toks :: tok.Sym? ==> ProgSelected(p, tok.t)
  }

  ghost predicate UsesDc(p: Progress, toks: seq<Token>, b: nat)
    requires p.plan.Valid() && b < |p.plan.membership|
  {
    UsesTable(toks, p.plan.CompOf(b).DcT())
  }

  /** The tables that a progressive scan needs: DC or AC tables of its components, none when refining DC values. */
  ghost predicate ProgSelected(p: Progress, t: nat)
    requires p.plan.Valid()
  {
    ProgSelectedUpTo(p, t, |p.plan.comps|)
  }

  function TableOf(p: Progress, ci: nat): (t: nat)
    requires p.plan.Valid() && ci < |p.plan.comps|
    ensures t < 2 * NUM_HUFF_TBLS
  {
    assert p.plan.comps[ci] in p.plan.comps;
    if p.ss == 0 then p.plan.comps[ci].DcT() else p.plan.comps[ci].AcT()
  }

  ghost predicate ProgSelectedUpTo(p: Progress, t: nat, n: nat)
    requires p.plan.Valid() && n <= |p.plan.comps|
  {
    exists ci :: 0 <= ci < n && ProgSelectedBy(p, t, ci)
  }

  predicate ProgSelectedBy(p: Progress, t: nat, ci: nat)
    requires p.plan.Valid() && ci < |p.plan.comps|
  {
    TableOf(p, ci) == t && !(p.ss == 0 && p.ah != 0)
  }

  lemma ProgSelectedMore(p: Progress, n: nat)
    requires p.plan.Valid() && n < |p.plan.comps|
    ensures forall t: nat :: ProgSelectedUpTo(p, t, n + 1) <==> ProgSelectedUpTo(p, t, n) || ProgSelectedBy(p, t, n)
    ensures !(p.ss == 0 && p.ah != 0) ==> ProgSelected(p, TableOf(p, n))
  {
    hide TableOf;
    forall t: nat | ProgSelectedUpTo(p, t, n) ensures ProgSelectedUpTo(p, t, n + 1) {
      var ci :| 0 <= ci < n && ProgSelectedBy(p, t, ci);
      assert ci < n + 1 && ProgSelectedBy(p, t, ci);
    }
    forall t: nat | ProgSelectedBy(p, t, n) ensures ProgSelectedUpTo(p, t, n + 1) {
      assert n < n + 1 && ProgSelectedBy(p, t, n);
    }
    if !(p.ss == 0 && p.ah != 0) { assert ProgSelectedBy(p, TableOf(p, n), n); }
  }

  lemma NothingSelectedYet(p: Progress)
    requires p.plan.Valid()
    ensures forall t: nat :: !ProgSelectedUpTo(p, t, 0)
  {
  }

  lemma {:induction false} DcMcuGood(p: Progress, mcu: Mcu, n: nat, lastDc: seq<int>)
    requires p.Valid() && p.ss == 0 && GoodMcu(p.plan, mcu) && n <= |mcu| && |lastDc| == MAX_COMPS_IN_SCAN
    requires ProgInRange(p, mcu, n, lastDc)
    ensures DcGood(p, DcMcuTokens(p, mcu, n, lastDc), n)
    decreases n
  {
    hide DcBlockTokens, DcDiff, DcInRange, Codable, UsesTable, ProgSelected;
    if n > 0 {
      var a, c := DcMcuTokens(p, mcu, n - 1, lastDc), DcBlockTokens(p, mcu, n - 1, lastDc);
      DcMcuGood(p, mcu, n - 1, lastDc);
      DcBlockGood(p, mcu, n - 1, lastDc);
      ProgSelectedMore(p, p.plan.Ci(n - 1));
      RefineHasNoSymbols(p, mcu, n - 1, lastDc);
      forall b | 0 <= b < n && p.ah == 0 ensures UsesDc(p, a + c, b) {
        if b < n - 1 { assert UsesDc(p, a, b); }
        UsesMore(a, c, p.plan.CompOf(b).DcT());
      }
    }
  }

  lemma RefineHasNoSymbols(p: Progress, mcu: Mcu, b: nat, lastDc: seq<int>)
    requires p.plan.Valid() && GoodMcu(p.plan, mcu) && b < |mcu| && |lastDc| == MAX_COMPS_IN_SCAN
    ensures p.ah != 0 ==> forall tok <- DcBlockTokens(p, mcu, b, lastDc) :: tok.Raw?
  {
  }

  lemma DcGoodJoin(p: Progress, a: seq<Token>, n: nat, b: seq<Token>)
    requires p.plan.Valid() && DcGood(p, a, 0) && n <= |p.plan.membership| && DcGood(p, b, n)
    ensures DcGood(p, a + b, n)
  {
    hide Codable, UsesTable, ProgSelected;
    forall i | 0 <= i < n && p.ah == 0 ensures UsesDc(p, a + b, i) {
      assert UsesDc(p, b, i);
      UsesMore(a, b, p.plan.CompOf(i).DcT());
    }
  }

  lemma {:induction false} DcWhole(p: Progress, mcus: seq<Mcu>)
    requires p.Valid() && p.ss == 0 && GoodMcus(p.plan, mcus) && IntervalInRange(p, mcus)
    ensures DcGood(p, Whole(p, mcus), if mcus == [] then 0 else |p.plan.membership|)
  {
    hide DcMcuTokens, DcPredsAll, DcGood, ProgInRange;
    if mcus == [] {
      NothingDc(p);
    } else {
      var n := |mcus| - 1;
      GoodPrefix(p.plan, mcus, n);
      assert IntervalInRange(p, mcus[..n]) by {
        forall i | 0 <= i < n ensures IntervalInRangeAt(p, mcus[..n], i) {
          assert IntervalInRangeAt(p, mcus, i);
          assert mcus[..n][..i] == mcus[..i];
        }
      }
      DcWhole(p, mcus[..n]);
      assert IntervalInRangeAt(p, mcus, n);
      DcMcuGood(p, mcus[n], |mcus[n]|, DcPredsAll(p, mcus[..n]));
      DcGoodLess(p, Whole(p, mcus[..n]), if mcus[..n] == [] then 0 else |p.plan.membership|);
      DcGoodJoin(p, Whole(p, mcus[..n]), |p.plan.membership|, DcMcuTokens(p, mcus[n], |mcus[n]|, DcPredsAll(p, mcus[..n])));
    }
  }

  lemma NothingDc(p: Progress)
    requires p.Valid() && p.ss == 0
    ensures Whole(p, []) == [] && DcGood(p, [], 0)
  {
  }

  lemma DcGoodLess(p: Progress, toks: seq<Token>, n: nat)
    requires p.plan.Valid() && n <= |p.plan.membership| && DcGood(p, toks, n)
    ensures DcGood(p, toks, 0)
  {
  }

  // ----- All tokens of a scan -----

  /** The scan needs tables. */
  predicate Coded(p: Progress) { !(p.ss == 0 && p.ah != 0) }

  /** Symbols that `jpeg_gen_optimal_table` can deal with, of the selected tables; every one of them used if `some`. */
  ghost predicate TokensGood(p: Progress, toks: seq<Token>, some: bool)
    requires p.plan.Valid()
  {
    && AllCodable(toks) && SymsOf(p, toks)
    && (some && Coded(p) ==> forall ci :: 0 <= ci < |p.plan.comps| ==> UsesOf(p, toks, ci))
  }

  ghost predicate UsesOf(p: Progress, toks: seq<Token>, ci: nat)
    requires p.plan.Valid() && ci < |p.plan.comps|
  {
    UsesTable(toks, TableOf(p, ci))
  }

  lemma IntervalTokensGood(p: Progress, mcus: seq<Mcu>)
    requires p.Valid() && p.plan.Covered() && GoodMcus(p.plan, mcus) && IntervalInRange(p, mcus)
    ensures TokensGood(p, Whole(p, mcus), mcus != [])
  {
    hide Whole, IntervalInRange, UsesTable, GoodMcu, Codable, ProgSelected;
    var toks := Whole(p, mcus);
    if p.ss == 0 {
      DcWhole(p, mcus);
      forall ci | 0 <= ci < |p.plan.comps| && mcus != [] && Coded(p) ensures UsesOf(p, toks, ci) {
        assert ci in p.plan.membership;
        var b :| 0 <= b < |p.plan.membership| && p.plan.membership[b] == ci;
        assert UsesDc(p, toks, b);
      }
    } else {
      AcWhole(p, mcus);
      ProgSelectedMore(p, 0);
    }
  }

  lemma TokensGoodJoin(p: Progress, a: seq<Token>, someA: bool, b: seq<Token>, someB: bool)
    requires p.plan.Valid() && TokensGood(p, a, someA) && TokensGood(p, b, someB)
    ensures TokensGood(p, a + b, someA || someB)
  {
    hide Codable, UsesTable, ProgSelected, TableOf;
    forall ci | 0 <= ci < |p.plan.comps| && (someA || someB) && Coded(p) ensures UsesOf(p, a + b, ci) {
      assert someA ==> UsesOf(p, a, ci);
      assert someB ==> UsesOf(p, b, ci);
      UsesMore(a, b, TableOf(p, ci));
    }
  }

  lemma {:induction false} AllWholeGood(p: Progress, segs: seq<seq<Mcu>>)
    requires p.Valid() && p.plan.Covered() && forall seg <- segs :: GoodMcus(p.plan, seg)
    requires forall j :: 0 <= j < |segs| ==> IntervalInRange(p, segs[j])
    ensures TokensGood(p, AllWhole(p, segs), segs != [] && segs[|segs| - 1] != [])
  {
    hide Whole, TokensGood, IntervalInRange, GoodMcus;
    if segs == [] {
      NothingGood(p);
    } else {
      var n := |segs| - 1;
      AllWholeGood(p, segs[..n]);
      IntervalTokensGood(p, segs[n]);
      TokensGoodLess(p, AllWhole(p, segs[..n]), segs[..n] != [] && segs[..n][|segs[..n]| - 1] != []);
      TokensGoodJoin(p, AllWhole(p, segs[..n]), false, Whole(p, segs[n]), segs[n] != []);
    }
  }

  lemma NothingGood(p: Progress)
    requires p.Valid()
    ensures TokensGood(p, [], false)
  {
  }

  lemma TokensGoodLess(p: Progress, toks: seq<Token>, some: bool)
    requires p.plan.Valid() && TokensGood(p, toks, some)
    ensures TokensGood(p, toks, false)
  {
  }

  lemma ScanTokensGood(p: Progress, mcus: seq<Mcu>)
    requires p.Valid() && p.plan.Covered() && GoodMcus(p.plan, mcus) && ProgScanInRange(p, mcus)
    ensures TokensGood(p, ScanTokenList(p, mcus), mcus != [])
  {
    hide TokensGood, AllWhole, IntervalInRange, Intervals, GoodMcus;
    SplitMembers(p.plan, mcus, p.plan.restartInterval);
    AllWholeGood(p, AllSegs(mcus, p.plan.restartInterval));
  }

  // ----- Finishing the passes -----

  /** The tables the scan needs have been made for its tokens. */
  ghost predicate ProgTablesFor(p: Progress, hs: seq<HuffTable>, toks: seq<Token>)
    requires p.plan.Valid()
  {
    && |hs| == 2 * NUM_HUFF_TBLS && (forall h <- hs :: h.WellTyped())
    && forall t: nat :: t < |hs| && ProgSelected(p, t) ==> TableFor(hs[t], toks, t)
  }

  /** Tables done so far hold what they should; the counts of the others are untouched. */
  ghost predicate Finishing(p: Progress, counts: seq<seq<nat>>, toks: seq<Token>, hs: seq<HuffTable>, did: seq<bool>, n: nat)
    requires p.plan.Valid() && n <= |p.plan.comps|
  {
    && |counts| == |hs| == |did| == 2 * NUM_HUFF_TBLS
    && (forall t: nat :: t < |did| ==> (did[t] <==> ProgSelectedUpTo(p, t, n)))
    && (forall t :: 0 <= t < |did| ==> hs[t].WellTyped())
    && (forall t :: 0 <= t < |did| ==> if did[t] then TableFor(hs[t], toks, t) else TalliedAt(counts[t], t, toks))
  }

  /** The table of one component, unless it has been generated already. */
  method FinishProgTable(p: Progress, counts: seq<array<nat>>, hs: seq<HuffTable>, did: seq<bool>, ci: nat, ghost toks: seq<Token>)
    returns (r: Result<seq<HuffTable>>)
    requires p.plan.Valid() && ci < |p.plan.comps| && Coded(p) && Separate(counts)
    requires Finishing(p, CountsOf(counts), toks, hs, did, ci)
    requires AllCodable(toks) && UsesTable(toks, TableOf(p, ci)) && CountsFit(toks, TableOf(p, ci))
    modifies counts
    ensures r.Ok? ==> Finishing(p, CountsOf(counts), toks, r.value, did[TableOf(p, ci) := true], ci + 1)
    ensures r.Err? ==> r.error == HuffClenOverflow && Overflows(toks, TableOf(p, ci))
  {
    hide TableFor, TalliedAt, AllCodable, UsesTable, CountsFit, Overflows, TableOf;
    ProgSelectedMore(p, ci);
    var t := TableOf(p, ci);
    if did[t] { return Ok(hs); }
    ghost var before := CountsOf(counts);
    var h := GenTable(counts[t], hs[t], toks, t);
    if h.Err? { return Err(h.error); }
    TableShape(h.value, toks, t);
    forall t' | 0 <= t' < |counts| && t' != t ensures CountsOf(counts)[t'] == before[t'] {}
    r := Ok(hs[t := h.value]);
  }

  lemma TableShape(h: HuffTable, toks: seq<Token>, t: nat)
    requires TableFor(h, toks, t)
    ensures h.WellTyped()
  {
  }

  /** The tables of all components. */
  method FinishTables(p: Progress, counts: seq<array<nat>>, tables: seq<HuffTable>, ghost toks: seq<Token>)
    returns (r: Result<seq<HuffTable>>)
    requires p.plan.Valid() && Coded(p) && Separate(counts) && AllTallied(CountsOf(counts), toks) && TokensGood(p, toks, true)
    requires |tables| == 2 * NUM_HUFF_TBLS && forall h <- tables :: h.WellTyped()
    requires forall t: nat :: ProgSelected(p, t) ==> CountsFit(toks, t)
    modifies counts
    ensures r.Ok? ==> ProgTablesFor(p, r.value, toks)
    ensures r.Err? ==> r.error == HuffClenOverflow && exists t: nat :: ProgSelected(p, t) && Overflows(toks, t)
  {
    hide TableFor, TalliedAt, AllCodable, UsesTable, CountsFit, Overflows, TableOf, SymsOf, ProgSelectedUpTo, AllTallied;
    var hs, did := tables, seq(2 * NUM_HUFF_TBLS, t => false);
    NothingSelectedYet(p);
    FinishStarts(p, CountsOf(counts), toks, hs, did);
    var ci := 0;
    while ci < |p.plan.comps|
      invariant 0 <= ci <= |p.plan.comps| && Separate(counts) && Finishing(p, CountsOf(counts), toks, hs, did, ci)
    {
      assert UsesOf(p, toks, ci);
      ProgSelectedMore(p, ci);
      var next := FinishProgTable(p, counts, hs, did, ci, toks);
      if next.Err? { return Err(next.error); }
      hs, did, ci := next.value, did[TableOf(p, ci) := true], ci + 1;
    }
    return Ok(hs);
  }

  /** `finish_pass_gather_phuff`. */
  method FinishGatherProg(e: PhuffEncoder, tables: seq<HuffTable>, ghost mcus: seq<Mcu>) returns (r: Result<seq<HuffTable>>)
    requires e.Valid() && e.sink.gather && e.p.plan.Covered() && GoodMcus(e.p.plan, mcus) && mcus != []
    requires (e.segs, e.cur) == Split(mcus, e.p.plan.restartInterval) && ProgScanInRange(e.p, mcus)
    requires |tables| == 2 * NUM_HUFF_TBLS && forall h <- tables :: h.WellTyped()
    requires forall t: nat :: ProgSelected(e.p, t) ==> CountsFit(ScanTokenList(e.p, mcus), t)
    modifies e`eobrun, e`be, e.sink`toks, e.sink.w, e.sink.counts
    ensures r.Ok? ==> ProgTablesFor(e.p, r.value, ScanTokenList(e.p, mcus))
    ensures r.Err? ==> r.error == HuffClenOverflow
                       && exists t: nat :: ProgSelected(e.p, t) && Overflows(ScanTokenList(e.p, mcus), t)
  {
    hide PhuffEncoder.Valid, TokenSink.Valid, PhuffEncoder.Standing, TableFor, TalliedAt, AllCodable, UsesTable, CountsFit, Overflows, Whole,
         ScanTokenList, ProgScanInRange, Split, ProgSelectedUpTo, GoodMcus, TableOf, SymsOf, TokensGood;
    var p := e.p;
    EncoderParts(e);
    var ok := e.FlushRun();
    ghost var toks := ScanTokenList(p, mcus);
    GatheredAll(e, mcus);
    ScanTokensGood(p, mcus);
    if p.ss == 0 && p.ah != 0 {
      NoneNeeded(p, tables, toks);
      return Ok(tables);
    }
    r := FinishTables(p, e.sink.counts, tables, toks);
  }

  lemma FinishStarts(p: Progress, counts: seq<seq<nat>>, toks: seq<Token>, hs: seq<HuffTable>, did: seq<bool>)
    requires p.plan.Valid() && AllTallied(counts, toks) && |hs| == |did| == 2 * NUM_HUFF_TBLS
    requires (forall h <- hs :: h.WellTyped()) && forall t :: 0 <= t < |did| ==> !did[t]
    ensures Finishing(p, counts, toks, hs, did, 0)
  {
    hide TalliedAt, ProgSelectedBy;
  }

  lemma NoneNeeded(p: Progress, hs: seq<HuffTable>, toks: seq<Token>)
    requires p.plan.Valid() && p.ss == 0 && p.ah != 0 && |hs| == 2 * NUM_HUFF_TBLS && forall h <- hs :: h.WellTyped()
    ensures ProgTablesFor(p, hs, toks)
  {
  }

  lemma EncoderParts(e: PhuffEncoder)
    requires e.Valid()
    ensures e.p.Valid() && e.p.plan.Valid() && e.Shape() && e.Standing() && e.Finished() && Separate(e.sink.counts)
  {
  }

  lemma GatheredAll(e: PhuffEncoder, mcus: seq<Mcu>)
    requires e.Shape() && e.Finished() && e.sink.gather && GoodMcus(e.p.plan, mcus) && GoodMcus(e.p.plan, e.cur)
    requires (e.segs, e.cur) == Split(mcus, e.p.plan.restartInterval) && e.sink.toks == Whole(e.p, e.cur)
    ensures AllTallied(CountsOf(e.sink.counts), ScanTokenList(e.p, mcus))
  {
    hide AllTallied, Whole, Split, GoodMcus, Intervals;
    WholeAgrees(e.p, e.sink.segs, e.segs);
    WholeAppends(e.p, e.segs, e.cur);
  }
}
