/**
 The two passes of optimised sequential coding, and decoding: statistics are gathered, tables are made, the scan is
 encoded; a decoder that receives the stream in pieces of any size returns the coefficients that were encoded.
 */
module TwoPass {
  import opened BitOutput
  import opened Bits
  import opened BitInput
  import opened Coefficients
  import opened HuffDecoding
  import opened HuffTables
  import opened McuDecoder
  import opened Restarts
  import opened Scans
  import opened Segments
  import opened SeqDecoder
  import opened SeqEncoder
  import opened SeqGather
  import opened SeqRoundTrip
  import opened SeqScanDecoder
  import opened SeqScanEncoder
  import opened Statistics
  import opened Tokens
  import Seqs

  // ----- The scan as a whole -----

  /** The predictions that the next MCU starts from. */
  function DcBefore(plan: Plan, mcus: seq<Mcu>): (l: seq<int>)
    requires plan.Valid() && GoodMcus(plan, mcus)
    ensures |l| == MAX_COMPS_IN_SCAN
  {
    SplitMembers(plan, mcus, plan.restartInterval);
    var (segs, cur) := Split(mcus, plan.restartInterval);
    if plan.restartInterval > 0 && |cur| == plan.restartInterval then NoDc() else SegDc(plan, cur)
  }

  /** The tokens of the i-th MCU of the scan. */
  function NthTokens(plan: Plan, mcus: seq<Mcu>, i: nat): (toks: seq<Token>)
    requires plan.Valid() && GoodMcus(plan, mcus) && i < |mcus|
  {
    assert mcus[i] in mcus;
    McuTokens(plan, mcus[i], |mcus[i]|, DcBefore(plan, mcus[..i]))
  }

  predicate NthInRange(plan: Plan, mcus: seq<Mcu>, i: nat)
    requires plan.Valid() && GoodMcus(plan, mcus) && i < |mcus|
  {
    assert mcus[i] in mcus;
    McuInRange(plan, mcus[i], |mcus[i]|, DcBefore(plan, mcus[..i]))
  }

  /** Every coefficient, and every DC difference, is within what the coder can represent. */
  predicate ScanInRange(plan: Plan, mcus: seq<Mcu>)
    requires plan.Valid() && GoodMcus(plan, mcus)
  {
    forall i :: 0 <= i < |mcus| ==> NthInRange(plan, mcus, i)
  }

  /** All tokens of the scan. */
  function AllTokens(plan: Plan, mcus: seq<Mcu>): (toks: seq<Token>)
    requires plan.Valid() && GoodMcus(plan, mcus)
  {
    SplitMembers(plan, mcus, plan.restartInterval);
    ScanTokens(plan, Split(mcus, plan.restartInterval).0, Split(mcus, plan.restartInterval).1)
  }

  lemma GoodPrefix(plan: Plan, mcus: seq<Mcu>, i: nat)
    requires GoodMcus(plan, mcus) && i <= |mcus|
    ensures GoodMcus(plan, mcus[..i])
    ensures i < |mcus| ==> GoodMcu(plan, mcus[i])
  {
    hide GoodMcu;
    forall mcu | mcu in mcus[..i] ensures GoodMcu(plan, mcu) { assert mcu in mcus; }
    if i < |mcus| { assert mcus[i] in mcus; }
  }

  /** One more MCU adds its tokens at the end. */
  lemma TokensNext(plan: Plan, mcus: seq<Mcu>, i: nat)
    requires plan.Valid() && GoodMcus(plan, mcus) && i < |mcus| && GoodMcus(plan, mcus[..i]) && GoodMcus(plan, mcus[..i + 1])
    ensures AllTokens(plan, mcus[..i + 1]) == AllTokens(plan, mcus[..i]) + NthTokens(plan, mcus, i)
  {
    hide Split, GoodMcu, SegTokens, SegDc, SegsTokens, McuTokens;
    var ri := plan.restartInterval;
    SplitMembers(plan, mcus[..i], ri);
    SplitNext(mcus, ri, i);
    GoodPrefix(plan, mcus, i);
    var (segs, cur) := Split(mcus[..i], ri);
    if ri > 0 && |cur| == ri {
      SegClosedTokens(plan, segs, cur);
      assert [] + [mcus[i]] == [mcus[i]];
      NextTokens(plan, segs + [cur], [], mcus[i]);
    } else {
      NextTokens(plan, segs, cur, mcus[i]);
    }
  }

  lemma NextTokens(plan: Plan, segs: seq<seq<Mcu>>, cur: seq<Mcu>, mcu: Mcu)
    requires plan.Valid() && GoodMcus(plan, cur) && (forall seg <- segs :: GoodMcus(plan, seg)) && GoodMcu(plan, mcu)
    ensures GoodMcus(plan, cur + [mcu])
    ensures ScanTokens(plan, segs, cur + [mcu]) == ScanTokens(plan, segs, cur) + McuTokens(plan, mcu, |mcu|, SegDc(plan, cur))
  {
    hide SegTokens, SegDc, SegsTokens, McuTokens, GoodMcus;
    SegSnoc(plan, cur, mcu);
    Seqs.Assoc(SegsTokens(plan, segs), SegTokens(plan, cur), McuTokens(plan, mcu, |mcu|, SegDc(plan, cur)));
  }

  /** When all tokens of the scan have codes, so have those of each MCU. */
  lemma {:induction false} NthCoded(plan: Plan, ets: seq<EncTable>, mcus: seq<Mcu>, n: nat, i: nat)
    requires plan.Valid() && GoodMcus(plan, mcus) && i < n <= |mcus| && GoodMcus(plan, mcus[..n])
    requires AllCoded(ets, AllTokens(plan, mcus[..n]))
    ensures AllCoded(ets, NthTokens(plan, mcus, i))
    decreases n
  {
    hide *;
    GoodPrefix(plan, mcus, n - 1);
    TokensNext(plan, mcus, n - 1);
    BothCoded(ets, AllTokens(plan, mcus[..n - 1]), NthTokens(plan, mcus, n - 1));
    if i < n - 1 { NthCoded(plan, ets, mcus, n - 1, i); }
  }

  // ----- First pass -----

  /** Gathers the statistics of the whole scan. */
  method Gather(plan: Plan, mcus: seq<Mcu>) returns (st: Status, g: GatherEncoder)
    requires plan.Valid() && GoodMcus(plan, mcus)
    ensures fresh(g) && fresh(g.counts) && g.plan == plan
    ensures Explained(st, ScanInRange(plan, mcus), true)
    ensures st.Success? ==> g.Valid() && (g.segs, g.cur) == Split(mcus, plan.restartInterval)
    ensures st.Success? ==> g.toks == AllTokens(plan, mcus)
  {
    hide GatherEncoder.Valid, Split, McuInRange, SegDc, Explained, GoodMcu;
    g := new GatherEncoder(plan);
    var i := 0;
    assert mcus[..0] == [];
    SplitNothing(plan.restartInterval);
    while i < |mcus|
      invariant 0 <= i <= |mcus| && g.Valid() && g.plan == plan && fresh(g) && fresh(g.counts)
      invariant (g.segs, g.cur) == Split(mcus[..i], plan.restartInterval)
      invariant forall k :: 0 <= k < i ==> NthInRange(plan, mcus, k)
    {
      GoodPrefix(plan, mcus, i);
      SplitNext(mcus, plan.restartInterval, i);
      assert [] + [mcus[i]] == [mcus[i]];
      st := g.GatherMcu(mcus[i]);
      InRangeOrNot(plan, mcus, i, st);
      if st.Failure? { return; }
      i := i + 1;
    }
    assert mcus[..|mcus|] == mcus;
    st := Success;
    GatheredTokens(g, mcus);
    AllInRange(plan, mcus, st);
  }

  lemma SplitNothing(ri: nat)
    ensures Split([], ri) == ([], [])
  {
  }

  lemma GatheredTokens(g: GatherEncoder, mcus: seq<Mcu>)
    requires g.Valid() && GoodMcus(g.plan, mcus) && (g.segs, g.cur) == Split(mcus, g.plan.restartInterval)
    ensures g.toks == AllTokens(g.plan, mcus)
  {
    hide ScanTokens, SegDc, AllTallied, GoodTokens, Intervals, Split;
  }

  lemma InRangeOrNot(plan: Plan, mcus: seq<Mcu>, i: nat, st: Status)
    requires plan.Valid() && GoodMcus(plan, mcus) && i < |mcus| && GoodMcus(plan, mcus[..i]) && GoodMcu(plan, mcus[i])
    requires Explained(st, NthInRange(plan, mcus, i), true)
    ensures st.Success? ==> NthInRange(plan, mcus, i)
    ensures st.Failure? ==> Explained(st, ScanInRange(plan, mcus), true)
  {
    hide NthInRange;
  }

  lemma AllInRange(plan: Plan, mcus: seq<Mcu>, st: Status)
    requires plan.Valid() && GoodMcus(plan, mcus) && st.Success? && forall k :: 0 <= k < |mcus| ==> NthInRange(plan, mcus, k)
    ensures Explained(st, ScanInRange(plan, mcus), true)
  {
    hide NthInRange;
  }

  // ----- Tables -----

  function NoEncTable(): (e: EncTable)
    ensures WellFormed(e)
  {
    EncTable(seq(256, s => 0), seq(256, s => 0))
  }

  /** The tables the scan selects pass the checks of both coders. */
  ghost predicate UsableTables(plan: Plan, hs: seq<HuffTable>) {
    && plan.Valid() && |hs| == 2 * NUM_HUFF_TBLS && (forall h <- hs :: h.WellTyped())
    && forall t: nat :: t < |hs| && Selected(plan, t) ==> Usable(hs[t], t)
  }

  ghost predicate Usable(h: HuffTable, t: nat) {
    h.WellTyped() && Legal(h.bits) && GoodSymbols(h, if t < NUM_HUFF_TBLS then 15 else 255)
  }

  /** The encoder's derived tables (`start_pass_huff`). */
  method StartEncoder(plan: Plan, hs: seq<HuffTable>) returns (ets: seq<EncTable>)
    requires UsableTables(plan, hs)
    ensures |ets| == |hs| && AllWellFormed(ets)
    ensures forall t: nat :: t < |hs| && Selected(plan, t) ==> Matches(hs[t], ets[t])
  {
    hide Usable, WellFormed, Matches, SelectedUpTo;
    ets := seq(2 * NUM_HUFF_TBLS, t => NoEncTable());
    var ci := 0;
    NoneSelected(plan);
    while ci < |plan.comps|
      invariant 0 <= ci <= |plan.comps| && |ets| == 2 * NUM_HUFF_TBLS && AllWellFormed(ets)
      invariant forall t: nat :: t < |hs| && SelectedUpTo(plan, t, ci) ==> Matches(hs[t], ets[t])
    {
      SelectedMore(plan, ci);
      assert plan.comps[ci] in plan.comps;
      var dctbl, actbl := plan.comps[ci].DcT(), plan.comps[ci].AcT();
      var d := EncoderTable(hs[dctbl], dctbl);
      var a := EncoderTable(hs[actbl], actbl);
      ets := ets[dctbl := d][actbl := a];
      ci := ci + 1;
    }
  }

  method EncoderTable(h: HuffTable, t: nat) returns (e: EncTable)
    requires Usable(h, t)
    ensures Matches(h, e) && WellFormed(e)
  {
    var r := MakeEncTable(t < NUM_HUFF_TBLS, h);
    e := r.value;
    EncodesWellFormed(h, e);
  }

  function NoDecTable(): (d: DecTable) { DecTable([], [], [], []) }

  /** The decoder's derived tables (`start_pass_huff_decoder`). */
  method StartDecoder(plan: Plan, hs: seq<HuffTable>) returns (ds: seq<DecTable>)
    requires UsableTables(plan, hs)
    ensures |ds| == |hs|
    ensures forall t: nat :: t < |hs| && Selected(plan, t) ==> Derived(hs[t], ds[t])
  {
    hide Usable, Derived, SelectedUpTo;
    ds := seq(2 * NUM_HUFF_TBLS, t => NoDecTable());
    var ci := 0;
    NoneSelected(plan);
    while ci < |plan.comps|
      invariant 0 <= ci <= |plan.comps| && |ds| == 2 * NUM_HUFF_TBLS
      invariant forall t: nat :: t < |hs| && SelectedUpTo(plan, t, ci) ==> Derived(hs[t], ds[t])
    {
      SelectedMore(plan, ci);
      assert plan.comps[ci] in plan.comps;
      var dctbl, actbl := plan.comps[ci].DcT(), plan.comps[ci].AcT();
      var d := DecoderTable(hs[dctbl], dctbl);
      var a := DecoderTable(hs[actbl], actbl);
      ds := ds[dctbl := d][actbl := a];
      ci := ci + 1;
    }
  }

  method DecoderTable(h: HuffTable, t: nat) returns (d: DecTable)
    requires Usable(h, t)
    ensures Derived(h, d)
  {
    var r := MakeDecTable(t < NUM_HUFF_TBLS, h);
    d := r.value;
  }

  /** Every token of the scan has a code in the tables made for it. */
  lemma TokensCoded(plan: Plan, hs: seq<HuffTable>, ets: seq<EncTable>, toks: seq<Token>)
    requires TablesFor(plan, hs, toks) && AllCodable(toks) && |ets| == |hs|
    requires forall tok <- toks :: tok.Sym? ==> Selected(plan, tok.t)
    requires forall t: nat :: t < |hs| && Selected(plan, t) ==> Matches(hs[t], ets[t])
    ensures AllCoded(ets, toks)
  {
    hide Selected, TableFor, Matches;
    forall tok | tok in toks ensures HasCode(ets, tok) {
      assert Codable(tok);
      if tok.Sym? { ListedCoded(hs[tok.t], ets[tok.t], toks, tok.t, tok.s); }
    }
  }

  lemma ListedCoded(h: HuffTable, e: EncTable, toks: seq<Token>, t: nat, s: nat)
    requires TableFor(h, toks, t) && Matches(h, e) && Sym(t, s) in toks && s < 256
    ensures |e.ehufco| == |e.ehufsi| == 256 && e.ehufsi[s] != 0
  {
    hide Count, FirstCode, CodeOf;
    var listed := h.huffval[..Count(h.bits, 16)];
    var p :| 0 <= p < |listed| && listed[p] == s;
    assert EncodesAt(h, e, p);
  }

  // ----- Second pass -----

  /** The segments of a stream hold the restart intervals of a scan; restart markers separate them, `m` ends the last. */
  ghost predicate StreamHolds(plan: Plan, ets: seq<EncTable>, done: seq<(seq<nat>, nat)>, all: seq<seq<Mcu>>, m: nat) {
    && |done| == |all|
    && forall i :: 0 <= i < |all| ==>
         && SegmentHolds(plan, ets, done[i].0, all[i])
         && done[i].1 == if i < |all| - 1 then RstMarker(i) else m
  }

  lemma StreamClosed(plan: Plan, ets: seq<EncTable>, done: seq<(seq<nat>, nat)>, segs: seq<seq<Mcu>>,
                     bytes: seq<nat>, cur: seq<Mcu>, m: nat)
    requires SegmentsHold(plan, ets, done, segs) && SegmentHolds(plan, ets, bytes, cur)
    ensures StreamHolds(plan, ets, done + [(bytes, m)], segs + [cur], m)
  {
    hide SegmentHolds;
  }

  /** Encodes the i-th MCU of a scan that can be coded. */
  method EncodeNth(e: ScanEncoder, mcus: seq<Mcu>, i: nat)
    requires e.Valid() && GoodMcus(e.plan, mcus) && i < |mcus| && (e.segs, e.cur) == Split(mcus[..i], e.plan.restartInterval)
    requires e.plan.Valid() && ScanInRange(e.plan, mcus) && AllCoded(e.ets, AllTokens(e.plan, mcus))
    modifies e, e.w
    ensures e.Valid() && (e.segs, e.cur) == Split(mcus[..i + 1], e.plan.restartInterval)
  {
    hide BitWriter.Valid, ScanEncoder.Valid, Split, McuInRange, SegDc, GoodMcu, AllCoded, McuTokens, AllTokens;
    GoodPrefix(e.plan, mcus, i);
    SplitNext(mcus, e.plan.restartInterval, i);
    assert mcus[..|mcus|] == mcus;
    NthCoded(e.plan, e.ets, mcus, |mcus|, i);
    assert NthInRange(e.plan, mcus, i);
    assert [] + [mcus[i]] == [mcus[i]];
    var st := e.EncodeMcu(mcus[i]);
  }

  /** Encodes the whole scan and the marker that follows it. */
  method Encode(plan: Plan, ets: seq<EncTable>, mcus: seq<Mcu>, m: nat) returns (out: seq<nat>, ghost done: seq<(seq<nat>, nat)>)
    requires plan.Valid() && |ets| == 2 * NUM_HUFF_TBLS && AllWellFormed(ets) && GoodMcus(plan, mcus) && IsMarker(m)
    requires ScanInRange(plan, mcus) && AllCoded(ets, AllTokens(plan, mcus))
    ensures out == Join(done) && StreamHolds(plan, ets, done, AllSegs(mcus, plan.restartInterval), m)
  {
    hide BitWriter.Valid, ScanEncoder.Valid, Split, McuInRange, SegDc, GoodMcu, AllCoded, McuTokens, AllTokens, SegmentsHold,
         SegmentHolds, AllWellFormed;
    var e := new ScanEncoder(plan, ets);
    var i := 0;
    assert mcus[..0] == [];
    assert mcus[..|mcus|] == mcus;
    SplitNothing(plan.restartInterval);
    while i < |mcus|
      modifies e, e.w
      invariant 0 <= i <= |mcus| && e.Valid() && (e.segs, e.cur) == Split(mcus[..i], plan.restartInterval)
    {
      EncodeNth(e, mcus, i);
      i := i + 1;
    }
    e.FinishPass();
    done := e.w.done + [(e.w.bytes, m)];
    StreamClosed(plan, ets, e.w.done, e.segs, e.w.bytes, e.cur, m);
    e.w.EmitMarker(m);
    out := e.w.out;
    WriterOut(e.w);
  }

  lemma WriterOut(w: BitWriter)
    requires w.Valid() && w.bits == []
    ensures w.out == Join(w.done)
  {
    hide Stuff;
    assert |Unpack(w.bytes)| == 0;
    assert w.bytes == [];
    assert Stuff([]) == [] by { StuffNothing(); }
    assert Join(w.done) + [] == Join(w.done);
  }

  lemma StuffNothing()
    ensures Stuff([]) == []
  {
  }

  // ----- Reading it back -----

  lemma {:induction false} SegPart(plan: Plan, ets: seq<EncTable>, seg: seq<Mcu>, k: nat)
    requires plan.Valid() && GoodMcus(plan, seg) && k <= |seg| && AllCoded(ets, SegTokens(plan, seg))
    ensures GoodMcus(plan, seg[..k]) && AllCoded(ets, SegTokens(plan, seg[..k]))
    ensures TokenBits(ets, SegTokens(plan, seg[..k])) <= TokenBits(ets, SegTokens(plan, seg))
  {
    hide *;
    GoodPrefix(plan, seg, k);
    if k == |seg| {
      Seqs.TakeAll(seg);
    } else {
      var m := |seg| - 1;
      GoodPrefix(plan, seg, m);
      Seqs.InitLast(seg);
      SegSnoc(plan, seg[..m], seg[m]);
      var a, b := SegTokens(plan, seg[..m]), McuTokens(plan, seg[m], |seg[m]|, SegDc(plan, seg[..m]));
      BothCoded(ets, a, b);
      TokenBitsConcat(ets, a, b);
      SegPart(plan, ets, seg[..m], k);
      Seqs.TakeOfTake(seg, k, m);
      Seqs.ConcatPrefix(TokenBits(ets, a), TokenBits(ets, b));
      Seqs.PrefixTrans(TokenBits(ets, SegTokens(plan, seg[..k])), TokenBits(ets, a), TokenBits(ets, a) + TokenBits(ets, b));
    }
  }

  /** The tokens of an MCU stand in the segment after those of the MCUs before it. */
  lemma McuStands(plan: Plan, ets: seq<EncTable>, bytes: seq<nat>, seg: seq<Mcu>, k: nat)
    requires SegmentHolds(plan, ets, bytes, seg) && k < |seg|
    ensures plan.Valid() && GoodMcus(plan, seg[..k]) && GoodMcu(plan, seg[k]) && GoodMcus(plan, seg[..k + 1])
    ensures var n, toks := |TokenBits(ets, SegTokens(plan, seg[..k]))|, McuTokens(plan, seg[k], |seg[k]|, SegDc(plan, seg[..k]));
            && AllCoded(ets, toks) && Stands(Unpack(bytes), n, TokenBits(ets, toks))
            && n + |TokenBits(ets, toks)| == |TokenBits(ets, SegTokens(plan, seg[..k + 1]))|
    ensures SegDc(plan, seg[..k + 1]) == DcAfter(plan, seg[k], |seg[k]|, SegDc(plan, seg[..k]))
  {
    hide SegTokens, McuTokens, SegDc, TokenBits, AllCoded, Unpack, GoodMcus, Stands, DcAfter;
    GoodPrefix(plan, seg, k);
    SegPart(plan, ets, seg, k + 1);
    SegSnoc(plan, seg[..k], seg[k]);
    assert seg[..k + 1] == seg[..k] + [seg[k]];
    var a, b := SegTokens(plan, seg[..k]), McuTokens(plan, seg[k], |seg[k]|, SegDc(plan, seg[..k]));
    TokenBitsConcat(ets, a, b);
    BothCoded(ets, a, b);
    var all := TokenBits(ets, SegTokens(plan, seg));
    assert all <= Unpack(bytes);
    Seqs.PrefixTrans(TokenBits(ets, a + b), all, Unpack(bytes));
    StandsPrefix(Unpack(bytes), TokenBits(ets, a) + TokenBits(ets, b));
    StandsSplit(Unpack(bytes), 0, TokenBits(ets, a), TokenBits(ets, b));
  }

  /** The segment of the i-th MCU and its place there. */
  function Where(mcus: seq<Mcu>, ri: nat, i: nat): (w: (nat, nat))
    requires i < |mcus|
  {
    var (segs, cur) := Split(mcus[..i + 1], ri);
    (|segs|, |cur| - 1)
  }

  lemma WhereIs(mcus: seq<Mcu>, ri: nat, i: nat)
    requires i < |mcus|
    ensures var (j, k) := Where(mcus, ri, i);
            var all := AllSegs(mcus, ri);
            && j < |all| && k < |all[j]| && all[j][k] == mcus[i]
            && (ri == 0 ==> j == 0) && (ri > 0 ==> k < ri)
  {
    hide AllSegs;
    SplitPrefix(mcus, ri, i + 1);
    SplitNext(mcus, ri, i);
  }

  lemma WhereFirst(mcus: seq<Mcu>, ri: nat)
    requires mcus != []
    ensures Where(mcus, ri, 0) == (0, 0)
  {
    hide Split, Intervals;
    assert mcus[..0] == [];
    SplitNothing(ri);
    SplitNext(mcus, ri, 0);
  }

  lemma WhereNext(mcus: seq<Mcu>, ri: nat, i: nat)
    requires i + 1 < |mcus|
    ensures var (j, k) := Where(mcus, ri, i);
            Where(mcus, ri, i + 1) == if ri > 0 && k + 1 == ri then (j + 1, 0) else (j, k + 1)
  {
    hide Split, Intervals;
    SplitNext(mcus, ri, i + 1);
  }

  lemma DcBeforeIs(plan: Plan, mcus: seq<Mcu>, i: nat)
    requires plan.Valid() && GoodMcus(plan, mcus) && i < |mcus| && GoodMcus(plan, mcus[..i])
    ensures var (j, k) := Where(mcus, plan.restartInterval, i);
            var all := AllSegs(mcus, plan.restartInterval);
            && j < |all| && k < |all[j]| && GoodMcus(plan, all[j][..k])
            && SegDc(plan, all[j][..k]) == DcBefore(plan, mcus[..i])
  {
    hide AllSegs, SegDc, GoodMcu;
    var ri := plan.restartInterval;
    SplitPrefix(mcus, ri, i + 1);
    SplitNext(mcus, ri, i);
    SplitMembers(plan, mcus[..i], ri);
    SegEmpty(plan);
    var (segs, cur) := Split(mcus[..i], ri);
    var (j, k) := Where(mcus, ri, i);
    var all := AllSegs(mcus, ri);
    var last := Split(mcus[..i + 1], ri).1;
    assert all[j][..k] == last[..k];
    assert last[..k] == if ri > 0 && |cur| == ri then [] else cur;
  }
}
