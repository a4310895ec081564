/** The statistics pass of a sequential scan: `encode_mcu_gather` and `finish_pass_gather`. */
module SeqGather {
  import opened Bits
  import opened Coefficients
  import opened HuffTables
  import opened HuffmanCost
  import opened HuffmanGen
  import opened LengthLimit
  import opened OptimalTable
  import opened RunLength
  import opened Scans
  import opened SeqEncoder
  import opened SeqScanEncoder
  import opened Statistics
  import opened TokenOutput
  import opened Tokens
  import Seqs

  // ----- Specification -----

  /** The tokens of a whole scan. */
  function ScanTokens(plan: Plan, segs: seq<seq<Mcu>>, cur: seq<Mcu>): (toks: seq<Token>)
    requires plan.Valid() && GoodMcus(plan, cur) && forall seg <- segs :: GoodMcus(plan, seg)
  {
    SegsTokens(plan, segs) + SegTokens(plan, cur)
  }

  function SegsTokens(plan: Plan, segs: seq<seq<Mcu>>): (toks: seq<Token>)
    requires plan.Valid() && forall seg <- segs :: GoodMcus(plan, seg)
  {
    if segs == [] then [] else SegsTokens(plan, segs[..|segs| - 1]) + SegTokens(plan, segs[|segs| - 1])
  }

  lemma TalliedStays(c: seq<nat>, t: nat, toks: seq<Token>, dcT: nat, acT: nat, z: seq<int>, lastDc: int)
    requires TalliedAt(c, t, toks) && |z| == 64 && t != dcT && t != acT && dcT != acT
    ensures TalliedAt(c, t, toks + BlockTokens(dcT, acT, z, lastDc))
  {
    hide Tally, DcTokens, AcTokens;
    var more := BlockTokens(dcT, acT, z, lastDc);
    forall s | 0 <= s < 256 ensures c[s] == Tally(t, s, toks + more) {
      TallyConcat(t, s, toks, more);
      BlockNotOfTable(dcT, acT, z, lastDc, t, s);
    }
  }

  lemma BlockNotOfTable(dcT: nat, acT: nat, z: seq<int>, lastDc: int, t: nat, s: nat)
    requires |z| == 64 && t != dcT && t != acT
    ensures Tally(t, s, BlockTokens(dcT, acT, z, lastDc)) == 0
  {
    hide Tally, RunTokens, RunEnd, NumBits, ValueBits;
    var a, b := DcTokens(dcT, z[0] - lastDc), AcTokens(acT, z);
    RunsOfTable(z, acT, 1, 63);
    assert OfTable(a, dcT) && OfTable(b, acT);
    TallyConcat(t, s, a, b);
    NoneOfTable(a, dcT, t, s);
    NoneOfTable(b, acT, t, s);
  }

  // ----- The symbols that can occur -----

  lemma {:induction false} RunsCodable(z: seq<int>, t: nat, k: nat)
    requires |z| == 64 && 1 <= k <= 64 && AcInRange(z, 64) && NUM_HUFF_TBLS <= t < 2 * NUM_HUFF_TBLS
    ensures AllCodable(RunTokens(z, t, k, 63))
    decreases 64 - k
  {
    hide NumBits, ValueBits, NextNonzero;
    var p := NextNonzero(z, k, 63);
    if p <= 63 {
      if p - k > 15 { RunsCodable(z, t, k + 16); } else { RunsCodable(z, t, p + 1); }
    }
  }

  lemma BlockCodable(c: Component, z: seq<int>, lastDc: int)
    requires c.Valid() && |z| == 64 && InRange(z, lastDc)
    ensures AllCodable(BlockTokens(c.DcT(), c.AcT(), z, lastDc))
  {
    hide NumBits, ValueBits, RunTokens, RunEnd;
    RunsCodable(z, c.AcT(), 1);
  }

  lemma BlockUses(c: Component, z: seq<int>, lastDc: int)
    requires c.Valid() && |z| == 64 && InRange(z, lastDc)
    ensures UsesTable(BlockTokens(c.DcT(), c.AcT(), z, lastDc), c.DcT())
    ensures UsesTable(BlockTokens(c.DcT(), c.AcT(), z, lastDc), c.AcT())
  {
    var dc, ac := DcTokens(c.DcT(), z[0] - lastDc), AcTokens(c.AcT(), z);
    BlockCodable(c, z, lastDc);
    var toks := BlockTokens(c.DcT(), c.AcT(), z, lastDc);
    AcStarts(z, c.AcT());
    hide NumBits, ValueBits, RunTokens, RunEnd, AcTokens;
    assert dc[0].Sym? && dc[0] in toks && Sym(c.DcT(), dc[0].s) == dc[0];
    assert ac[0] in toks && Sym(c.AcT(), ac[0].s) == ac[0];
  }

  lemma AcStarts(z: seq<int>, t: nat)
    requires |z| == 64
    ensures AcTokens(t, z) != [] && AcTokens(t, z)[0].Sym? && AcTokens(t, z)[0].t == t
  {
    hide NumBits, ValueBits, NextNonzero;
  }

  /** What is known of the tokens gathered so far. */
  ghost predicate GoodTokens(plan: Plan, toks: seq<Token>, some: bool)
    requires plan.Valid()
  {
    && AllCodable(toks)
    && (some ==> forall b :: 0 <= b < |plan.membership| ==> UsesBoth(plan, toks, b))
  }

  ghost predicate UsesBoth(plan: Plan, toks: seq<Token>, b: nat)
    requires plan.Valid() && b < |plan.membership|
  {
    UsesTable(toks, plan.CompOf(b).DcT()) && UsesTable(toks, plan.CompOf(b).AcT())
  }

  lemma {:induction false} McuGood(plan: Plan, mcu: Mcu, n: nat, lastDc: seq<int>)
    requires plan.Valid() && GoodMcu(plan, mcu) && n <= |mcu| && |lastDc| == MAX_COMPS_IN_SCAN
    requires McuInRange(plan, mcu, n, lastDc)
    ensures AllCodable(McuTokens(plan, mcu, n, lastDc))
    ensures forall b :: 0 <= b < n ==> UsesBoth(plan, McuTokens(plan, mcu, n, lastDc), b)
    decreases n
  {
    hide BlockTokens, UsesTable, InRange, Codable, McuBlockTokens, DcAfter, AllCodable;
    if n > 0 {
      McuGood(plan, mcu, n - 1, lastDc);
      var a, m := McuTokens(plan, mcu, n - 1, lastDc), McuBlockTokens(plan, mcu, n - 1, lastDc);
      BlockGood(plan, mcu, n - 1, lastDc);
      BothCodable(a, m);
      forall b | 0 <= b < n ensures UsesBoth(plan, a + m, b) {
        if b < n - 1 { assert UsesBoth(plan, a, b); }
        UsesMore(a, m, plan.CompOf(b).DcT());
        UsesMore(a, m, plan.CompOf(b).AcT());
      }
    } else {
      NothingCodable();
    }
  }

  lemma BlockGood(plan: Plan, mcu: Mcu, b: nat, lastDc: seq<int>)
    requires plan.Valid() && GoodMcu(plan, mcu) && b < |mcu| && |lastDc| == MAX_COMPS_IN_SCAN
    requires InRange(Zigzag(mcu[b]), DcAfter(plan, mcu, b, lastDc)[plan.Ci(b)])
    ensures AllCodable(McuBlockTokens(plan, mcu, b, lastDc)) && UsesBoth(plan, McuBlockTokens(plan, mcu, b, lastDc), b)
  {
    hide BlockTokens, UsesTable, InRange, AllCodable, DcAfter, NaturalOrder;
    var last := DcAfter(plan, mcu, b, lastDc)[plan.Ci(b)];
    BlockCodable(plan.CompOf(b), Zigzag(mcu[b]), last);
    BlockUses(plan.CompOf(b), Zigzag(mcu[b]), last);
  }

  lemma GoodGrows(plan: Plan, toks: seq<Token>, some: bool, mcu: Mcu, lastDc: seq<int>)
    requires plan.Valid() && GoodTokens(plan, toks, some) && GoodMcu(plan, mcu) && |lastDc| == MAX_COMPS_IN_SCAN
    requires McuInRange(plan, mcu, |mcu|, lastDc)
    ensures GoodTokens(plan, toks + McuTokens(plan, mcu, |mcu|, lastDc), true)
  {
    hide UsesTable, McuTokens, McuInRange, Codable;
    McuGood(plan, mcu, |mcu|, lastDc);
    var m := McuTokens(plan, mcu, |mcu|, lastDc);
    forall b | 0 <= b < |plan.membership| ensures UsesBoth(plan, toks + m, b) {
      assert UsesBoth(plan, m, b);
      UsesMore(toks, m, plan.CompOf(b).DcT());
      UsesMore(toks, m, plan.CompOf(b).AcT());
    }
  }

  // ----- Gathering -----

  /** A counted block extends what has been counted of its MCU; one that is out of range spoils the MCU. */
  lemma {:induction false} BlockCounted(st: Status, plan: Plan, mcu: Mcu, b: nat, lastDc: seq<int>)
    requires plan.Valid() && GoodMcu(plan, mcu) && b < |mcu| && |lastDc| == MAX_COMPS_IN_SCAN && McuInRange(plan, mcu, b, lastDc)
    requires Explained(st, InRange(Zigzag(mcu[b]), DcAfter(plan, mcu, b, lastDc)[plan.Ci(b)]), true)
    ensures st.Success? ==> McuInRange(plan, mcu, b + 1, lastDc)
    ensures McuTokens(plan, mcu, b + 1, lastDc) == McuTokens(plan, mcu, b, lastDc) + McuBlockTokens(plan, mcu, b, lastDc)
    ensures st.Failure? ==> Explained(st, McuInRange(plan, mcu, |mcu|, lastDc), true)
  {
    hide BlockTokens, InRange, Zigzag, DcAfter, McuBlockTokens;
  }

  class GatherEncoder {
    const plan: Plan
    const counts: seq<array<nat>>     // DC tables, then AC tables
    var lastDc: seq<int>
    var restartsToGo: nat
    ghost var segs: seq<seq<Mcu>>
    ghost var cur: seq<Mcu>
    ghost var toks: seq<Token>        // the tokens whose symbols have been counted

    /** All MCUs so far have been counted. */
    ghost predicate Gathered()
      reads this`segs, this`cur, this`toks, this`lastDc, counts
    {
      && plan.Valid() && Separate(counts)
      && GoodMcus(plan, cur) && (forall seg <- segs :: GoodMcus(plan, seg))
      && toks == ScanTokens(plan, segs, cur) && lastDc == SegDc(plan, cur)
      && AllTallied(CountsOf(counts), toks) && GoodTokens(plan, toks, segs != [] || cur != [])
    }

    ghost predicate Valid()
      reads this, counts
    {
      && plan.Valid() && Gathered() && Intervals(plan.restartInterval, segs, cur)
      && (plan.restartInterval > 0 ==> restartsToGo + |cur| == plan.restartInterval)
    }

    constructor (plan: Plan)
      requires plan.Valid()
      ensures Valid() && fresh(this) && fresh(counts) && this.plan == plan && segs == [] && cur == []
    {
      this.plan := plan;
      var c := ZeroCounts();
      counts := c;
      lastDc, restartsToGo := NoDc(), plan.restartInterval;
      segs, cur, toks := [], [], [];
      new;
      hide AllTallied, SegDc, ScanTokens;
      NothingYet(plan, CountsOf(counts));
    }

    /** Block `b` of an MCU. */
    method GatherBlock(mcu: Mcu, b: nat, ghost dc0: seq<int>) returns (st: Status)
      requires plan.Valid() && Separate(counts) && AllTallied(CountsOf(counts), toks)
      requires GoodMcu(plan, mcu) && b < |mcu| && |dc0| == MAX_COMPS_IN_SCAN && lastDc == DcAfter(plan, mcu, b, dc0)
      modifies this`lastDc, this`toks, counts
      ensures Explained(st, InRange(Zigzag(mcu[b]), DcAfter(plan, mcu, b, dc0)[plan.Ci(b)]), true)
      ensures st.Success? ==> lastDc == DcAfter(plan, mcu, b + 1, dc0)
      ensures st.Success? ==> toks == old(toks) + McuBlockTokens(plan, mcu, b, dc0) && AllTallied(CountsOf(counts), toks)
    {
      hide Tallied, BlockTokens, InRange, NaturalOrder, TalliedAt, Explained;
      var ci := plan.Ci(b);
      var c := plan.CompOf(b);
      var dcT, acT := c.DcT(), c.AcT();
      ghost var before, last := CountsOf(counts), lastDc[ci];
      st := HtestOneBlock(counts[dcT], counts[acT], mcu[b], lastDc[ci], dcT, acT);
      FirstCoef(mcu[b]);
      lastDc := lastDc[ci := mcu[b][0]];
      if st.Success? {
        forall t | 0 <= t < |counts| ensures TalliedAt(CountsOf(counts)[t], t, toks + McuBlockTokens(plan, mcu, b, dc0)) {
          if t == dcT || t == acT {
            TalliedGrows(before[t], counts[t][..], t, toks, McuBlockTokens(plan, mcu, b, dc0));
          } else {
            assert before[t] == counts[t][..];
            TalliedStays(before[t], t, toks, dcT, acT, Zigzag(mcu[b]), last);
          }
        }
        toks := toks + McuBlockTokens(plan, mcu, b, dc0);
      }
    }

    method GatherBlocks(mcu: Mcu) returns (st: Status)
      requires plan.Valid() && Separate(counts) && AllTallied(CountsOf(counts), toks)
      requires GoodMcu(plan, mcu) && |lastDc| == MAX_COMPS_IN_SCAN
      modifies this`lastDc, this`toks, counts
      ensures Explained(st, McuInRange(plan, mcu, |mcu|, old(lastDc)), true)
      ensures st.Success? ==> lastDc == DcAfter(plan, mcu, |mcu|, old(lastDc))
      ensures st.Success? ==>
                toks == old(toks) + McuTokens(plan, mcu, |mcu|, old(lastDc)) && AllTallied(CountsOf(counts), toks)
    {
      hide InRange, AllTallied, McuBlockTokens, McuTokens, McuInRange, DcAfter, Explained, Zigzag;
      ghost var dc0 := lastDc;
      NothingDone(plan, mcu, dc0);
      var b: nat := 0;
      while b < |plan.membership|
        modifies this`lastDc, this`toks, counts
        invariant 0 <= b <= |mcu| && AllTallied(CountsOf(counts), toks)
        invariant lastDc == DcAfter(plan, mcu, b, dc0) && McuInRange(plan, mcu, b, dc0)
        invariant toks == old(toks) + McuTokens(plan, mcu, b, dc0)
      {
        st := GatherBlock(mcu, b, dc0);
        BlockCounted(st, plan, mcu, b, dc0);
        if st.Failure? { return; }
        Seqs.Assoc(old(toks), McuTokens(plan, mcu, b, dc0), McuBlockTokens(plan, mcu, b, dc0));
        b := b + 1;
      }
      AllDone(McuInRange(plan, mcu, |mcu|, dc0), true);
      return Success;
    }

    /** At the start of a restart interval the predictions are reset. */
    method StartInterval()
      requires Valid() && plan.restartInterval > 0 && restartsToGo == 0
      modifies this
      ensures Valid() && toks == old(toks) && CountsOf(counts) == old(CountsOf(counts))
      ensures segs == old(segs) + [old(cur)] && cur == []
    {
      hide AllTallied, SegTokens, SegDc, SegsTokens, ScanTokens, GoodMcus, GoodTokens;
      SegClosedTokens(plan, segs, cur);
      lastDc, restartsToGo := NoDc(), plan.restartInterval;
      segs, cur := segs + [cur], [];
    }

    /** Counts the symbols of one more MCU of the restart interval. */
    method AppendMcu(mcu: Mcu) returns (st: Status)
      requires Gathered() && GoodMcu(plan, mcu)
      modifies this`lastDc, this`toks, this`cur, counts
      ensures GoodMcus(plan, old(cur))
      ensures Explained(st, McuInRange(plan, mcu, |mcu|, SegDc(plan, old(cur))), true)
      ensures st.Success? ==> Gathered() && cur == old(cur) + [mcu]
    {
      hide AllTallied, McuInRange, SegDc, ScanTokens, McuTokens, DcAfter, GoodMcus, Explained, GoodTokens;
      st := GatherBlocks(mcu);
      FailureOutOfRange(st, McuInRange(plan, mcu, |mcu|, SegDc(plan, cur)));
      if st.Failure? { return; }
      GatherStep(plan, segs, cur, mcu);
      cur := cur + [mcu];
    }

    /** `encode_mcu_gather`. */
    method GatherMcu(mcu: Mcu) returns (st: Status)
      requires Valid() && GoodMcu(plan, mcu)
      modifies this, counts
      ensures var restart := plan.restartInterval > 0 && |old(cur)| == plan.restartInterval;
              var dc := if restart then NoDc() else SegDc(plan, old(cur));
              && Explained(st, McuInRange(plan, mcu, |mcu|, dc), true)
              && (st.Success? ==>
                    && Valid()
                    && segs == (if restart then old(segs) + [old(cur)] else old(segs))
                    && cur == (if restart then [] else old(cur)) + [mcu])
    {
      hide Gathered, McuInRange, SegDc, Explained;
      if plan.restartInterval > 0 {
        if restartsToGo == 0 { StartInterval(); SegEmpty(plan); }
        restartsToGo := restartsToGo - 1;
      }
      st := AppendMcu(mcu);
    }

    /** Tables done so far hold what they should; the counts of the others are untouched. */
    ghost predicate Finishing(hs: seq<HuffTable>, did: seq<bool>, n: nat)
      requires n <= |plan.comps|
      reads this, counts
    {
      && |counts| == |hs| == |did| == 2 * NUM_HUFF_TBLS
      && (forall t :: 0 <= t < |did| ==> (did[t] <==> SelectedUpTo(plan, t, n)))
      && (forall t :: 0 <= t < |did| ==> if did[t] then TableFor(hs[t], toks, t)
                                         else hs[t].WellTyped() && TalliedAt(counts[t][..], t, toks))
    }

    /** Generates table `t`, unless that has been done. */
    method FinishTable(t: nat, hs: seq<HuffTable>, did: seq<bool>) returns (r: Result<seq<HuffTable>>)
      requires Separate(counts) && |hs| == |did| == 2 * NUM_HUFF_TBLS && t < |did|
      requires if did[t] then TableFor(hs[t], toks, t) else hs[t].WellTyped() && TalliedAt(CountsOf(counts)[t], t, toks)
      requires AllCodable(toks) && UsesTable(toks, t) && CountsFit(toks, t)
      modifies counts
      ensures r.Err? ==> r.error == HuffClenOverflow && Overflows(toks, t)
      ensures r.Ok? ==> |r.value| == |hs| && TableFor(r.value[t], toks, t)
                        && forall t' :: 0 <= t' < |hs| && t' != t ==>
                             r.value[t'] == hs[t'] && CountsOf(counts)[t'] == old(CountsOf(counts))[t']
    {
      hide TableFor, TalliedAt, AllCodable, UsesTable, CountsFit, Overflows;
      if did[t] { return Ok(hs); }
      var h := GenTable(counts[t], hs[t], toks, t);
      if h.Err? { return Err(h.error); }
      r := Ok(hs[t := h.value]);
    }

    /** The tables of one component. */
    method FinishComponent(ci: nat, hs: seq<HuffTable>, did: seq<bool>) returns (r: Result<seq<HuffTable>>, did': seq<bool>)
      requires plan.Valid() && ci < |plan.comps| && Separate(counts) && Finishing(hs, did, ci)
      requires AllCodable(toks) && UsesTable(toks, plan.comps[ci].DcT()) && UsesTable(toks, plan.comps[ci].AcT())
      requires CountsFit(toks, plan.comps[ci].DcT()) && CountsFit(toks, plan.comps[ci].AcT())
      modifies counts
      ensures r.Ok? ==> Finishing(r.value, did', ci + 1)
      ensures r.Err? ==> r.error == HuffClenOverflow
                         && (Overflows(toks, plan.comps[ci].DcT()) || Overflows(toks, plan.comps[ci].AcT()))
    {
      hide TableFor, TalliedAt, AllCodable, UsesTable, CountsFit, Overflows;
      SelectedMore(plan, ci);
      var dctbl, actbl := plan.comps[ci].DcT(), plan.comps[ci].AcT();
      assert plan.comps[ci] in plan.comps;
      var d := FinishTable(dctbl, hs, did);
      if d.Err? { return Err(d.error), did; }
      did' := did[dctbl := true];
      var a := FinishTable(actbl, d.value, did');
      if a.Err? { return Err(a.error), did; }
      did' := did'[actbl := true];
      return Ok(a.value), did';
    }

    lemma StillWellTyped(hs: seq<HuffTable>, did: seq<bool>)
      requires Finishing(hs, did, |plan.comps|)
      ensures forall h <- hs :: h.WellTyped()
    {
      hide Selected, TalliedAt, Legal, GoodSymbols, OptimalTable.OptimalFor;
      forall t | 0 <= t < |hs| ensures hs[t].WellTyped() {}
    }

    /** `finish_pass_gather`: a table for every table number in use, each generated once. */
    method FinishPassGather(tables: seq<HuffTable>) returns (r: Result<seq<HuffTable>>)
      requires Valid() && plan.Covered() && (segs != [] || cur != [])
      requires |tables| == 2 * NUM_HUFF_TBLS && forall h <- tables :: h.WellTyped()
      requires forall t: nat :: Selected(plan, t) ==> CountsFit(toks, t)
      modifies counts
      ensures r.Ok? ==> TablesFor(plan, r.value, toks) && forall h <- r.value :: h.WellTyped()
      ensures r.Err? ==> r.error == HuffClenOverflow && exists t: nat :: Selected(plan, t) && Overflows(toks, t)
    {
      hide TableFor, TalliedAt, AllCodable, UsesTable, CountsFit, Overflows, UsesBoth, ScanTokens, SegDc, GoodMcus,
           SelectedUpTo;
      var hs, did := tables, seq(2 * NUM_HUFF_TBLS, t => false);
      NoneSelected(plan);
      var ci := 0;
      while ci < |plan.comps|
        invariant 0 <= ci <= |plan.comps| && Separate(counts) && Finishing(hs, did, ci)
      {
        SelectedUsed(plan, toks, ci);
        SelectedMore(plan, ci);
        var next;
        next, did := FinishComponent(ci, hs, did);
        if next.Err? { return Err(next.error); }
        hs, ci := next.value, ci + 1;
      }
      SelectedBounded(plan);
      StillWellTyped(hs, did);
      return Ok(hs);
    }
  }

  /** Every table that the scan selects has been made for the tokens. */
  ghost predicate TablesFor(plan: Plan, hs: seq<HuffTable>, toks: seq<Token>) {
    |hs| == 2 * NUM_HUFF_TBLS && forall t: nat :: t < |hs| && Selected(plan, t) ==> TableFor(hs[t], toks, t)
  }

  lemma NoneSelected(plan: Plan)
    ensures forall t: nat :: !SelectedUpTo(plan, t, 0)
  {
  }

  lemma ThisOne(plan: Plan, t: nat, n: nat)
    requires n < |plan.comps| && SelectedBy(plan, t, n)
    ensures SelectedUpTo(plan, t, n + 1) && Selected(plan, t)
  {
    hide SelectedBy;
  }

  lemma SelectedMore(plan: Plan, n: nat)
    requires n < |plan.comps|
    ensures forall t: nat :: SelectedUpTo(plan, t, n + 1) <==>
                        SelectedUpTo(plan, t, n) || plan.comps[n].DcT() == t || plan.comps[n].AcT() == t
    ensures Selected(plan, plan.comps[n].DcT()) && Selected(plan, plan.comps[n].AcT())
  {
    hide SelectedUpTo;
    forall t: nat ensures SelectedUpTo(plan, t, n + 1) <==> SelectedUpTo(plan, t, n) || SelectedBy(plan, t, n) { OneMore(plan, n, t); }
    ThisOne(plan, plan.comps[n].DcT(), n);
    ThisOne(plan, plan.comps[n].AcT(), n);
  }

  lemma OneMore(plan: Plan, n: nat, t: nat)
    requires n < |plan.comps|
    ensures SelectedUpTo(plan, t, n + 1) <==> SelectedUpTo(plan, t, n) || SelectedBy(plan, t, n)
  {
    hide SelectedBy;
    if SelectedUpTo(plan, t, n) {
      var ci :| 0 <= ci < n && SelectedBy(plan, t, ci);
      assert ci < n + 1 && SelectedBy(plan, t, ci);
    }
    if SelectedUpTo(plan, t, n + 1) {
      var ci :| 0 <= ci < n + 1 && SelectedBy(plan, t, ci);
      assert ci == n || (ci < n && SelectedBy(plan, t, ci));
    }
  }

  lemma SelectedBounded(plan: Plan)
    requires plan.Valid()
    ensures forall t: nat :: Selected(plan, t) ==> t < 2 * NUM_HUFF_TBLS
  {
    forall t: nat | Selected(plan, t) ensures t < 2 * NUM_HUFF_TBLS {
      var ci :| 0 <= ci < |plan.comps| && SelectedBy(plan, t, ci);
      assert plan.comps[ci] in plan.comps;
    }
  }

  /** Some component of the scan uses table `t`. */
  ghost predicate Selected(plan: Plan, t: nat) { SelectedUpTo(plan, t, |plan.comps|) }

  ghost predicate SelectedUpTo(plan: Plan, t: nat, n: nat)
    requires n <= |plan.comps|
  {
    exists ci :: 0 <= ci < n && SelectedBy(plan, t, ci)
  }

  predicate SelectedBy(plan: Plan, t: nat, ci: nat)
    requires ci < |plan.comps|
  {
    plan.comps[ci].DcT() == t || plan.comps[ci].AcT() == t
  }

  lemma SelectedUsed(plan: Plan, toks: seq<Token>, ci: nat)
    requires plan.Valid() && plan.Covered() && GoodTokens(plan, toks, true) && ci < |plan.comps|
    ensures UsesTable(toks, plan.comps[ci].DcT()) && UsesTable(toks, plan.comps[ci].AcT())
  {
    hide UsesTable, AllCodable;
    assert ci in plan.membership;
    var b :| 0 <= b < |plan.membership| && plan.membership[b] == ci;
    assert UsesBoth(plan, toks, b);
  }

  lemma GatherStep(plan: Plan, segs: seq<seq<Mcu>>, cur: seq<Mcu>, mcu: Mcu)
    requires plan.Valid() && GoodMcus(plan, cur) && (forall seg <- segs :: GoodMcus(plan, seg)) && GoodMcu(plan, mcu)
    requires GoodTokens(plan, ScanTokens(plan, segs, cur), segs != [] || cur != [])
    requires McuInRange(plan, mcu, |mcu|, SegDc(plan, cur))
    ensures GoodMcus(plan, cur + [mcu]) && SegDc(plan, cur + [mcu]) == DcAfter(plan, mcu, |mcu|, SegDc(plan, cur))
    ensures ScanTokens(plan, segs, cur + [mcu]) == ScanTokens(plan, segs, cur) + McuTokens(plan, mcu, |mcu|, SegDc(plan, cur))
    ensures GoodTokens(plan, ScanTokens(plan, segs, cur + [mcu]), true)
  {
    hide McuInRange, SegTokens, SegDc, SegsTokens, McuTokens, DcAfter, GoodMcus, GoodTokens;
    SegSnoc(plan, cur, mcu);
    GoodGrows(plan, ScanTokens(plan, segs, cur), segs != [] || cur != [], mcu, SegDc(plan, cur));
    Seqs.Assoc(SegsTokens(plan, segs), SegTokens(plan, cur), McuTokens(plan, mcu, |mcu|, SegDc(plan, cur)));
  }

  lemma FailureOutOfRange(st: Status, inRange: bool)
    requires Explained(st, inRange, true)
    ensures st.Success? <==> inRange
  {
  }

  lemma NothingYet(plan: Plan, c: seq<seq<nat>>)
    requires plan.Valid() && |c| == 2 * NUM_HUFF_TBLS
    requires forall t :: 0 <= t < |c| ==> |c[t]| == 257 && forall s :: 0 <= s < 257 ==> c[t][s] == 0
    ensures AllTallied(c, []) && ScanTokens(plan, [], []) == [] && SegDc(plan, []) == NoDc()
  {
    CountsStart(c);
    assert AllOf([]) + [] == [];
  }

  lemma SegClosedTokens(plan: Plan, segs: seq<seq<Mcu>>, cur: seq<Mcu>)
    requires plan.Valid() && GoodMcus(plan, cur) && forall seg <- segs :: GoodMcus(plan, seg)
    ensures forall seg <- segs + [cur] :: GoodMcus(plan, seg)
    ensures GoodMcus(plan, []) && SegDc(plan, []) == NoDc()
    ensures ScanTokens(plan, segs + [cur], []) == ScanTokens(plan, segs, cur)
  {
    hide GoodMcus;
    SegEmpty(plan);
    Seqs.SnocInit(segs, cur);
  }
}
