/** A sequential scan: `encode_mcu_huff`, `emit_restart`, `finish_pass_huff`. */
module SeqScanEncoder {
  import opened Bits
  import opened BitOutput
  import opened Coefficients
  import opened HuffTables
  import opened Scans
  import opened Segments
  import opened SeqEncoder
  import opened TokenOutput
  import opened Tokens
  import Seqs

  // ----- Specification -----

  function NoDc(): (l: seq<int>)
    ensures |l| == MAX_COMPS_IN_SCAN
  {
    [0, 0, 0, 0]
  }

  /** The DC predictions after the first `b` blocks of an MCU. */
  function DcAfter(plan: Plan, mcu: Mcu, b: nat, lastDc: seq<int>): (l: seq<int>)
    requires plan.Valid() && GoodMcu(plan, mcu) && b <= |mcu| && |lastDc| == MAX_COMPS_IN_SCAN
    ensures |l| == MAX_COMPS_IN_SCAN
    decreases b, mcu
  {
    if b == 0 then lastDc else DcAfter(plan, mcu, b - 1, lastDc)[plan.Ci(b - 1) := Zigzag(mcu[b - 1])[0]]
  }

  /** The tokens of block `b`, given the predictions at the start of the MCU. */
  function McuBlockTokens(plan: Plan, mcu: Mcu, b: nat, lastDc: seq<int>): (toks: seq<Token>)
    requires plan.Valid() && GoodMcu(plan, mcu) && b < |mcu| && |lastDc| == MAX_COMPS_IN_SCAN
  {
    var c := plan.CompOf(b);
    BlockTokens(c.DcT(), c.AcT(), Zigzag(mcu[b]), DcAfter(plan, mcu, b, lastDc)[plan.Ci(b)])
  }

  /** The tokens of the first `b` blocks of an MCU. */
  function McuTokens(plan: Plan, mcu: Mcu, b: nat, lastDc: seq<int>): (toks: seq<Token>)
    requires plan.Valid() && GoodMcu(plan, mcu) && b <= |mcu| && |lastDc| == MAX_COMPS_IN_SCAN
    decreases b, mcu
  {
    if b == 0 then [] else McuTokens(plan, mcu, b - 1, lastDc) + McuBlockTokens(plan, mcu, b - 1, lastDc)
  }

  /** The predictions after the MCUs of a restart interval. */
  function SegDc(plan: Plan, mcus: seq<Mcu>): (l: seq<int>)
    requires plan.Valid() && GoodMcus(plan, mcus)
    ensures |l| == MAX_COMPS_IN_SCAN
  {
    if mcus == [] then NoDc() else
      var m := |mcus| - 1;
      DcAfter(plan, mcus[m], |mcus[m]|, SegDc(plan, mcus[..m]))
  }

  /** The tokens of the MCUs of a restart interval. */
  function SegTokens(plan: Plan, mcus: seq<Mcu>): (toks: seq<Token>)
    requires plan.Valid() && GoodMcus(plan, mcus)
  {
    if mcus == [] then [] else
      var m := |mcus| - 1;
      SegTokens(plan, mcus[..m]) + McuTokens(plan, mcus[m], |mcus[m]|, SegDc(plan, mcus[..m]))
  }

  lemma SegSnoc(plan: Plan, mcus: seq<Mcu>, mcu: Mcu)
    requires plan.Valid() && GoodMcus(plan, mcus) && GoodMcu(plan, mcu)
    ensures GoodMcus(plan, mcus + [mcu])
    ensures SegDc(plan, mcus + [mcu]) == DcAfter(plan, mcu, |mcu|, SegDc(plan, mcus))
    ensures SegTokens(plan, mcus + [mcu]) == SegTokens(plan, mcus) + McuTokens(plan, mcu, |mcu|, SegDc(plan, mcus))
  {
    hide GoodMcu;
    Seqs.SnocInit(mcus, mcu);
  }

  predicate McuInRange(plan: Plan, mcu: Mcu, n: nat, lastDc: seq<int>)
    requires plan.Valid() && GoodMcu(plan, mcu) && n <= |mcu| && |lastDc| == MAX_COMPS_IN_SCAN
  {
    forall b :: 0 <= b < n ==> InRange(Zigzag(mcu[b]), DcAfter(plan, mcu, b, lastDc)[plan.Ci(b)])
  }

  /** A finished segment of the stream holds the tokens of a restart interval, completed with one-bits. */
  ghost predicate SegmentHolds(plan: Plan, ets: seq<EncTable>, bytes: seq<nat>, mcus: seq<Mcu>) {
    plan.Valid() && GoodMcus(plan, mcus) && TokenSegment(ets, bytes, SegTokens(plan, mcus))
  }

  /** The finished segments, each with its restart marker. */
  ghost predicate SegmentsHold(plan: Plan, ets: seq<EncTable>, done: seq<(seq<nat>, nat)>, segs: seq<seq<Mcu>>) {
    && |done| == |segs|
    && forall i :: 0 <= i < |segs| ==> SegmentHolds(plan, ets, done[i].0, segs[i]) && done[i].1 == RstMarker(i)
  }

  lemma SegmentsSnoc(plan: Plan, ets: seq<EncTable>, done: seq<(seq<nat>, nat)>, segs: seq<seq<Mcu>>,
                     bytes: seq<nat>, mcus: seq<Mcu>)
    requires SegmentsHold(plan, ets, done, segs) && SegmentHolds(plan, ets, bytes, mcus)
    ensures SegmentsHold(plan, ets, done + [(bytes, RstMarker(|segs|))], segs + [mcus])
  {
    hide SegmentHolds;
  }

  // ----- Encoder -----

  class ScanEncoder {
    const plan: Plan
    const ets: seq<EncTable>          // DC tables, then AC tables
    const w: BitWriter
    var lastDc: seq<int>
    var restartsToGo: nat
    var nextRestartNum: nat
    ghost var segs: seq<seq<Mcu>>     // finished restart intervals
    ghost var cur: seq<Mcu>           // MCUs of the current one

    ghost predicate Valid()
      reads this, w
    {
      && w.Valid() && plan.Valid() && |ets| == 2 * NUM_HUFF_TBLS && AllWellFormed(ets)
      && SegmentsHold(plan, ets, w.done, segs)
      && GoodMcus(plan, cur) && Sent([], w.bits, ets, SegTokens(plan, cur)) && lastDc == SegDc(plan, cur)
      && Intervals(plan.restartInterval, segs, cur)
      && (plan.restartInterval > 0 ==>
            restartsToGo + |cur| == plan.restartInterval && nextRestartNum == |segs| % 8)
    }

    constructor (plan: Plan, ets: seq<EncTable>)
      requires plan.Valid() && |ets| == 2 * NUM_HUFF_TBLS && AllWellFormed(ets)
      ensures Valid() && fresh(this) && fresh(w) && this.plan == plan && this.ets == ets
      ensures segs == [] && cur == [] && w.out == []
    {
      this.plan, this.ets := plan, ets;
      w := new BitWriter();
      lastDc, restartsToGo, nextRestartNum := NoDc(), plan.restartInterval, 0;
      segs, cur := [], [];
      new;
      SentNothing([], ets);
    }

    /** Closes the restart interval with a marker and resets the predictions. */
    method EmitRestart()
      requires Valid() && plan.restartInterval > 0 && restartsToGo == 0
      modifies this`lastDc, this`segs, this`cur, w
      ensures w.Valid() && SegmentsHold(plan, ets, w.done, segs) && w.bits == [] && lastDc == NoDc()
      ensures segs == old(segs) + [old(cur)] && cur == [] && Intervals(plan.restartInterval, segs, cur)
    {
      hide BitWriter.Valid, SegmentsHold, Padded, Unpack, SegTokens, SegDc, TokenBits, AllCoded, RstMarker, AreBytes;
      w.FlushBits();
      ghost var bytes, bits := w.bytes, old(w.bits);
      w.EmitMarker(RstMarker(nextRestartNum));
      MarkerNumber(|segs|);
      SegmentClosed(plan, ets, bytes, bits, cur);
      SegmentsSnoc(plan, ets, old(w.done), segs, bytes, cur);
      lastDc := NoDc();
      segs, cur := segs + [cur], [];
    }

    /** Block `b` of an MCU. */
    method EncodeBlock(mcu: Mcu, b: nat, ghost dc0: seq<int>) returns (st: Status)
      requires w.Valid() && plan.Valid() && |ets| == 2 * NUM_HUFF_TBLS && AllWellFormed(ets)
      requires GoodMcu(plan, mcu) && b < |mcu| && |dc0| == MAX_COMPS_IN_SCAN && lastDc == DcAfter(plan, mcu, b, dc0)
      modifies this`lastDc, w
      ensures w.Valid() && w.done == old(w.done)
      ensures Explained(st, InRange(Zigzag(mcu[b]), DcAfter(plan, mcu, b, dc0)[plan.Ci(b)]),
                        AllCoded(ets, McuBlockTokens(plan, mcu, b, dc0)))
      ensures st.Success? ==> lastDc == DcAfter(plan, mcu, b + 1, dc0)
      ensures st.Success? ==> Sent(old(w.bits), w.bits, ets, McuBlockTokens(plan, mcu, b, dc0))
    {
      hide BitWriter.Valid, BlockTokens, InRange, AllCoded, Sent, NaturalOrder, AllWellFormed, Explained;
      var ci := plan.Ci(b);
      var c := plan.CompOf(b);
      st := EncodeOneBlock(w, ets[c.DcT()], ets[c.AcT()], mcu[b], lastDc[ci], ets, c.DcT(), c.AcT());
      FirstCoef(mcu[b]);
      lastDc := lastDc[ci := mcu[b][0]];
    }

    /** The blocks of an MCU. */
    method EncodeBlocks(mcu: Mcu) returns (st: Status)
      requires w.Valid() && plan.Valid() && |ets| == 2 * NUM_HUFF_TBLS && AllWellFormed(ets)
      requires GoodMcu(plan, mcu) && |lastDc| == MAX_COMPS_IN_SCAN
      modifies this`lastDc, w
      ensures w.Valid() && w.done == old(w.done)
      ensures Explained(st, McuInRange(plan, mcu, |mcu|, old(lastDc)), AllCoded(ets, McuTokens(plan, mcu, |mcu|, old(lastDc))))
      ensures st.Success? ==> lastDc == DcAfter(plan, mcu, |mcu|, old(lastDc))
      ensures st.Success? ==> Sent(old(w.bits), w.bits, ets, McuTokens(plan, mcu, |mcu|, old(lastDc)))
    {
      hide BitWriter.Valid, InRange, AllCoded, Sent, McuBlockTokens, AllWellFormed, Zigzag, McuTokens, McuInRange, DcAfter, Explained;
      ghost var dc0 := lastDc;
      SentNothing(w.bits, ets);
      NothingDone(plan, mcu, dc0);
      var b: nat := 0;
      while b < |plan.membership|
        modifies this`lastDc, w
        invariant 0 <= b <= |mcu| && w.Valid() && w.done == old(w.done)
        invariant lastDc == DcAfter(plan, mcu, b, dc0) && McuInRange(plan, mcu, b, dc0)
        invariant Sent(old(w.bits), w.bits, ets, McuTokens(plan, mcu, b, dc0))
      {
        ghost var before := w.bits;
        st := EncodeBlock(mcu, b, dc0);
        BlockDone(st, plan, ets, mcu, b, dc0);
        if st.Failure? { return; }
        SentJoin(old(w.bits), before, w.bits, ets, McuTokens(plan, mcu, b, dc0), McuBlockTokens(plan, mcu, b, dc0));
        b := b + 1;
      }
      SentCoded(old(w.bits), w.bits, ets, McuTokens(plan, mcu, |mcu|, dc0));
      AllDone(McuInRange(plan, mcu, |mcu|, dc0), AllCoded(ets, McuTokens(plan, mcu, |mcu|, dc0)));
      return Success;
    }

    /** The MCU itself, after the restart marker, if any. */
    method EncodeHere(mcu: Mcu) returns (st: Status)
      requires w.Valid() && plan.Valid() && |ets| == 2 * NUM_HUFF_TBLS && AllWellFormed(ets) && GoodMcu(plan, mcu)
      requires GoodMcus(plan, cur) && Sent([], w.bits, ets, SegTokens(plan, cur)) && lastDc == SegDc(plan, cur)
      modifies this`lastDc, this`cur, w
      ensures GoodMcus(plan, old(cur)) && |SegDc(plan, old(cur))| == MAX_COMPS_IN_SCAN && w.done == old(w.done)
      ensures Explained(st, McuInRange(plan, mcu, |mcu|, SegDc(plan, old(cur))),
                        AllCoded(ets, McuTokens(plan, mcu, |mcu|, SegDc(plan, old(cur)))))
      ensures st.Success? ==> w.Valid() && cur == old(cur) + [mcu] && GoodMcus(plan, cur)
      ensures st.Success? ==> Sent([], w.bits, ets, SegTokens(plan, cur)) && lastDc == SegDc(plan, cur)
    {
      hide BitWriter.Valid, SegTokens, SegDc, Sent, McuTokens, DcAfter, McuInRange, AllCoded, Explained, GoodMcu, AllWellFormed;
      ghost var before := w.bits;
      st := EncodeBlocks(mcu);
      if st.Failure? { return; }
      SegSnoc(plan, cur, mcu);
      SentJoin([], before, w.bits, ets, SegTokens(plan, cur), McuTokens(plan, mcu, |mcu|, SegDc(plan, cur)));
      cur := cur + [mcu];
    }

    /** `encode_mcu_huff`. */
    method EncodeMcu(mcu: Mcu) returns (st: Status)
      requires Valid() && GoodMcu(plan, mcu)
      modifies this, w
      ensures var restart := plan.restartInterval > 0 && |old(cur)| == plan.restartInterval;
              var dc := if restart then NoDc() else SegDc(plan, old(cur));
              && Explained(st, McuInRange(plan, mcu, |mcu|, dc), AllCoded(ets, McuTokens(plan, mcu, |mcu|, dc)))
              && (st.Success? ==>
                    && Valid()
                    && segs == (if restart then old(segs) + [old(cur)] else old(segs))
                    && cur == (if restart then [] else old(cur)) + [mcu])
    {
      hide BitWriter.Valid, SegmentsHold, SegTokens, SegDc, Sent, McuTokens, McuInRange, AllCoded, Explained, GoodMcu, GoodMcus,
           AllWellFormed;
      var restart := plan.restartInterval > 0 && restartsToGo == 0;
      if restart { EmitRestart(); SegEmpty(plan); SentNothing([], ets); }
      st := EncodeHere(mcu);
      if st.Failure? { return; }
      if plan.restartInterval > 0 {
        if restartsToGo == 0 {
          restartsToGo := plan.restartInterval;
          nextRestartNum := (nextRestartNum + 1) % 8;
        }
        restartsToGo := restartsToGo - 1;
      }
    }

    /** `finish_pass_huff`. */
    method FinishPass()
      requires Valid()
      modifies w
      ensures w.Valid() && w.putBits == 0 && SegmentsHold(plan, ets, w.done, segs)
      ensures SegmentHolds(plan, ets, w.bytes, cur)
    {
      hide BitWriter.Valid, SegmentsHold, Padded, Unpack, SegTokens, SegDc, TokenBits, AllCoded, AreBytes;
      w.FlushBits();
      SegmentClosed(plan, ets, w.bytes, old(w.bits), cur);
    }
  }

  lemma SegEmpty(plan: Plan)
    requires plan.Valid()
    ensures SegTokens(plan, []) == [] && SegDc(plan, []) == NoDc() && GoodMcus(plan, [])
  {
  }

  lemma FirstCoef(block: seq<int>)
    requires |block| == 64
    ensures Zigzag(block)[0] == block[0]
  {
  }

  lemma SegmentClosed(plan: Plan, ets: seq<EncTable>, bytes: seq<nat>, bits: seq<bool>, mcus: seq<Mcu>)
    requires plan.Valid() && GoodMcus(plan, mcus) && Sent([], bits, ets, SegTokens(plan, mcus))
    requires Unpack(bytes) == Padded(bits) && AreBytes(bytes)
    ensures SegmentHolds(plan, ets, bytes, mcus)
  {
    hide Padded, Unpack, SegTokens, TokenBits, AllCoded, AreBytes, Sent;
    ClosesSegment(ets, bytes, bits, SegTokens(plan, mcus));
  }

  lemma NothingDone(plan: Plan, mcu: Mcu, lastDc: seq<int>)
    requires plan.Valid() && GoodMcu(plan, mcu) && |lastDc| == MAX_COMPS_IN_SCAN
    ensures McuTokens(plan, mcu, 0, lastDc) == [] && DcAfter(plan, mcu, 0, lastDc) == lastDc && McuInRange(plan, mcu, 0, lastDc)
  {
  }

  lemma AllDone(inRange: bool, coded: bool)
    requires inRange && coded
    ensures Explained(Success, inRange, coded)
  {
  }

  /** A coded block extends what has been sent of its MCU; a failed one spoils the MCU. */
  lemma {:induction false} BlockDone(st: Status, plan: Plan, ets: seq<EncTable>, mcu: Mcu, b: nat, lastDc: seq<int>)
    requires plan.Valid() && GoodMcu(plan, mcu) && b < |mcu| && |lastDc| == MAX_COMPS_IN_SCAN && McuInRange(plan, mcu, b, lastDc)
    requires Explained(st, InRange(Zigzag(mcu[b]), DcAfter(plan, mcu, b, lastDc)[plan.Ci(b)]),
                       AllCoded(ets, McuBlockTokens(plan, mcu, b, lastDc)))
    ensures st.Success? ==> McuInRange(plan, mcu, b + 1, lastDc)
    ensures McuTokens(plan, mcu, b + 1, lastDc) == McuTokens(plan, mcu, b, lastDc) + McuBlockTokens(plan, mcu, b, lastDc)
    ensures st.Failure? ==> Explained(st, McuInRange(plan, mcu, |mcu|, lastDc), AllCoded(ets, McuTokens(plan, mcu, |mcu|, lastDc)))
  {
    hide BlockTokens, AllCoded, InRange, Zigzag, DcAfter, McuBlockTokens;
    BlockOfMcu(plan, ets, mcu, b, lastDc);
  }

  /** A block that cannot be coded spoils its MCU. */
  lemma {:induction false} BlockOfMcu(plan: Plan, ets: seq<EncTable>, mcu: Mcu, b: nat, lastDc: seq<int>)
    requires plan.Valid() && GoodMcu(plan, mcu) && b < |mcu| && |lastDc| == MAX_COMPS_IN_SCAN
    ensures !AllCoded(ets, McuBlockTokens(plan, mcu, b, lastDc)) ==> !AllCoded(ets, McuTokens(plan, mcu, |mcu|, lastDc))
  {
    hide BlockTokens, AllCoded;
    if AllCoded(ets, McuTokens(plan, mcu, |mcu|, lastDc)) { PrefixCoded(plan, ets, mcu, b + 1, |mcu|, lastDc); }
    BothCoded(ets, McuTokens(plan, mcu, b, lastDc), McuBlockTokens(plan, mcu, b, lastDc));
  }

  lemma {:induction false} PrefixCoded(plan: Plan, ets: seq<EncTable>, mcu: Mcu, b: nat, n: nat, lastDc: seq<int>)
    requires plan.Valid() && GoodMcu(plan, mcu) && b <= n <= |mcu| && |lastDc| == MAX_COMPS_IN_SCAN
    requires AllCoded(ets, McuTokens(plan, mcu, n, lastDc))
    ensures AllCoded(ets, McuTokens(plan, mcu, b, lastDc))
  {
    hide BlockTokens, AllCoded;
    if b < n {
      BothCoded(ets, McuTokens(plan, mcu, n - 1, lastDc), McuBlockTokens(plan, mcu, n - 1, lastDc));
      PrefixCoded(plan, ets, mcu, b, n - 1, lastDc);
    }
  }
}
