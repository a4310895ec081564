/** A progressive scan: its parameters, and the tokens that its blocks call for. */
module ProgScan {
  import opened AcRefine
  import opened Bits
  import opened Coefficients
  import opened EobRuns
  import opened RunLength
  import opened Scans
  import opened SeqEncoder
  import opened SeqScanEncoder
  import opened Tokens
  import Seqs

  /** The four MCU routines that `start_pass_phuff` and `start_pass_phuff_decoder` choose from. */
  datatype Mode = DcFirst | AcFirst | DcRefine | AcRefine

  /** The spectral band Ss..Se and the bit positions Ah, Al of a scan. */
  datatype Progress = Progress(plan: Plan, ss: nat, se: nat, ah: nat, al: nat) {
    ghost predicate Valid() {
      && plan.Valid() && al <= 13 && (ah == 0 || ah == al + 1)
      && if ss == 0 then se == 0
         else ss <= se < DCTSIZE2 && |plan.comps| == 1 && plan.membership == [0]
    }

    function Mode(): (m: Mode) {
      if ah == 0 then (if ss == 0 then DcFirst else AcFirst) else if ss == 0 then DcRefine else AcRefine
    }

    /** The table of an AC scan. */
    function AcT(): (t: nat)
      requires Valid() && ss > 0
      ensures NUM_HUFF_TBLS <= t < 2 * NUM_HUFF_TBLS
    {
      assert plan.comps[0] in plan.comps;
      plan.comps[0].AcT()
    }
  }

  // ----- DC scans -----

  /** The DC coefficient after the point transform. */
  function DcValue(block: seq<int>, al: nat): (v: int)
    requires |block| == 64
  {
    block[0] / Pow2(al)
  }

  /** The DC predictions after the first `b` blocks of an MCU. */
  function DcPreds(p: Progress, mcu: Mcu, b: nat, lastDc: seq<int>): (l: seq<int>)
    requires p.plan.Valid() && GoodMcu(p.plan, mcu) && b <= |mcu| && |lastDc| == MAX_COMPS_IN_SCAN
    ensures |l| == MAX_COMPS_IN_SCAN
    decreases b, mcu
  {
    if b == 0 then lastDc else DcPreds(p, mcu, b - 1, lastDc)[p.plan.Ci(b - 1) := DcValue(mcu[b - 1], p.al)]
  }

  function DcDiff(p: Progress, mcu: Mcu, b: nat, lastDc: seq<int>): (d: int)
    requires p.plan.Valid() && GoodMcu(p.plan, mcu) && b < |mcu| && |lastDc| == MAX_COMPS_IN_SCAN
  {
    DcValue(mcu[b], p.al) - DcPreds(p, mcu, b, lastDc)[p.plan.Ci(b)]
  }

  function DcBlockTokens(p: Progress, mcu: Mcu, b: nat, lastDc: seq<int>): (toks: seq<Token>)
    requires p.plan.Valid() && GoodMcu(p.plan, mcu) && b < |mcu| && |lastDc| == MAX_COMPS_IN_SCAN
  {
    if p.ah == 0 then DcTokens(p.plan.CompOf(b).DcT(), DcDiff(p, mcu, b, lastDc))
    else [Raw(DcValue(mcu[b], p.al), 1)]
  }

  function DcMcuTokens(p: Progress, mcu: Mcu, b: nat, lastDc: seq<int>): (toks: seq<Token>)
    requires p.plan.Valid() && GoodMcu(p.plan, mcu) && b <= |mcu| && |lastDc| == MAX_COMPS_IN_SCAN
    decreases b, mcu
  {
    if b == 0 then [] else DcMcuTokens(p, mcu, b - 1, lastDc) + DcBlockTokens(p, mcu, b - 1, lastDc)
  }

  /** The predictions after the MCUs of a restart interval. */
  function DcPredsAll(p: Progress, mcus: seq<Mcu>): (l: seq<int>)
    requires p.plan.Valid() && GoodMcus(p.plan, mcus)
    ensures |l| == MAX_COMPS_IN_SCAN
  {
    if mcus == [] || p.ah != 0 then NoDc() else
      var m := |mcus| - 1;
      DcPreds(p, mcus[m], |mcus[m]|, DcPredsAll(p, mcus[..m]))
  }

  function DcTokensAll(p: Progress, mcus: seq<Mcu>): (toks: seq<Token>)
    requires p.plan.Valid() && GoodMcus(p.plan, mcus)
  {
    if mcus == [] then [] else
      var m := |mcus| - 1;
      DcTokensAll(p, mcus[..m]) + DcMcuTokens(p, mcus[m], |mcus[m]|, DcPredsAll(p, mcus[..m]))
  }

  lemma DcSnoc(p: Progress, mcus: seq<Mcu>, mcu: Mcu)
    requires p.plan.Valid() && GoodMcus(p.plan, mcus) && GoodMcu(p.plan, mcu)
    ensures GoodMcus(p.plan, mcus + [mcu])
    ensures DcPredsAll(p, mcus + [mcu]) == if p.ah != 0 then NoDc() else DcPreds(p, mcu, |mcu|, DcPredsAll(p, mcus))
    ensures DcTokensAll(p, mcus + [mcu]) == DcTokensAll(p, mcus) + DcMcuTokens(p, mcu, |mcu|, DcPredsAll(p, mcus))
  {
    hide GoodMcu;
    Seqs.SnocInit(mcus, mcu);
  }

  // ----- AC scans -----

  /** The coefficients after the point transform. */
  function Shifted(z: seq<int>, al: nat): (v: seq<int>)
    ensures |v| == |z| && forall k :: 0 <= k < |z| ==> v[k] == Shift(z[k], al)
  {
    seq(|z|, k requires 0 <= k < |z| => Shift(z[k], al))
  }

  /** How the band of a block is coded. */
  function Coding(p: Progress, z: seq<int>): (c: BandCoding)
    requires p.Valid() && p.ss > 0 && |z| == 64
  {
    if p.ah == 0 then
      var v := Shifted(z, p.al);
      BandCoding(RunTokens(v, p.AcT(), p.ss, p.se), [], RunEnd(v, p.ss, p.se) <= p.se)
    else
      var m := Mags(z, p.al);
      var e := RefineEnd(m, p.ss, p.se);
      BandCoding(RefineTokens(m, z, p.AcT(), p.ss, p.se), Corrections(m, e, p.se + 1), e <= p.se)
  }

  lemma {:induction false} RunsSent(z: seq<int>, t: nat, k: nat, se: nat)
    requires se < |z| && k <= se + 1 && RunEnd(z, k, se) > k
    ensures RunTokens(z, t, k, se) != []
    decreases se + 1 - k
  {
    hide NumBits, ValueBits;
  }

  lemma RefinementsSent(m: seq<nat>, z: seq<int>, t: nat, g: nat, se: nat)
    requires se < |m| == |z| && g <= se + 1 && RefineEnd(m, g, se) > g
    ensures RefineTokens(m, z, t, g, se) != []
  {
  }

  lemma CodingGood(p: Progress, z: seq<int>)
    requires p.Valid() && p.ss > 0 && |z| == 64
    ensures Coding(p, z).Good()
  {
    hide RunTokens, RunEnd, RefineTokens, RefineEnd, Corrections, NumZeros;
    if p.ah == 0 {
      var v := Shifted(z, p.al);
      if RunEnd(v, p.ss, p.se) > p.ss { RunsSent(v, p.AcT(), p.ss, p.se); }
    } else {
      var m := Mags(z, p.al);
      var e := RefineEnd(m, p.ss, p.se);
      if e > p.ss { RefinementsSent(m, z, p.AcT(), p.ss, p.se); }
      CorrectionsSmall(m, e, p.se + 1);
      if e > p.se { NoCorrections(m, e); }
    }
  }

  lemma NoCorrections(m: seq<nat>, e: nat)
    requires e <= |m|
    ensures Corrections(m, e, e) == []
  {
  }

  lemma OneBlock(p: Progress, mcus: seq<Mcu>, i: nat)
    requires p.Valid() && p.ss > 0 && GoodMcus(p.plan, mcus) && i < |mcus|
    ensures |mcus[i]| == 1 && |mcus[i][0]| == 64
  {
    assert mcus[i] in mcus;
    assert mcus[i][0] in mcus[i];
  }

  /** The codings of the blocks of a restart interval; an AC scan has one block to an MCU. */
  function Codings(p: Progress, mcus: seq<Mcu>): (cs: seq<BandCoding>)
    requires p.Valid() && p.ss > 0 && GoodMcus(p.plan, mcus)
    ensures |cs| == |mcus|
    ensures forall i :: 0 <= i < |mcus| ==> |mcus[i]| == 1 && |mcus[i][0]| == 64 && cs[i] == Coding(p, Zigzag(mcus[i][0]))
  {
    assert forall i :: 0 <= i < |mcus| ==> |mcus[i]| == 1 && |mcus[i][0]| == 64 by {
      forall i | 0 <= i < |mcus| ensures |mcus[i]| == 1 && |mcus[i][0]| == 64 { OneBlock(p, mcus, i); }
    }
    seq(|mcus|, i requires 0 <= i < |mcus| => Coding(p, Zigzag(mcus[i][0])))
  }

  lemma CodingsSnoc(p: Progress, mcus: seq<Mcu>, mcu: Mcu)
    requires p.Valid() && p.ss > 0 && GoodMcus(p.plan, mcus) && GoodMcu(p.plan, mcu)
    ensures GoodMcus(p.plan, mcus + [mcu]) && |mcu| == 1 && |mcu[0]| == 64
    ensures Codings(p, mcus + [mcu]) == Codings(p, mcus) + [Coding(p, Zigzag(mcu[0]))]
  {
    hide Coding, Zigzag;
  }

  lemma CodingsGood(p: Progress, mcus: seq<Mcu>)
    requires p.Valid() && p.ss > 0 && GoodMcus(p.plan, mcus)
    ensures forall c <- Codings(p, mcus) :: c.Good()
  {
    hide Coding, BandCoding.Good, GoodMcu, Zigzag;
    forall c | c in Codings(p, mcus) ensures c.Good() {
      var i :| 0 <= i < |mcus| && Codings(p, mcus)[i] == c;
      CodingGood(p, Zigzag(mcus[i][0]));
    }
  }

  // ----- Any scan -----

  /** What has been emitted for a restart interval so far. */
  function SoFar(p: Progress, mcus: seq<Mcu>): (toks: seq<Token>)
    requires p.Valid() && GoodMcus(p.plan, mcus)
  {
    if p.ss == 0 then DcTokensAll(p, mcus) else Emitted(p.AcT(), AbsorbAll(Codings(p, mcus)))
  }

  /** All tokens of a restart interval. */
  function Whole(p: Progress, mcus: seq<Mcu>): (toks: seq<Token>)
    requires p.Valid() && GoodMcus(p.plan, mcus)
  {
    if p.ss == 0 then DcTokensAll(p, mcus) else Emitted(p.AcT(), Flush(AbsorbAll(Codings(p, mcus))))
  }

  /** The coefficients of an MCU are within what the coder can represent. */
  predicate ProgInRange(p: Progress, mcu: Mcu, n: nat, lastDc: seq<int>)
    requires p.Valid() && GoodMcu(p.plan, mcu) && n <= |mcu| && |lastDc| == MAX_COMPS_IN_SCAN
  {
    p.ah == 0 ==> forall b :: 0 <= b < n ==>
      if p.ss == 0 then DcInRange(DcDiff(p, mcu, b, lastDc)) else BandInRange(p, Zigzag(mcu[b]), p.se + 1)
  }

  predicate BandInRange(p: Progress, z: seq<int>, n: nat)
    requires |z| == 64 && n <= 64
  {
    forall k :: p.ss <= k < n ==> NumBits(Abs(Shift(z[k], p.al))) <= MAX_COEF_BITS
  }
}
