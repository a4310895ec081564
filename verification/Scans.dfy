/** The layout of a scan: components, their tables, the blocks of an MCU, and the restart interval. */
module Scans {
  import opened Bits
  import opened Segments
  import opened BitOutput
  import Seqs

  const NUM_HUFF_TBLS: nat := 4
  const MAX_COMPS_IN_SCAN := 4
  const MAX_BLOCKS_IN_MCU := 10

  /** The table numbers of a component of the scan. */
  datatype Component = Component(dcTbl: nat, acTbl: nat) {
    predicate Valid() { dcTbl < NUM_HUFF_TBLS && acTbl < NUM_HUFF_TBLS }

    /** DC and AC tables share one numbering: the AC tables come after the DC tables. */
    function DcT(): nat { dcTbl }
    function AcT(): nat { NUM_HUFF_TBLS + acTbl }
  }

  /** membership[b] is the component of block `b` of an MCU. */
  datatype Plan = Plan(comps: seq<Component>, membership: seq<nat>, restartInterval: nat) {
    predicate Valid() {
      && 1 <= |comps| <= MAX_COMPS_IN_SCAN && |membership| <= MAX_BLOCKS_IN_MCU && restartInterval <= 65535
      && (forall c <- comps :: c.Valid())
      && (forall ci <- membership :: ci < |comps|)
    }

    /** Every component of the scan has a block in the MCU. */
    ghost predicate Covered() { forall ci :: 0 <= ci < |comps| ==> ci in membership }

    /** The component of block `b`. */
    function Ci(b: nat): (ci: nat)
      requires Valid() && b < |membership|
      ensures ci < |comps| <= MAX_COMPS_IN_SCAN
    {
      assert membership[b] in membership;
      membership[b]
    }

    function CompOf(b: nat): (c: Component)
      requires Valid() && b < |membership|
      ensures c.Valid()
    {
      comps[Ci(b)]
    }
  }

  type Mcu = seq<seq<int>>

  /** One block of 64 coefficients for every entry of the membership list. */
  predicate GoodMcu(plan: Plan, mcu: Mcu) {
    |mcu| == |plan.membership| && forall block <- mcu :: |block| == 64
  }

  predicate GoodMcus(plan: Plan, mcus: seq<Mcu>) { forall mcu <- mcus :: GoodMcu(plan, mcu) }

  /** Where restarts fall: `segs` are the finished restart intervals, `cur` the MCUs of the current one. */
  ghost predicate Intervals(ri: nat, segs: seq<seq<Mcu>>, cur: seq<Mcu>) {
    if ri == 0 then segs == [] else |cur| <= ri && forall seg <- segs :: |seg| == ri
  }

  /** The finished restart intervals and the current one after the given MCUs. */
  function Split(mcus: seq<Mcu>, ri: nat): (r: (seq<seq<Mcu>>, seq<Mcu>))
    ensures Intervals(ri, r.0, r.1) && (mcus == [] <==> r.1 == []) && (mcus == [] ==> r.0 == [])
  {
    if mcus == [] then ([], []) else
      var (segs, cur) := Split(mcus[..|mcus| - 1], ri);
      var mcu := mcus[|mcus| - 1];
      if ri > 0 && |cur| == ri then (segs + [cur], [mcu]) else (segs, cur + [mcu])
  }

  lemma SplitNext(mcus: seq<Mcu>, ri: nat, i: nat)
    requires i < |mcus|
    ensures var (segs, cur) := Split(mcus[..i], ri);
            Split(mcus[..i + 1], ri) == if ri > 0 && |cur| == ri then (segs + [cur], [mcus[i]]) else (segs, cur + [mcus[i]])
  {
    assert mcus[..i + 1][..i] == mcus[..i];
  }

  /** All restart intervals, the last one included. */
  function AllSegs(mcus: seq<Mcu>, ri: nat): (all: seq<seq<Mcu>>)
    ensures all != []
  {
    Split(mcus, ri).0 + [Split(mcus, ri).1]
  }

  /** What has been laid out stays where it is. */
  lemma {:induction false} SplitPrefix(mcus: seq<Mcu>, ri: nat, i: nat)
    requires i <= |mcus|
    ensures var (segs, cur) := Split(mcus[..i], ri);
            var all := AllSegs(mcus, ri);
            |segs| < |all| && segs == all[..|segs|] && cur <= all[|segs|]
  {
    if i == |mcus| {
      assert mcus[..i] == mcus;
    } else {
      hide *;
      var m := |mcus| - 1;
      SplitPrefix(mcus[..m], ri, i);
      Seqs.TakeOfTake(mcus, i, m);
      SplitLast(mcus, ri);
      StaysPut(Split(mcus[..m], ri), mcus[m], ri, Split(mcus[..i], ri));
    }
  }

  lemma SplitLast(mcus: seq<Mcu>, ri: nat)
    requires mcus != []
    ensures var m := |mcus| - 1;
            var (segs, cur) := Split(mcus[..m], ri);
            && AllSegs(mcus[..m], ri) == segs + [cur]
            && AllSegs(mcus, ri) == if ri > 0 && |cur| == ri then (segs + [cur]) + [[mcus[m]]] else segs + [cur + [mcus[m]]]
  {
    hide Intervals;
  }

  lemma StaysPut(before: (seq<seq<Mcu>>, seq<Mcu>), mcu: Mcu, ri: nat, part: (seq<seq<Mcu>>, seq<Mcu>))
    requires var all0 := before.0 + [before.1];
             |part.0| < |all0| && part.0 == all0[..|part.0|] && part.1 <= all0[|part.0|]
    ensures var all := if ri > 0 && |before.1| == ri then (before.0 + [before.1]) + [[mcu]] else before.0 + [before.1 + [mcu]];
            |part.0| < |all| && part.0 == all[..|part.0|] && part.1 <= all[|part.0|]
  {
    hide Intervals, Split;
  }

  /** Every MCU is in some restart interval. */
  lemma {:induction false} SplitMembers(plan: Plan, mcus: seq<Mcu>, ri: nat)
    requires GoodMcus(plan, mcus)
    ensures var (segs, cur) := Split(mcus, ri); GoodMcus(plan, cur) && forall seg <- segs :: GoodMcus(plan, seg)
  {
    hide Intervals, GoodMcu;
    if mcus != [] {
      var m := |mcus| - 1;
      assert mcus[m] in mcus;
      SplitMembers(plan, mcus[..m], ri);
    }
  }

  /** The marker that ends the i-th restart interval. */
  function RstMarker(i: nat): (m: nat)
    ensures IsMarker(m) && RST0 <= m < RST0 + 8
  {
    RST0 + i % 8
  }
}
