/** A sequential scan on the decoding side: MCUs, restart intervals and suspension. */
module SeqScanDecoder {
  import opened BandDecoder
  import opened Bits
  import opened BitInput
  import opened Coefficients
  import opened HuffDecoding
  import opened HuffTables
  import opened Restarts
  import opened RunLength
  import opened Scans
  import opened Segments
  import opened SeqDecoder
  import opened SeqScanEncoder
  import Seqs

  // ----- What an MCU means -----

  /** AC coefficients are written to AC places only. */
  predicate Inside(code: BlockCode) { forall w <- code.ac.writes :: 1 <= w.0 < 64 }

  predicate AllInside(cs: seq<BlockCode>) { forall b :: 0 <= b < |cs| ==> Inside(cs[b]) }

  ghost predicate BlockTables(plan: Plan, hs: seq<HuffTable>, b: nat)
    requires plan.Valid() && |hs| == 2 * NUM_HUFF_TBLS && b < |plan.membership|
  {
    DcTable(hs[plan.CompOf(b).DcT()]) && Decodable(hs[plan.CompOf(b).AcT()])
  }

  /** All tables that the scan uses are present. */
  ghost predicate Readable(plan: Plan, hs: seq<HuffTable>) {
    && plan.Valid() && |hs| == 2 * NUM_HUFF_TBLS
    && forall b :: 0 <= b < |plan.membership| ==> BlockTables(plan, hs, b)
  }

  /** Their derived tables have been made. */
  ghost predicate Ready(plan: Plan, hs: seq<HuffTable>, ds: seq<DecTable>) {
    && Readable(plan, hs) && |ds| == |hs|
    && forall b :: 0 <= b < |plan.membership| ==>
         var c := plan.CompOf(b); Derived(hs[c.DcT()], ds[c.DcT()]) && Derived(hs[c.AcT()], ds[c.AcT()])
  }

  ghost function CodeOfBlock(plan: Plan, hs: seq<HuffTable>, data: seq<bool>, n: nat, b: nat): (c: BlockCode)
    requires Readable(plan, hs) && b < |plan.membership|
    ensures Inside(c)
  {
    assert BlockTables(plan, hs, b);
    ReadBlock(hs[plan.CompOf(b).DcT()], hs[plan.CompOf(b).AcT()], data, n)
  }

  /** The first `b` blocks of the MCU at bit `n`. */
  ghost function Codes(plan: Plan, hs: seq<HuffTable>, data: seq<bool>, n: nat, b: nat): (cs: seq<BlockCode>)
    requires Readable(plan, hs) && b <= |plan.membership|
    ensures |cs| == b && AllInside(cs)
    decreases b, data
  {
    hide Readable, CodeOfBlock;
    if b == 0 then [] else
      var cs := Codes(plan, hs, data, n, b - 1);
      cs + [CodeOfBlock(plan, hs, data, EndOf(cs, n), b - 1)]
  }

  /** Where they end. */
  function EndOf(cs: seq<BlockCode>, n: nat): (m: nat) { if cs == [] then n else cs[|cs| - 1].ac.end }

  /** The DC predictions after the first `b` blocks. */
  function PredAfter(plan: Plan, needs: seq<Need>, cs: seq<BlockCode>, lastDc: seq<int>, b: nat): (l: seq<int>)
    requires plan.Valid() && |needs| == |plan.membership| && b <= |cs| <= |needs| && |lastDc| == MAX_COMPS_IN_SCAN
    ensures |l| == MAX_COMPS_IN_SCAN
    decreases b, lastDc
  {
    if b == 0 then lastDc else
      var l := PredAfter(plan, needs, cs, lastDc, b - 1);
      l[plan.Ci(b - 1) := NextPred(cs[b - 1], needs[b - 1], l[plan.Ci(b - 1)])]
  }

  /** What block `b` becomes. */
  function BlockResult(plan: Plan, needs: seq<Need>, cs: seq<BlockCode>, lastDc: seq<int>, b: nat, z: seq<int>): (z': seq<int>)
    requires plan.Valid() && |needs| == |plan.membership| && b < |cs| <= |needs| && |lastDc| == MAX_COMPS_IN_SCAN
    requires |z| == 64 && Inside(cs[b])
    ensures |z'| == 64
  {
    FilledBlock(cs[b], needs[b], PredAfter(plan, needs, cs, lastDc, b)[plan.Ci(b)], z)
  }

  lemma CodesStep(plan: Plan, hs: seq<HuffTable>, data: seq<bool>, n: nat, b: nat)
    requires Readable(plan, hs) && b < |plan.membership|
    ensures var cs, cs' := Codes(plan, hs, data, n, b), Codes(plan, hs, data, n, b + 1);
            cs' == cs + [CodeOfBlock(plan, hs, data, EndOf(cs, n), b)] && EndOf(cs', n) == cs'[b].ac.end
  {
  }

  lemma {:induction false} CodesPrefix(plan: Plan, hs: seq<HuffTable>, data: seq<bool>, n: nat, b: nat, b': nat)
    requires Readable(plan, hs) && b <= b' <= |plan.membership|
    ensures Codes(plan, hs, data, n, b) == Codes(plan, hs, data, n, b')[..b]
    decreases b'
  {
    hide *;
    if b == b' {
      Seqs.TakeAll(Codes(plan, hs, data, n, b));
    } else {
      CodesPrefix(plan, hs, data, n, b, b' - 1);
      CodesStep(plan, hs, data, n, b' - 1);
      var d := Codes(plan, hs, data, n, b' - 1);
      Seqs.PrefixOfSnoc(d, CodeOfBlock(plan, hs, data, EndOf(d, n), b' - 1), b);
    }
  }

  lemma {:induction false} PredOfPrefix(plan: Plan, needs: seq<Need>, cs: seq<BlockCode>, lastDc: seq<int>, b: nat, m: nat)
    requires plan.Valid() && |needs| == |plan.membership| && b <= m <= |cs| <= |needs| && |lastDc| == MAX_COMPS_IN_SCAN
    ensures PredAfter(plan, needs, cs[..m], lastDc, b) == PredAfter(plan, needs, cs, lastDc, b)
    decreases b
  {
    if b > 0 { PredOfPrefix(plan, needs, cs, lastDc, b - 1, m); }
  }

  /** Filling a block that has been filled changes nothing. */
  lemma FilledTwice(code: BlockCode, need: Need, pred: int, z: seq<int>)
    requires |z| == 64 && Inside(code)
    ensures FilledBlock(code, need, pred, FilledBlock(code, need, pred, z)) == FilledBlock(code, need, pred, z)
  {
    hide Apply, ToShort;
    var z1 := if need.dc then z[0 := ToShort(pred + code.diff)] else z;
    var z' := FilledBlock(code, need, pred, z);
    if need.ac {
      assert code.ac.writes + [] == code.ac.writes;
      Rewrite(z1, code.ac.writes, [], 0);
      ApplyFrame(z1, code.ac.writes, 0);
    }
    SecondAttempt(code, need, pred, z, z');
  }

  // ----- The blocks of an MCU -----

  predicate Distinct(blocks: seq<array<int>>) {
    && (forall b :: 0 <= b < |blocks| ==> blocks[b].Length == 64)
    && (forall b, b' :: 0 <= b < b' < |blocks| ==> blocks[b] != blocks[b'])
  }

  /** The contents of the blocks in zigzag order. */
  ghost function Contents(blocks: seq<array<int>>): (zs: seq<seq<int>>)
    requires Distinct(blocks)
    reads blocks
    ensures |zs| == |blocks| && forall b :: 0 <= b < |zs| ==> |zs[b]| == 64
    ensures forall b :: 0 <= b < |zs| ==> zs[b] == Zigzag(blocks[b][..])
  {
    seq(|blocks|, b requires 0 <= b < |blocks| reads blocks => Zigzag(blocks[b][..]))
  }

  /** What the blocks become when the first `b` of them are decoded. */
  function McuResult(plan: Plan, needs: seq<Need>, cs: seq<BlockCode>, lastDc: seq<int>, zs: seq<seq<int>>, n: nat): (r: seq<seq<int>>)
    requires plan.Valid() && |needs| == |plan.membership| == |zs| && n <= |cs| <= |needs| && |lastDc| == MAX_COMPS_IN_SCAN
    requires forall z <- zs :: |z| == 64
    requires AllInside(cs)
    ensures |r| == |zs| && forall z <- r :: |z| == 64
  {
    seq(|zs|, b requires 0 <= b < |zs| => if b < n then BlockResult(plan, needs, cs, lastDc, b, zs[b]) else zs[b])
  }

  /** What was decoded before the interruption, and what was decoded in part, does not change the outcome. */
  lemma McuAgain(plan: Plan, needs: seq<Need>, cs: seq<BlockCode>, lastDc: seq<int>, zs: seq<seq<int>>, n: nat,
                 zs': seq<seq<int>>)
    requires plan.Valid() && |needs| == |plan.membership| == |zs| == |zs'| == |cs| && n < |cs| && |lastDc| == MAX_COMPS_IN_SCAN
    requires (forall z <- zs :: |z| == 64) && forall z <- zs' :: |z| == 64
    requires AllInside(cs)
    requires var r := McuResult(plan, needs, cs, lastDc, zs, n);
             && (forall b :: 0 <= b < |cs| && b != n ==> zs'[b] == r[b])
             && BlockResult(plan, needs, cs, lastDc, n, zs'[n]) == BlockResult(plan, needs, cs, lastDc, n, zs[n])
    ensures McuResult(plan, needs, cs, lastDc, zs', |cs|) == McuResult(plan, needs, cs, lastDc, zs, |cs|)
  {
    hide FilledBlock, PredAfter;
    var r, r' := McuResult(plan, needs, cs, lastDc, zs, |cs|), McuResult(plan, needs, cs, lastDc, zs', |cs|);
    forall b | 0 <= b < |cs| ensures r'[b] == r[b] {
      if b < n { FilledTwice(cs[b], needs[b], PredAfter(plan, needs, cs, lastDc, b)[plan.Ci(b)], zs[b]); }
    }
  }

  datatype McuOutcome = Decoded | Suspended | NeedsResync

  /** Everything the decoding of the next MCU depends on. */
  datatype Start = Start(data: seq<bool>, n: nat, pred: seq<int>, skip: bool)

  ghost function McuCodes(plan: Plan, hs: seq<HuffTable>, s: Start): (cs: seq<BlockCode>)
    requires Readable(plan, hs)
    ensures |cs| == |plan.membership| && AllInside(cs)
  {
    Codes(plan, hs, s.data, s.n, |plan.membership|)
  }

  /** The outcome of an MCU; after a segment has run dry its blocks are left alone. */
  ghost function McuFinal(plan: Plan, hs: seq<HuffTable>, needs: seq<Need>, s: Start, zs: seq<seq<int>>): (r: seq<seq<int>>)
    requires Readable(plan, hs) && |needs| == |plan.membership| == |zs| && |s.pred| == MAX_COMPS_IN_SCAN
    requires forall z <- zs :: |z| == 64
  {
    if s.skip then zs else McuResult(plan, needs, McuCodes(plan, hs, s), s.pred, zs, |plan.membership|)
  }

  ghost function McuEnd(plan: Plan, hs: seq<HuffTable>, s: Start): (m: nat)
    requires Readable(plan, hs)
  {
    EndOf(McuCodes(plan, hs, s), s.n)
  }

  ghost function McuPred(plan: Plan, hs: seq<HuffTable>, needs: seq<Need>, s: Start): (l: seq<int>)
    requires Readable(plan, hs) && |needs| == |plan.membership| && |s.pred| == MAX_COMPS_IN_SCAN
    ensures |l| == MAX_COMPS_IN_SCAN
  {
    if s.skip then s.pred else PredAfter(plan, needs, McuCodes(plan, hs, s), s.pred, |plan.membership|)
  }
}
