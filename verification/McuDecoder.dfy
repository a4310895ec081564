/** The decoder object: `decode_mcu`, `process_restart`, and what suspension leaves behind. */
module McuDecoder {
  import opened BandDecoder
  import opened Bits
  import opened BitInput
  import opened Coefficients
  import opened HuffDecoding
  import opened HuffTables
  import opened Restarts
  import opened RunLength
  import opened Scans
  import opened Segments
  import opened SeqDecoder
  import opened SeqScanDecoder
  import opened SeqScanEncoder

  datatype Books = Books(seg: Segment, left: nat, num: nat)

  class ScanDecoder {
    const plan: Plan
    const needs: seq<Need>
    const hs: seq<HuffTable>          // DC tables, then AC tables
    const ds: seq<DecTable>           // what has been derived from them
    const src: BitSource
    var st: BitState                  // bit-reading state at the start of the MCU
    var lastDc: seq<int>
    var restartsToGo: nat
    var nextRestartNum: nat
    ghost var n: nat                  // bits of the segment consumed

    ghost predicate Shape()
      reads this
    {
      && Ready(plan, hs, ds) && |needs| == |plan.membership| && |lastDc| == MAX_COMPS_IN_SCAN && nextRestartNum < 8
      && (plan.restartInterval > 0 ==> restartsToGo <= plan.restartInterval)
    }

    predicate AtRestart()
      reads this
    {
      plan.restartInterval > 0 && restartsToGo == 0
    }

    ghost predicate Valid()
      reads this, src
    {
      Shape() && if AtRestart() then ToMarker(src, st.pos) else src.At(st, n)
    }

    /** What the next MCU will be decoded from. */
    ghost function Next(): (s: Start)
      requires Valid()
      reads this, src
      ensures |s.pred| == MAX_COMPS_IN_SCAN
    {
      if AtRestart() then Start(Unpack(Scan(src.file, src.seg.next).data), 0, NoDc(), false)
      else Start(src.data, n, lastDc, src.insufficient)
    }

    /** The segment, the MCUs left in it and the number of the marker after it, as they will be for the next MCU. */
    ghost function Upcoming(): (u: Books)
      requires Valid()
      reads this, src
    {
      if AtRestart() then Books(Scan(src.file, src.seg.next), plan.restartInterval, (nextRestartNum + 1) % 8)
      else Books(src.seg, restartsToGo, nextRestartNum)
    }

    /** The next MCU needs more bits at once than the segment has left: the reader cannot do without meeting the marker. */
    ghost predicate Thirsty()
      reads this, src
    {
      plan.membership != [] && !src.insufficient && st.left < HUFF_LOOKAHEAD && |src.data| < n + MIN_GET_BITS
    }

    constructor (plan: Plan, needs: seq<Need>, hs: seq<HuffTable>, ds: seq<DecTable>, src: BitSource, pos: nat)
      requires Ready(plan, hs, ds) && |needs| == |plan.membership|
      requires pos <= src.avail <= |src.file| && AreBytes(src.file) && src.unreadMarker == 0 && !src.insufficient
      requires src.seg == Scan(src.file, pos) && src.data == Unpack(src.seg.data)
      ensures Valid() && !AtRestart() && fresh(this) && this.plan == plan && this.needs == needs && this.hs == hs
      ensures this.src == src && this.ds == ds && Next() == Start(src.data, 0, NoDc(), false)
      ensures restartsToGo == plan.restartInterval && nextRestartNum == 0 && Packable(st)
    {
      this.plan, this.needs, this.hs, this.ds, this.src := plan, needs, hs, ds, src;
      st, lastDc, nextRestartNum, n := BitState(pos, 0, 0), NoDc(), 0, 0;
      restartsToGo := plan.restartInterval;
      new;
      hide Ready, Scan, Unpack;
      ScanByteMarker(src.file, pos);
      StartsSegment(src, pos, 0);
    }

    /** Block `b` of the MCU that starts at bit `n`. */
    method DecodeNth(blocks: seq<array<int>>, b: nat, cur: BitState, pred: seq<int>, ghost m: nat,
                     ghost cs: seq<BlockCode>, ghost zs: seq<seq<int>>)
      returns (ok: bool, cur': BitState, pred': seq<int>)
      requires Shape() && Distinct(blocks) && |blocks| == |plan.membership| == |cs| == |zs| && b < |blocks|
      requires (forall z <- zs :: |z| == 64) && AllInside(cs)
      requires src.At(cur, m) && cs[b] == CodeOfBlock(plan, hs, src.data, m, b)
      requires pred == PredAfter(plan, needs, cs, lastDc, b)
      requires Contents(blocks) == McuResult(plan, needs, cs, lastDc, zs, b)
      modifies src`unreadMarker, src`insufficient, blocks
      ensures ok ==> src.At(cur', cs[b].ac.end) && pred' == PredAfter(plan, needs, cs, lastDc, b + 1)
      ensures ok ==> Contents(blocks) == McuResult(plan, needs, cs, lastDc, zs, b + 1)
      ensures ok && src.insufficient && !old(src.insufficient) ==> |src.data| < cs[b].ac.end
      ensures ok && cur.left < HUFF_LOOKAHEAD && src.unreadMarker == 0 ==> m + MIN_GET_BITS <= |src.data|
      ensures ok && Packable(cur) ==> Packable(cur')
      ensures (ok && src.Kept()) || (!ok && src.Untouched() && !src.Delivered())
      ensures !ok ==> McuResult(plan, needs, cs, lastDc, Contents(blocks), |cs|) == McuResult(plan, needs, cs, lastDc, zs, |cs|)
    {
      hide FilledBlock, ReadBlock, Zigzag, Derived, BitSource.At, BitSource.Delivered, DcTable, Decodable;
      assert BlockTables(plan, hs, b);
      var ci, c := plan.Ci(b), plan.CompOf(b);
      ghost var was := Contents(blocks);
      var next;
      ok, cur', next := DecodeBlock(src, hs[c.DcT()], ds[c.DcT()], hs[c.AcT()], ds[c.AcT()], needs[b], cur, pred[ci],
                                    blocks[b], m);
      pred' := pred[ci := next];
      forall i | 0 <= i < |blocks| && i != b ensures Contents(blocks)[i] == was[i] {}
      if !ok { McuAgain(plan, needs, cs, lastDc, zs, b, Contents(blocks)); }
    }

    /** All blocks of the MCU that starts at bit `n`. */
    method DecodeBlocks(blocks: seq<array<int>>) returns (ok: bool)
      requires Shape() && src.At(st, n) && !src.insufficient && Distinct(blocks) && |blocks| == |plan.membership|
      modifies this`st, this`lastDc, this`n, src`unreadMarker, src`insufficient, blocks
      ensures ok ==>
                var s := Start(src.data, old(n), old(lastDc), false);
                && Contents(blocks) == McuFinal(plan, hs, needs, s, old(Contents(blocks)))
                && n == McuEnd(plan, hs, s) && lastDc == McuPred(plan, hs, needs, s) && src.At(st, n)
                && (src.insufficient ==> |src.data| < n) && (Packable(old(st)) ==> Packable(st))
      ensures ok && old(Thirsty()) ==> src.unreadMarker != 0
      ensures !ok ==>
                var s := Start(src.data, n, lastDc, false);
                && st == old(st) && n == old(n) && lastDc == old(lastDc) && src.Untouched() && !src.Delivered()
                && McuFinal(plan, hs, needs, s, Contents(blocks)) == McuFinal(plan, hs, needs, s, old(Contents(blocks)))
    {
      hide FilledBlock, ReadBlock, Zigzag, Ready, BitSource.At, BitSource.Delivered, Codes, McuResult, Contents, BlockResult,
           PredAfter, CodeOfBlock, EndOf, Readable, AllInside;
      ReadyReadable(plan, hs, ds);
      ghost var cs, zs := McuCodes(plan, hs, Start(src.data, n, lastDc, false)), Contents(blocks);
      var cur, pred := st, lastDc;
      ghost var m: nat := n;
      McuBegins(plan, needs, hs, src.data, n, lastDc, zs, cs);
      NoMarkerNoShortage(src, st, n);
      var b: nat := 0;
      while b < |plan.membership|
        modifies src`unreadMarker, src`insufficient, blocks
        invariant 0 <= b <= |blocks| && src.At(cur, m) && m == EndOf(Codes(plan, hs, src.data, n, b), n)
        invariant pred == PredAfter(plan, needs, cs, lastDc, b) && Contents(blocks) == McuResult(plan, needs, cs, lastDc, zs, b)
        invariant src.insufficient ==> |src.data| < m
        invariant src.Kept() && (Packable(st) ==> Packable(cur)) && (b == 0 ==> cur == st && m == n)
        invariant b > 0 && st.left < HUFF_LOOKAHEAD && src.unreadMarker == 0 ==> n + MIN_GET_BITS <= |src.data|
      {
        CodesAt(plan, hs, src.data, n, b);
        NoMarkerNoShortage(src, cur, m);
        ok, cur, pred := DecodeNth(blocks, b, cur, pred, m, cs, zs);
        if !ok { return; }
        m, b := cs[b].ac.end, b + 1;
      }
      st, lastDc, n, ok := cur, pred, m, true;
    }

    /** Looks for the restart marker. */
    method ProcessRestart() returns (o: RestartOutcome)
      requires Valid() && AtRestart()
      modifies this`st, this`n, this`lastDc, this`restartsToGo, this`nextRestartNum,
               src`unreadMarker, src`insufficient, src`seg, src`data
      ensures o.RestartSuspended? ==> Valid() && AtRestart() && Next() == old(Next()) && src.seg == old(src.seg)
                                      && Upcoming() == old(Upcoming()) && !src.Delivered()
                                      && nextRestartNum == old(nextRestartNum)
      ensures Packable(st)
      ensures o.RestartMissing? ==> old(src.seg.marker) != RST0 + old(nextRestartNum)
      ensures o.RestartRead? ==> old(src.seg.marker) == RST0 + old(nextRestartNum)
                                 && Valid() && !AtRestart() && Next() == old(Next()) && Upcoming() == old(Upcoming())
    {
      hide Scan, Unpack, Ready, ToMarker, BitSource.At, BitSource.Delivered;
      var pos';
      st := st.(left := 0);
      o, pos' := ReadRestartMarker(src, st.pos, nextRestartNum);
      st := st.(pos := pos');
      if o.RestartRead? {
        n, lastDc, restartsToGo := 0, NoDc(), plan.restartInterval;
        nextRestartNum := (nextRestartNum + 1) % 8;
        assert src.At(BitState(pos', st.buf, 0), 0);
      }
    }

    /** restarts_to_go is an unsigned int; without restarts it merely runs down. */
    method CountMcu()
      modifies this`restartsToGo
      ensures restartsToGo == (old(restartsToGo) - 1) % 0x1_0000_0000
    {
      restartsToGo := (restartsToGo - 1) % 0x1_0000_0000;
    }

    /** Accounts for an MCU of the restart interval. */
    method FinishMcu()
      requires Shape() && !AtRestart() && src.At(st, n)
      modifies this`restartsToGo
      ensures Valid() && Books(src.seg, restartsToGo, nextRestartNum) == CountedDown(Books(src.seg, old(restartsToGo), nextRestartNum))
      ensures !AtRestart() ==> Next() == Start(src.data, n, lastDc, src.insufficient)
    {
      hide Ready, BitSource.At, Scan, Unpack, ToMarker;
      AtToMarker(src, st, n);
      CountMcu();
    }

    /** More input arrives while the decoder is suspended. */
    method Supply(more: nat)
      requires Valid()
      modifies src`avail
      ensures Valid() && Next() == old(Next()) && Upcoming() == old(Upcoming())
      ensures src.avail == if old(src.avail) + more <= |src.file| then old(src.avail) + more else |src.file|
    {
      hide Ready, Holds, Follows, Scan;
      FileBound();
      src.Deliver(more);
    }

    lemma FileBound()
      requires Valid()
      ensures src.avail <= |src.file|
    {
    }

    lemma IsReadable()
      requires Valid()
      ensures Readable(plan, hs) && |needs| == |plan.membership|
    {
      ReadyReadable(plan, hs, ds);
    }

    /** The part of `decode_mcu` after the restart processing. */
    method DecodeHere(blocks: seq<array<int>>) returns (o: McuOutcome)
      requires Valid() && !AtRestart() && Distinct(blocks) && |blocks| == |plan.membership|
      modifies this`st, this`n, this`lastDc, this`restartsToGo, src`unreadMarker, src`insufficient, blocks
      ensures Readable(plan, hs) && |needs| == |plan.membership| && !o.NeedsResync? && (Packable(old(st)) ==> Packable(st))
      ensures old(src.insufficient) ==> src.insufficient
      ensures o.Decoded? && old(Thirsty()) ==> src.unreadMarker != 0
      ensures o.Suspended? ==>
                && Valid() && !AtRestart() && Next() == old(Next()) && Upcoming() == old(Upcoming()) && !src.Delivered()
                && McuFinal(plan, hs, needs, Next(), Contents(blocks)) == McuFinal(plan, hs, needs, Next(), old(Contents(blocks)))
      ensures o.Decoded? ==>
                var s := old(Next());
                && Valid() && Contents(blocks) == McuFinal(plan, hs, needs, s, old(Contents(blocks)))
                && Books(src.seg, restartsToGo, nextRestartNum) == CountedDown(old(Upcoming()))
                && (!AtRestart() ==>
                      && Next() == Start(s.data, if s.skip then s.n else McuEnd(plan, hs, s), McuPred(plan, hs, needs, s),
                                         src.insufficient)
                      && (src.insufficient ==> s.skip || |s.data| < McuEnd(plan, hs, s)))
    {
      hide Ready, BitSource.At, BitSource.Delivered, Contents, McuFinal, McuEnd, McuPred, ToMarker, Distinct;
      IsReadable();
      if src.insufficient {
        Skipped(plan, hs, needs, Next(), Contents(blocks));
        FinishMcu();
        return Decoded;
      }
      var ok := DecodeBlocks(blocks);
      if !ok { return Suspended; }
      FinishMcu();
      return Decoded;
    }

    /**
     `decode_mcu`.  Suspended, it leaves everything the next attempt depends on as it was, and the blocks in a state
     from which that attempt arrives at the same result; so the result never depends on how the input was divided.
     */
    method DecodeMcu(blocks: seq<array<int>>) returns (o: McuOutcome)
      requires Valid() && Distinct(blocks) && |blocks| == |plan.membership|
      modifies this`st, this`n, this`lastDc, this`restartsToGo, this`nextRestartNum,
               src`unreadMarker, src`insufficient, src`seg, src`data, blocks
      ensures Readable(plan, hs) && |needs| == |plan.membership| && (Packable(old(st)) ==> Packable(st))
      ensures o.NeedsResync? ==> old(AtRestart()) && old(src.seg.marker) != RST0 + old(nextRestartNum)
      ensures old(AtRestart()) && (o.Decoded? || (o.Suspended? && !AtRestart())) ==> old(src.seg.marker) == RST0 + old(nextRestartNum)
      ensures !old(AtRestart()) && old(src.insufficient) ==> src.insufficient
      ensures o.NeedsResync? ==> Contents(blocks) == old(Contents(blocks))
      ensures o.Decoded? && !old(AtRestart()) && old(Thirsty()) ==> src.unreadMarker != 0
      ensures o.Suspended? && AtRestart() ==>
                && old(AtRestart()) && src.seg == old(src.seg) && nextRestartNum == old(nextRestartNum)
                && Contents(blocks) == old(Contents(blocks))
      ensures o.Suspended? ==>
                && Valid() && Next() == old(Next()) && Upcoming() == old(Upcoming()) && !src.Delivered()
                && McuFinal(plan, hs, needs, Next(), Contents(blocks)) == McuFinal(plan, hs, needs, Next(), old(Contents(blocks)))
      ensures o.Decoded? ==>
                var s := old(Next());
                && Valid() && Contents(blocks) == McuFinal(plan, hs, needs, s, old(Contents(blocks)))
                && Books(src.seg, restartsToGo, nextRestartNum) == CountedDown(old(Upcoming()))
                && (!AtRestart() ==>
                      && Next() == Start(s.data, if s.skip then s.n else McuEnd(plan, hs, s), McuPred(plan, hs, needs, s),
                                         src.insufficient)
                      && (src.insufficient ==> s.skip || |s.data| < McuEnd(plan, hs, s)))
    {
      hide Shape, Valid, Next, Upcoming, BitSource.Delivered, Contents, McuFinal, McuEnd, McuPred;
      IsReadable();
      if AtRestart() {
        var r := ProcessRestart();
        if r.RestartSuspended? { return Suspended; }
        if r.RestartMissing? { return NeedsResync; }
      }
      o := DecodeHere(blocks);
    }
  }

  function CountedDown(u: Books): (v: Books) { u.(left := (u.left - 1) % 0x1_0000_0000) }

  lemma ReadyReadable(plan: Plan, hs: seq<HuffTable>, ds: seq<DecTable>)
    requires Ready(plan, hs, ds)
    ensures Readable(plan, hs)
  {
  }

  lemma Skipped(plan: Plan, hs: seq<HuffTable>, needs: seq<Need>, s: Start, zs: seq<seq<int>>)
    requires Readable(plan, hs) && |needs| == |plan.membership| == |zs| && |s.pred| == MAX_COMPS_IN_SCAN && s.skip
    requires forall z <- zs :: |z| == 64
    ensures McuFinal(plan, hs, needs, s, zs) == zs && McuPred(plan, hs, needs, s) == s.pred
  {
  }

  lemma McuBegins(plan: Plan, needs: seq<Need>, hs: seq<HuffTable>, data: seq<bool>, n: nat, lastDc: seq<int>,
                  zs: seq<seq<int>>, cs: seq<BlockCode>)
    requires Readable(plan, hs) && |needs| == |plan.membership| == |zs| == |cs| && |lastDc| == MAX_COMPS_IN_SCAN
    requires (forall z <- zs :: |z| == 64) && AllInside(cs)
    ensures EndOf(Codes(plan, hs, data, n, 0), n) == n && PredAfter(plan, needs, cs, lastDc, 0) == lastDc
    ensures McuResult(plan, needs, cs, lastDc, zs, 0) == zs
  {
  }

  /** Block `b` begins where the blocks before it end. */
  lemma CodesAt(plan: Plan, hs: seq<HuffTable>, data: seq<bool>, n: nat, b: nat)
    requires Readable(plan, hs) && b < |plan.membership|
    ensures var cs, m := Codes(plan, hs, data, n, |plan.membership|), EndOf(Codes(plan, hs, data, n, b), n);
            |cs| == |plan.membership| && cs[b] == CodeOfBlock(plan, hs, data, m, b)
            && m <= cs[b].ac.end == EndOf(Codes(plan, hs, data, n, b + 1), n)
  {
    hide Codes, CodeOfBlock, Readable;
    EndsGrow(plan, hs, data, n, b);
    CodesStep(plan, hs, data, n, b);
    CodesPrefix(plan, hs, data, n, b + 1, |plan.membership|);
  }

  lemma EndsGrow(plan: Plan, hs: seq<HuffTable>, data: seq<bool>, n: nat, b: nat)
    requires Readable(plan, hs) && b < |plan.membership|
    ensures EndOf(Codes(plan, hs, data, n, b), n) <= EndOf(Codes(plan, hs, data, n, b + 1), n)
  {
    hide ReadBand, DcTable, Decodable;
    CodesStep(plan, hs, data, n, b);
    assert BlockTables(plan, hs, b);
  }
}
