/**
 The index that lets a decoder begin in the middle of a scan: MCUs are run over without keeping their coefficients, the
 decoder's position is saved between MCUs, and a decoder that is configured with a saved position goes on from there.
 */
module HuffIndex {
  import opened Arith
  import opened Bits
  import opened BitInput
  import opened HuffDecoding
  import opened HuffTables
  import opened McuDecoder
  import opened Restarts
  import opened Coefficients
  import opened Scans
  import opened Segments
  import opened SeqDecoder
  import opened SeqScanDecoder
  import opened SeqScanEncoder

  // ----- decode_mcu_discard_coef -----

  /** Block `b` of the MCU: the position and the prediction move on as they do in `decode_mcu`. */
  method DiscardNth(dec: ScanDecoder, b: nat, cur: BitState, pred: seq<int>, ghost m: nat, ghost cs: seq<BlockCode>)
    returns (ok: bool, cur': BitState, pred': seq<int>)
    requires dec.Shape() && b < |dec.plan.membership| == |cs| && AllInside(cs)
    requires dec.src.At(cur, m) && cs[b] == CodeOfBlock(dec.plan, dec.hs, dec.src.data, m, b)
    requires pred == PredAfter(dec.plan, dec.needs, cs, dec.lastDc, b)
    modifies dec.src`unreadMarker, dec.src`insufficient
    ensures ok ==> dec.src.At(cur', cs[b].ac.end) && pred' == PredAfter(dec.plan, dec.needs, cs, dec.lastDc, b + 1)
    ensures ok && dec.src.insufficient && !old(dec.src.insufficient) ==> |dec.src.data| < cs[b].ac.end
    ensures ok && Packable(cur) ==> Packable(cur')
    ensures (ok && dec.src.Kept()) || (!ok && dec.src.Untouched() && !dec.src.Delivered())
  {
    hide ReadBlock, Derived, BitSource.At, BitSource.Delivered, DcTable, Decodable;
    var plan, hs := dec.plan, dec.hs;
    assert BlockTables(plan, hs, b);
    var ci, c := plan.Ci(b), plan.CompOf(b);
    var next;
    ok, cur', next := DiscardBlock(dec.src, hs[c.DcT()], dec.ds[c.DcT()], hs[c.AcT()], dec.ds[c.AcT()], dec.needs[b], cur, pred[ci], m);
    pred' := pred[ci := next];
  }

  /** All blocks of the MCU that starts at bit `n`. */
  method DiscardBlocks(dec: ScanDecoder) returns (ok: bool)
    requires dec.Shape() && dec.src.At(dec.st, dec.n) && !dec.src.insufficient
    modifies dec`st, dec`lastDc, dec`n, dec.src`unreadMarker, dec.src`insufficient
    ensures Readable(dec.plan, dec.hs) && |dec.needs| == |dec.plan.membership| && |dec.lastDc| == MAX_COMPS_IN_SCAN == |old(dec.lastDc)|
    ensures ok ==>
              var s := Start(dec.src.data, old(dec.n), old(dec.lastDc), false);
              && dec.n == McuEnd(dec.plan, dec.hs, s) && dec.lastDc == McuPred(dec.plan, dec.hs, dec.needs, s)
              && dec.src.At(dec.st, dec.n) && (dec.src.insufficient ==> |dec.src.data| < dec.n)
              && (Packable(old(dec.st)) ==> Packable(dec.st))
    ensures !ok ==> dec.st == old(dec.st) && dec.n == old(dec.n) && dec.lastDc == old(dec.lastDc)
                    && dec.src.Untouched() && !dec.src.Delivered()
  {
    hide ReadBlock, Ready, BitSource.At, BitSource.Delivered, Codes, PredAfter, CodeOfBlock;
    ReadyReadable(dec.plan, dec.hs, dec.ds);
    ghost var plan, hs, s := dec.plan, dec.hs, Start(dec.src.data, dec.n, dec.lastDc, false);
    ghost var cs := McuCodes(plan, hs, s);
    var cur, pred := dec.st, dec.lastDc;
    ghost var m: nat := dec.n;
    McuBegins(plan, dec.needs, hs, dec.src.data, dec.n, dec.lastDc, ZeroBlocksOf(|plan.membership|), cs);
    NoMarkerNoShortage(dec.src, dec.st, dec.n);
    var b: nat := 0;
    while b < |dec.plan.membership|
      modifies dec.src`unreadMarker, dec.src`insufficient
      invariant 0 <= b <= |plan.membership| && dec.src.At(cur, m) && m == EndOf(Codes(plan, hs, dec.src.data, dec.n, b), dec.n)
      invariant pred == PredAfter(plan, dec.needs, cs, dec.lastDc, b)
      invariant dec.src.insufficient ==> |dec.src.data| < m
      invariant dec.src.Kept() && (Packable(dec.st) ==> Packable(cur))
    {
      CodesAt(plan, hs, dec.src.data, dec.n, b);
      NoMarkerNoShortage(dec.src, cur, m);
      ok, cur, pred := DiscardNth(dec, b, cur, pred, m, cs);
      if !ok { return; }
      m, b := cs[b].ac.end, b + 1;
    }
    dec.st, dec.lastDc, dec.n, ok := cur, pred, m, true;
  }

  function ZeroBlocksOf(n: nat): (zs: seq<seq<int>>)
    ensures |zs| == n && forall z <- zs :: |z| == 64
  {
    seq(n, b => seq(64, k => 0))
  }

  /** The part of `decode_mcu_discard_coef` after the restart processing. */
  method DiscardHere(dec: ScanDecoder) returns (o: McuOutcome)
    requires dec.Valid() && !dec.AtRestart()
    modifies dec`st, dec`n, dec`lastDc, dec`restartsToGo, dec.src`unreadMarker, dec.src`insufficient
    ensures Readable(dec.plan, dec.hs) && |dec.needs| == |dec.plan.membership| && !o.NeedsResync?
    ensures (Packable(old(dec.st)) ==> Packable(dec.st)) && (old(dec.src.insufficient) ==> dec.src.insufficient)
    ensures o.Suspended? ==> dec.Valid() && !dec.AtRestart() && dec.Next() == old(dec.Next()) && dec.Upcoming() == old(dec.Upcoming()) && !dec.src.Delivered()
    ensures o.Decoded? ==>
              var s := old(dec.Next());
              && dec.Valid() && Books(dec.src.seg, dec.restartsToGo, dec.nextRestartNum) == CountedDown(old(dec.Upcoming()))
              && (!dec.AtRestart() ==>
                    && dec.Next() == Start(s.data, if s.skip then s.n else McuEnd(dec.plan, dec.hs, s),
                                           McuPred(dec.plan, dec.hs, dec.needs, s), dec.src.insufficient)
                    && (dec.src.insufficient ==> s.skip || |s.data| < McuEnd(dec.plan, dec.hs, s)))
  {
    hide Ready, BitSource.At, BitSource.Delivered, McuEnd, McuPred, ToMarker;
    dec.IsReadable();
    if dec.src.insufficient {
      Skipped(dec.plan, dec.hs, dec.needs, dec.Next(), ZeroBlocksOf(|dec.plan.membership|));
      dec.FinishMcu();
      return Decoded;
    }
    var ok := DiscardBlocks(dec);
    if !ok { return Suspended; }
    dec.FinishMcu();
    return Decoded;
  }

  /**
   `decode_mcu_discard_coef`.  It leaves the decoder, as far as the MCUs to come are concerned, exactly where
   `ScanDecoder.DecodeMcu` leaves it.
   */
  method DiscardMcu(dec: ScanDecoder) returns (o: McuOutcome)
    requires dec.Valid()
    modifies dec`st, dec`n, dec`lastDc, dec`restartsToGo, dec`nextRestartNum,
             dec.src`unreadMarker, dec.src`insufficient, dec.src`seg, dec.src`data
    ensures Readable(dec.plan, dec.hs) && |dec.needs| == |dec.plan.membership| && (Packable(old(dec.st)) ==> Packable(dec.st))
    ensures !old(dec.AtRestart()) && old(dec.src.insufficient) ==> dec.src.insufficient
    ensures o.NeedsResync? ==> old(dec.AtRestart()) && old(dec.src.seg.marker) != RST0 + old(dec.nextRestartNum)
    ensures old(dec.AtRestart()) && (o.Decoded? || (o.Suspended? && !dec.AtRestart())) ==>
              old(dec.src.seg.marker) == RST0 + old(dec.nextRestartNum)
    ensures o.Suspended? && dec.AtRestart() ==>
              old(dec.AtRestart()) && dec.src.seg == old(dec.src.seg) && dec.nextRestartNum == old(dec.nextRestartNum)
    ensures o.Suspended? ==> dec.Valid() && dec.Next() == old(dec.Next()) && dec.Upcoming() == old(dec.Upcoming()) && !dec.src.Delivered()
    ensures o.Decoded? ==>
              var s := old(dec.Next());
              && dec.Valid() && Books(dec.src.seg, dec.restartsToGo, dec.nextRestartNum) == CountedDown(old(dec.Upcoming()))
              && (!dec.AtRestart() ==>
                    && dec.Next() == Start(s.data, if s.skip then s.n else McuEnd(dec.plan, dec.hs, s),
                                           McuPred(dec.plan, dec.hs, dec.needs, s), dec.src.insufficient)
                    && (dec.src.insufficient ==> s.skip || |s.data| < McuEnd(dec.plan, dec.hs, s)))
  {
    hide ScanDecoder.Shape, ScanDecoder.Valid, ScanDecoder.Next, ScanDecoder.Upcoming, BitSource.Delivered, McuEnd, McuPred;
    dec.IsReadable();
    if dec.AtRestart() {
      var r := dec.ProcessRestart();
      if r.RestartSuspended? { return Suspended; }
      if r.RestartMissing? { return NeedsResync; }
    }
    o := DiscardHere(dec);
  }

  // ----- Saving and restoring -----

  /** `huffman_offset_data`, without the fields of progressive scans. */
  datatype Offset = Offset(bitstreamOffset: nat, prevDc: seq<int>, getBuffer: nat, restartsToGo: nat, nextRestartNum: nat)

  /** The byte position and the number of unread bits in one unsigned int. */
  function Pack(pos: nat, left: nat): (o: nat)
    ensures o < 0x1_0000_0000
  {
    (pos * 32 + left) % 0x1_0000_0000
  }

  function BytePart(o: nat): (pos: nat) { o / 32 }

  function BitPart(o: nat): (left: nat) { o % 32 }

  /** Five bits hold the number of unread bits, and the rest the byte position as long as it is below 2^27. */
  lemma PackingLossless(pos: nat, left: nat)
    requires left <= 31
    ensures BytePart(Pack(pos, left)) == pos && BitPart(Pack(pos, left)) == left <==> pos < 0x800_0000
  {
    if pos < 0x800_0000 {
      DivModUnique(pos, left, 32, pos * 32 + left);
    } else {
      assert BytePart(Pack(pos, left)) < 0x800_0000;
    }
  }

  /**
   What saving comes to.  The restart that is due is processed first; if that fails the offset is not filled in.  prev_dc has room
   for three components; with a fourth the loop would write beyond it.
   */
  datatype SaveOutcome = Saved(offset: Offset) | Overrun | Unsaved(resync: bool)

  /** The offset holds the decoder's position, and its predictions as shorts. */
  ghost predicate SavedFrom(dec: ScanDecoder, o: Offset)
    reads dec
  {
    && o.bitstreamOffset == Pack(dec.st.pos, dec.st.left) && o.getBuffer == dec.st.buf
    && o.restartsToGo == dec.restartsToGo % 0x1_0000 && o.nextRestartNum == dec.nextRestartNum % 256
    && |o.prevDc| == 3 && |dec.lastDc| == MAX_COMPS_IN_SCAN && |dec.plan.comps| <= 3
    && forall i :: 0 <= i < |dec.plan.comps| ==> o.prevDc[i] == ToShort(dec.lastDc[i])
  }

  /** `get_huffman_decoder_configuration`. */
  method Save(dec: ScanDecoder) returns (r: SaveOutcome)
    requires dec.Valid()
    modifies dec`st, dec`n, dec`lastDc, dec`restartsToGo, dec`nextRestartNum,
             dec.src`unreadMarker, dec.src`insufficient, dec.src`seg, dec.src`data
    ensures r.Overrun? <==> |dec.plan.comps| > 3
    ensures r.Saved? ==> && dec.Valid() && !dec.AtRestart() && dec.Next() == old(dec.Next()) && dec.Upcoming() == old(dec.Upcoming())
                         && SavedFrom(dec, r.offset) && (Packable(old(dec.st)) ==> Packable(dec.st))
                         && (old(dec.AtRestart()) ==> old(dec.src.seg.marker) == RST0 + old(dec.nextRestartNum))
    ensures r.Unsaved? ==> old(dec.AtRestart())
    ensures r.Unsaved? && r.resync ==> old(dec.src.seg.marker) != RST0 + old(dec.nextRestartNum)
    ensures r.Unsaved? && !r.resync ==>
              && dec.Valid() && dec.AtRestart() && dec.Next() == old(dec.Next()) && dec.Upcoming() == old(dec.Upcoming())
              && dec.src.seg == old(dec.src.seg) && dec.nextRestartNum == old(dec.nextRestartNum) && !dec.src.Delivered()
  {
    hide ToShort, Ready, Pack, BitSource.At, BitSource.Delivered, Scan, Unpack, ToMarker;
    r := Unsaved(false);
    var o := Offset(0, [0, 0, 0], 0, 0, 0);
    var done := true;
    if dec.AtRestart() {
      var restart := dec.ProcessRestart();
      done, r := restart.RestartRead?, Unsaved(restart.RestartMissing?);
    }
    if done {
      o := Offset(Pack(dec.st.pos, dec.st.left), [0, 0, 0], dec.st.buf, dec.restartsToGo % 0x1_0000, dec.nextRestartNum % 256);
    }
    if |dec.plan.comps| > 3 { return Overrun; }
    if done {
      var dcInfo := DcInfo(dec);
      r := Saved(o.(prevDc := dcInfo));
    }
  }

  /** The loop over the components of the scan. */
  method DcInfo(dec: ScanDecoder) returns (dcInfo: seq<int>)
    requires |dec.plan.comps| <= 3 && |dec.lastDc| == MAX_COMPS_IN_SCAN
    ensures |dcInfo| == 3 && forall i :: 0 <= i < |dec.plan.comps| ==> dcInfo[i] == ToShort(dec.lastDc[i])
  {
    hide ToShort;
    dcInfo := [0, 0, 0];
    var i := 0;
    while i < |dec.plan.comps|
      invariant 0 <= i <= |dec.plan.comps| && |dcInfo| == 3 && forall j :: 0 <= j < i ==> dcInfo[j] == ToShort(dec.lastDc[j])
    {
      dcInfo := dcInfo[i := ToShort(dec.lastDc[i])];
      i := i + 1;
    }
  }

  /** The bit-reading state that an offset holds. */
  function StateOf(o: Offset): (st: BitState) { BitState(BytePart(o.bitstreamOffset), o.getBuffer, BitPart(o.bitstreamOffset)) }

  /** From the offset the decoder can go on at bit `n` of the given data, which end with the given segment. */
  ghost predicate Continues(plan: Plan, file: seq<nat>, avail: nat, o: Offset, n: nat, seg: Segment, data: seq<bool>) {
    var st := StateOf(o);
    && st.pos <= avail <= |file| && Packable(st) && Holds(st.buf, st.left, data, n) && Follows(file, st.pos, seg, data, n + st.left)
    && seg.marker < 256 && |o.prevDc| == 3 && |plan.comps| <= 3 && o.nextRestartNum < 8
    && (plan.restartInterval > 0 ==> 0 < o.restartsToGo <= plan.restartInterval)
  }

  /** The segment that a restored decoder takes itself to be in: if the marker had been met, the one behind it. */
  function SegFrom(file: seq<nat>, seg: Segment, clear: bool): (r: Segment) {
    if clear then seg else if seg.next <= |file| then Scan(file, seg.next) else Segment([], 0, |file|)
  }

  /** The bits it reads: if the marker had been met, those behind it follow the segment's own. */
  function DataFrom(file: seq<nat>, seg: Segment, data: seq<bool>, clear: bool): (r: seq<bool>)
    ensures data <= r && (clear ==> r == data)
  {
    if clear then data else data + Unpack(SegFrom(file, seg, clear).data)
  }

  /** A position saved between MCUs, whether or not the marker has been met, can be continued from. */
  lemma SaveContinues(dec: ScanDecoder, o: Offset)
    requires dec.Valid() && !dec.AtRestart() && !dec.src.insufficient && Packable(dec.st) && SavedFrom(dec, o)
    requires |dec.src.file| < 0x800_0000
    ensures var clear := dec.src.unreadMarker == 0;
            Continues(dec.plan, dec.src.file, dec.src.avail, o, dec.n, SegFrom(dec.src.file, dec.src.seg, clear),
                      DataFrom(dec.src.file, dec.src.seg, dec.src.data, clear))
  {
    hide Ready, Holds, Follows, Pack, BytePart, BitPart, Scan, Unpack, Readable;
    PackingLossless(dec.st.pos, dec.st.left);
    IntervalFits(dec);
    if dec.src.unreadMarker != 0 { BehindMarker(dec); }
  }

  lemma IntervalFits(dec: ScanDecoder)
    requires dec.Valid() && !dec.AtRestart()
    ensures dec.nextRestartNum < 8 && dec.plan.Valid()
    ensures dec.plan.restartInterval > 0 ==> 0 < dec.restartsToGo <= dec.plan.restartInterval <= 65535
  {
    hide BitSource.At;
  }

  lemma BehindMarker(dec: ScanDecoder)
    requires dec.Valid() && !dec.AtRestart() && !dec.src.insufficient && dec.src.unreadMarker != 0
    ensures var seg, data := SegFrom(dec.src.file, dec.src.seg, false), DataFrom(dec.src.file, dec.src.seg, dec.src.data, false);
            && Holds(dec.st.buf, dec.st.left, data, dec.n) && Follows(dec.src.file, dec.st.pos, seg, data, dec.n + dec.st.left)
            && seg.marker < 256
  {
    hide Ready, Scan, Unpack, Peek;
    var data := DataFrom(dec.src.file, dec.src.seg, dec.src.data, false);
    PeekPrefix(dec.src.data, data, dec.n, dec.st.left);
    ScanByteMarker(dec.src.file, dec.st.pos);
  }

  /** The predictions of a restored decoder. */
  function PredsOf(plan: Plan, o: Offset, l: seq<int>): (p: seq<int>)
    requires |o.prevDc| == 3 && |plan.comps| <= 3 && |l| == MAX_COMPS_IN_SCAN
    ensures |p| == MAX_COMPS_IN_SCAN
    ensures forall i :: 0 <= i < |p| ==> p[i] == if i < |plan.comps| then o.prevDc[i] else l[i]
  {
    seq(|l|, i requires 0 <= i < |l| => if i < |plan.comps| then o.prevDc[i] else l[i])
  }

  /** `configure_huffman_decoder`. */
  method Restore(dec: ScanDecoder, o: Offset, ghost n: nat, ghost seg: Segment, ghost data: seq<bool>)
    requires dec.Valid() && !dec.src.insufficient && Continues(dec.plan, dec.src.file, dec.src.avail, o, n, seg, data)
    modifies dec`st, dec`lastDc, dec`n, dec`restartsToGo, dec`nextRestartNum, dec.src`unreadMarker, dec.src`seg, dec.src`data
    ensures dec.Valid() && !dec.AtRestart() && Packable(dec.st) && |old(dec.lastDc)| == MAX_COMPS_IN_SCAN
    ensures dec.st == StateOf(o) && dec.n == n && dec.src.data == data && !dec.src.insufficient && dec.src.unreadMarker == 0
    ensures dec.Next() == Start(data, n, PredsOf(dec.plan, o, old(dec.lastDc)), false)
    ensures dec.Upcoming() == Books(seg, o.restartsToGo, o.nextRestartNum)
  {
    hide Holds, Follows, Ready, Scan, Unpack;
    FileFacts(dec);
    dec.src.unreadMarker := 0;
    dec.src.seg, dec.src.data := seg, data;
    dec.restartsToGo, dec.nextRestartNum := o.restartsToGo, o.nextRestartNum;
    dec.st := BitState(BytePart(o.bitstreamOffset), o.getBuffer, BitPart(o.bitstreamOffset));
    dec.n := n;
    ghost var l := dec.lastDc;
    var i := 0;
    while i < |dec.plan.comps|
      modifies dec`lastDc
      invariant 0 <= i <= |dec.plan.comps| <= 3 && |dec.lastDc| == |l|
      invariant forall j :: 0 <= j < |l| ==> dec.lastDc[j] == if j < i then o.prevDc[j] else l[j]
    {
      dec.lastDc := dec.lastDc[i := o.prevDc[i]];
      i := i + 1;
    }
    assert dec.lastDc == PredsOf(dec.plan, o, l);
  }

  lemma FileFacts(dec: ScanDecoder)
    requires dec.Valid()
    ensures dec.src.avail <= |dec.src.file| && AreBytes(dec.src.file)
  {
    hide Ready, Holds, Follows;
  }
}
