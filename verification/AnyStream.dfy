/**
 Suspension is transparent.  On any stream, well formed or not, what `decode_mcu` makes of a sequence of MCUs is a function of the
 stream alone: it does not depend on how many bytes arrive at a time.
 */
module AnyStream {
  import opened BitInput
  import opened Bits
  import opened HuffDecoding
  import opened HuffTables
  import opened McuDecoder
  import opened ProgTheorem
  import opened Restarts
  import opened Scans
  import opened Segments
  import opened SeqDecoder
  import opened SeqScanDecoder
  import opened SeqScanEncoder
  import opened Streams

  /** A scan as the decoder sees it. */
  datatype Stream = Stream(plan: Plan, hs: seq<HuffTable>, needs: seq<Need>, file: seq<nat>) {
    ghost predicate Valid() { Readable(plan, hs) && |needs| == |plan.membership| }
  }

  /** Where a decoder stands: within a restart interval, or before the restart marker that is due. */
  datatype Stand = Inside(s: Start, books: Books) | AtMarker(seg: Segment, num: nat)

  ghost function StandOf(dec: ScanDecoder): (st: Stand)
    requires dec.Valid()
    reads dec, dec.src
  {
    if dec.AtRestart() then AtMarker(dec.src.seg, dec.nextRestartNum) else Inside(dec.Next(), dec.Upcoming())
  }

  /** The marker is not the one that is due. */
  predicate Stuck(st: Stand) { st.AtMarker? && st.seg.marker != RST0 + st.num }

  /** Where the next MCU starts, the restart marker having been read if one is due. */
  ghost function Entered(x: Stream, st: Stand): (e: Stand) {
    if st.Inside? || st.seg.next > |x.file| then st
    else
      var seg := Scan(x.file, st.seg.next);
      Inside(Start(Unpack(seg.data), 0, NoDc(), false), Books(seg, x.plan.restartInterval, (st.num + 1) % 8))
  }

  /** Where the decoder stands after an MCU; the segment has run dry if the MCU reaches beyond its end. */
  ghost function Passed(x: Stream, e: Stand): (st: Stand)
    requires x.Valid()
  {
    if e.AtMarker? || |e.s.pred| != MAX_COMPS_IN_SCAN then e
    else
      var s, b, end := e.s, CountedDown(e.books), McuEnd(x.plan, x.hs, e.s);
      if x.plan.restartInterval > 0 && b.left == 0 then AtMarker(b.seg, b.num)
      else Inside(Start(s.data, if s.skip then s.n else end, McuPred(x.plan, x.hs, x.needs, s), s.skip || |s.data| < end), b)
  }

  /** Where the decoder stands after `k` MCUs. */
  ghost function NthStand(x: Stream, st: Stand, k: nat): (r: Stand)
    requires x.Valid()
  {
    if k == 0 then st else Passed(x, Entered(x, NthStand(x, st, k - 1)))
  }

  /** What an MCU makes of its blocks. */
  ghost function Filled(x: Stream, e: Stand, zs: seq<seq<int>>): (r: seq<seq<int>>)
    requires x.Valid()
  {
    if e.Inside? && |e.s.pred| == MAX_COMPS_IN_SCAN && |zs| == |x.plan.membership| && (forall z <- zs :: |z| == 64) then
      McuFinal(x.plan, x.hs, x.needs, e.s, zs)
    else zs
  }

  /**
   A segment that has run dry: the MCUs up to the next restart marker stay as they are, at no cost in bits, and the predictions do
   too; it runs dry with the first MCU that reaches beyond its end; and the next segment starts afresh.
   */
  lemma RunsDry(x: Stream, e: Stand, zs: seq<seq<int>>)
    requires x.Valid() && e.Inside? && |e.s.pred| == MAX_COMPS_IN_SCAN
    ensures e.s.skip ==> Filled(x, e, zs) == zs
    ensures Passed(x, e).Inside? ==>
              var s := Passed(x, e).s;
              && (e.s.skip ==> s == e.s)
              && (!e.s.skip ==> (s.skip <==> |e.s.data| < McuEnd(x.plan, x.hs, e.s)))
    ensures Passed(x, e).AtMarker? && Entered(x, Passed(x, e)).Inside? ==>
              var s := Entered(x, Passed(x, e)).s; !s.skip && s.n == 0 && forall p <- s.pred :: p == 0
  {
    hide Readable, McuEnd, Codes, CodeOfBlock, Unpack, Scan, PredAfter;
  }

  /** The decoder stands at `st`, or has already read the marker that was due there. */
  ghost predicate Stands(dec: ScanDecoder, x: Stream, st: Stand)
    reads dec, dec.src
  {
    && dec.Valid() && dec.plan == x.plan && dec.hs == x.hs && dec.needs == x.needs && dec.src.file == x.file && x.Valid()
    && (StandOf(dec) == st || (!Stuck(st) && StandOf(dec) == Entered(x, st)))
  }

  /** Whatever it has read, the next MCU is decoded from the same place. */
  lemma StandsFacts(dec: ScanDecoder, x: Stream, st: Stand)
    requires Stands(dec, x, st)
    ensures Entered(x, st) == Inside(dec.Next(), dec.Upcoming()) && |dec.Next().pred| == MAX_COMPS_IN_SCAN
    ensures dec.AtRestart() ==> st == AtMarker(dec.src.seg, dec.nextRestartNum)
    ensures !dec.AtRestart() ==> !Stuck(st)
    ensures dec.Next().skip <==> !dec.AtRestart() && dec.src.insufficient
  {
    hide Readable, Ready, BitSource.At, Scan;
  }

  lemma StillStands(dec: ScanDecoder, x: Stream, st: Stand)
    requires dec.Valid() && dec.plan == x.plan && dec.hs == x.hs && dec.needs == x.needs && dec.src.file == x.file && x.Valid()
    requires Entered(x, st) == Inside(dec.Next(), dec.Upcoming())
    requires if dec.AtRestart() then st == AtMarker(dec.src.seg, dec.nextRestartNum) else !Stuck(st)
    ensures Stands(dec, x, st)
  {
    hide Readable, Ready, BitSource.At, Scan;
  }

  /** A decoder that has gone beyond the end of the data knows it. */
  lemma ShortageKnown(dec: ScanDecoder)
    requires dec.Valid() && !dec.AtRestart() && |dec.src.data| < dec.n
    ensures dec.src.insufficient
  {
    hide Holds, Ready;
  }

  lemma NextIs(dec: ScanDecoder)
    requires dec.Valid() && !dec.AtRestart()
    ensures dec.Next() == Start(dec.src.data, dec.n, dec.lastDc, dec.src.insufficient)
    ensures dec.Upcoming() == Books(dec.src.seg, dec.restartsToGo, dec.nextRestartNum)
  {
    hide BitSource.At, Ready;
  }

  lemma ScanDecoded(dec: ScanDecoder, x: Stream, st: Stand, s: Start, u: Books)
    requires dec.Valid() && dec.plan == x.plan && dec.hs == x.hs && dec.needs == x.needs && dec.src.file == x.file && x.Valid()
    requires Entered(x, st) == Inside(s, u) && |s.pred| == MAX_COMPS_IN_SCAN
    requires Books(dec.src.seg, dec.restartsToGo, dec.nextRestartNum) == CountedDown(u)
    requires !dec.AtRestart() ==>
               && dec.Next() == Start(s.data, if s.skip then s.n else McuEnd(x.plan, x.hs, s), McuPred(x.plan, x.hs, x.needs, s),
                                      dec.src.insufficient)
               && (dec.src.insufficient ==> s.skip || |s.data| < McuEnd(x.plan, x.hs, s)) && (s.skip ==> dec.src.insufficient)
    ensures Stands(dec, x, Passed(x, Entered(x, st)))
  {
    hide Readable, Ready, BitSource.At, Scan, McuEnd, McuPred, ScanDecoder.Valid, ScanDecoder.Next, ScanDecoder.Upcoming, Entered;
    if !dec.AtRestart() {
      NextIs(dec);
      if |dec.src.data| < dec.n { ShortageKnown(dec); }
    }
  }

  /** Nothing more can arrive, or more is needed than there is: the segment has no marker at its end. */
  ghost predicate Open(x: Stream, st: Stand) {
    (st.AtMarker? && st.seg.marker == 0) || (Entered(x, st).Inside? && Entered(x, st).books.seg.marker == 0)
  }

  lemma NotDelivered(dec: ScanDecoder, x: Stream, st: Stand)
    requires Stands(dec, x, st) && !dec.src.Delivered()
    ensures dec.src.avail < |x.file| || Open(x, st)
  {
    hide Readable, Ready, Holds;
    StandsFacts(dec, x, st);
  }

  /** One call of `decode_mcu`. */
  method Attempt(dec: ScanDecoder, blocks: seq<array<int>>, ghost x: Stream, ghost st: Stand) returns (o: McuOutcome)
    requires Stands(dec, x, st) && Distinct(blocks) && |blocks| == |x.plan.membership|
    modifies dec`st, dec`n, dec`lastDc, dec`restartsToGo, dec`nextRestartNum,
             dec.src`unreadMarker, dec.src`insufficient, dec.src`seg, dec.src`data, blocks
    ensures o.Decoded? ==> !Stuck(st) && Contents(blocks) == Filled(x, Entered(x, st), old(Contents(blocks)))
                           && Stands(dec, x, Passed(x, Entered(x, st)))
    ensures o.NeedsResync? ==> Stuck(st) && Contents(blocks) == old(Contents(blocks))
    ensures o.Suspended? ==>
              && Stands(dec, x, st) && (dec.src.avail < |x.file| || Open(x, st))
              && Filled(x, Entered(x, st), Contents(blocks)) == Filled(x, Entered(x, st), old(Contents(blocks)))
              && (Stuck(st) ==> Contents(blocks) == old(Contents(blocks)))
    ensures o.Decoded? && !old(dec.AtRestart()) && old(dec.Thirsty()) ==> dec.src.unreadMarker != 0
  {
    hide Readable, ScanDecoder.Valid, ScanDecoder.Next, ScanDecoder.Upcoming, BitSource.Delivered, Contents, McuFinal, McuEnd, McuPred, Passed,
         Entered, Distinct, Open;
    StandsFacts(dec, x, st);
    ghost var s, u := dec.Next(), dec.Upcoming();
    o := dec.DecodeMcu(blocks);
    if o.Decoded? { ScanDecoded(dec, x, st, s, u); }
    if o.Suspended? {
      StillStands(dec, x, st);
      NotDelivered(dec, x, st);
    }
  }

  /** More input arrives. */
  method Arrive(dec: ScanDecoder, more: nat, ghost x: Stream, ghost st: Stand)
    requires Stands(dec, x, st)
    modifies dec.src`avail
    ensures Stands(dec, x, st)
    ensures dec.src.avail == if old(dec.src.avail) + more <= |x.file| then old(dec.src.avail) + more else |x.file|
  {
    hide ScanDecoder.Valid, ScanDecoder.Next, ScanDecoder.Upcoming, Entered, Readable, Stuck;
    StandsFacts(dec, x, st);
    dec.Supply(more);
    StillStands(dec, x, st);
  }

  /** An MCU, read as soon as enough has arrived; `grants` says how many more bytes arrive at each suspension. */
  method ReadMcu(dec: ScanDecoder, blocks: seq<array<int>>, grants: seq<nat>, ghost x: Stream, ghost st: Stand)
    returns (o: McuOutcome, left: seq<nat>)
    requires Stands(dec, x, st) && Distinct(blocks) && |blocks| == |x.plan.membership|
    modifies dec`st, dec`n, dec`lastDc, dec`restartsToGo, dec`nextRestartNum, dec.src, blocks
    ensures Accounted(|x.file|, old(dec.src.avail), grants, dec.src.avail, left)
    ensures o.Decoded? ==> !Stuck(st) && Contents(blocks) == Filled(x, Entered(x, st), old(Contents(blocks)))
                           && Stands(dec, x, Passed(x, Entered(x, st)))
    ensures o.NeedsResync? ==> Stuck(st) && Contents(blocks) == old(Contents(blocks))
    ensures o.Suspended? ==> left == [] && Stands(dec, x, st) && (dec.src.avail < |x.file| || Open(x, st))
  {
    hide Contents, Distinct, Passed, Entered, Open, Filled, Stands, Stuck;
    StandsValid(dec, x, st);
    left := grants;
    ghost var zs := Contents(blocks);
    o := Suspended;
    while o.Suspended?
      invariant Accounted(|x.file|, old(dec.src.avail), grants, dec.src.avail, left)
      invariant o.Suspended? ==> Stands(dec, x, st) && Filled(x, Entered(x, st), Contents(blocks)) == Filled(x, Entered(x, st), zs)
      invariant o.Decoded? ==> !Stuck(st) && Contents(blocks) == Filled(x, Entered(x, st), zs) && Stands(dec, x, Passed(x, Entered(x, st)))
      invariant !o.NeedsResync? && (o.Suspended? && Stuck(st) ==> Contents(blocks) == zs)
      decreases if o.Suspended? then 1 else 0, |left|
    {
      o := Attempt(dec, blocks, x, st);
      if o.NeedsResync? { return; }
      if o.Suspended? {
        if left == [] { return; }
        Arrive(dec, left[0], x, st);
        left := left[1..];
      }
    }
  }

  // ----- A whole scan -----

  datatype RunOutcome = AllDecoded | Unsynchronised(at: nat) | Starving(at: nat)

  /** The blocks after the first `k` MCUs, those of the others being as they were. */
  ghost predicate DecodedTo(x: Stream, st: Stand, zs: seq<seq<seq<int>>>, now: seq<seq<seq<int>>>, k: nat)
    requires x.Valid()
  {
    && |now| == |zs|
    && forall i :: 0 <= i < |zs| ==> now[i] == if i < k then Filled(x, Entered(x, NthStand(x, st, i)), zs[i]) else zs[i]
  }

  /** No restart marker was wrong before the k-th MCU. */
  ghost predicate InStep(x: Stream, st: Stand, k: nat)
    requires x.Valid()
  {
    forall i: nat :: i < k ==> !Stuck(NthStand(x, st, i))
  }

  lemma StandsValid(dec: ScanDecoder, x: Stream, st: Stand)
    requires Stands(dec, x, st)
    ensures x.Valid() && dec.src.file == x.file
  {
  }

  lemma NextStand(x: Stream, st: Stand, k: nat)
    requires x.Valid()
    ensures NthStand(x, st, k + 1) == Passed(x, Entered(x, NthStand(x, st, k)))
  {
  }

  lemma FirstStand(x: Stream, st: Stand)
    requires x.Valid()
    ensures NthStand(x, st, 0) == st
  {
  }

  /** One MCU of the scan; the others are not touched. */
  method RunOne(dec: ScanDecoder, store: seq<seq<array<int>>>, i: nat, grants: seq<nat>, ghost x: Stream, ghost st: Stand,
                ghost zs: seq<seq<seq<int>>>)
    returns (o: McuOutcome, left: seq<nat>)
    requires x.Valid() && i < |store| && Separated(store) && |store[i]| == |x.plan.membership|
    requires Stands(dec, x, NthStand(x, st, i)) && DecodedTo(x, st, zs, Stored(store), i)
    modifies dec`st, dec`n, dec`lastDc, dec`restartsToGo, dec`nextRestartNum, dec.src, ArraysOf(store)
    ensures Accounted(|x.file|, old(dec.src.avail), grants, dec.src.avail, left)
    ensures o.Decoded? ==> !Stuck(NthStand(x, st, i)) && DecodedTo(x, st, zs, Stored(store), i + 1) && Stands(dec, x, NthStand(x, st, i + 1))
    ensures o.NeedsResync? ==> Stuck(NthStand(x, st, i)) && DecodedTo(x, st, zs, Stored(store), i)
    ensures o.Suspended? ==> left == [] && (dec.src.avail < |x.file| || Open(x, NthStand(x, st, i)))
  {
    hide Stands, Distinct, Contents, Filled, Entered, NthStand, Open, Stuck, Passed, Accounted;
    StoreOne(store, i);
    NextStand(x, st, i);
    ghost var was := Stored(store);
    o, left := ReadMcu(dec, store[i], grants, x, NthStand(x, st, i));
    StoreOne(store, i);
    forall j | 0 <= j < |store| && j != i ensures Stored(store)[j] == was[j] {
      StoreOne(store, j);
      Untouched(store, i, j);
      assert unchanged(store[j]);
    }
  }

  /** Decodes the MCUs of a scan, one after the other, into their blocks. */
  method DecodeRun(dec: ScanDecoder, store: seq<seq<array<int>>>, grants: seq<nat>, ghost x: Stream, ghost st: Stand)
    returns (o: RunOutcome)
    requires Stands(dec, x, st) && Separated(store) && forall i :: 0 <= i < |store| ==> |store[i]| == |x.plan.membership|
    modifies dec`st, dec`n, dec`lastDc, dec`restartsToGo, dec`nextRestartNum, dec.src, ArraysOf(store)
    ensures x.Valid()
    ensures o.AllDecoded? ==>
              && DecodedTo(x, st, old(Stored(store)), Stored(store), |store|) && InStep(x, st, |store|)
              && Stands(dec, x, NthStand(x, st, |store|))
    ensures o.Unsynchronised? ==>
              && DecodedTo(x, st, old(Stored(store)), Stored(store), o.at) && InStep(x, st, o.at)
              && o.at < |store| && Stuck(NthStand(x, st, o.at))
    ensures o.Starving? ==> o.at < |store| && (old(dec.src.avail) + Total(grants) < |x.file| || Open(x, NthStand(x, st, o.at)))
  {
    hide Stands, Stored, Separated, Distinct, Contents, ArraysOf, Filled, Entered, NthStand, Open, Stuck, Passed;
    StandsValid(dec, x, st);
    var left := grants;
    ghost var zs := Stored(store);
    StoreFacts(store);
    FirstStand(x, st);
    var i := 0;
    while i < |store|
      invariant 0 <= i <= |store| == |zs| && Stands(dec, x, NthStand(x, st, i)) && DecodedTo(x, st, zs, Stored(store), i) && InStep(x, st, i)
      invariant Accounted(|x.file|, old(dec.src.avail), grants, dec.src.avail, left)
    {
      var r;
      r, left := RunOne(dec, store, i, left, x, st, zs);
      if r.NeedsResync? { return Unsynchronised(i); }
      if r.Suspended? { return Starving(i); }
      i := i + 1;
    }
    o := AllDecoded;
  }

  // ----- Any two ways of delivering a stream -----

  /** A decoder at the beginning of the stream, of which `first` bytes are there. */
  method Begin(plan: Plan, needs: seq<Need>, hs: seq<HuffTable>, ds: seq<DecTable>, file: seq<nat>, first: nat)
    returns (dec: ScanDecoder, ghost x: Stream)
    requires Ready(plan, hs, ds) && |needs| == |plan.membership| && AreBytes(file)
    ensures fresh(dec) && fresh(dec.src) && x == Stream(plan, hs, needs, file) && Stands(dec, x, FirstOf(x))
    ensures dec.src.avail == if first <= |file| then first else |file|
  {
    hide Ready, Readable, Scan, Unpack, BitSource.At, ScanDecoder.Shape;
    var src := new BitSource(file, if first <= |file| then first else |file|, 0);
    dec := new ScanDecoder(plan, needs, hs, ds, src, 0);
    x := Stream(plan, hs, needs, file);
    ReadyReadable(plan, hs, ds);
  }

  ghost function FirstOf(x: Stream): (st: Stand) {
    var seg := Scan(x.file, 0);
    Inside(Start(Unpack(seg.data), 0, NoDc(), false), Books(seg, x.plan.restartInterval, 0))
  }

  ghost predicate RunIs(x: Stream, st: Stand, zs: seq<seq<seq<int>>>, now: seq<seq<seq<int>>>, o: RunOutcome, n: nat)
    requires x.Valid()
  {
    match o
    case AllDecoded => DecodedTo(x, st, zs, now, n) && InStep(x, st, n)
    case Unsynchronised(at) => at < n && DecodedTo(x, st, zs, now, at) && InStep(x, st, at) && Stuck(NthStand(x, st, at))
    case Starving(_) => true
  }

  lemma SameOutcome(x: Stream, st: Stand, zs: seq<seq<seq<int>>>, now1: seq<seq<seq<int>>>, now2: seq<seq<seq<int>>>,
                    o1: RunOutcome, o2: RunOutcome, n: nat)
    requires x.Valid() && RunIs(x, st, zs, now1, o1, n) && RunIs(x, st, zs, now2, o2, n) && !o1.Starving? && !o2.Starving?
    ensures o1 == o2 && now1 == now2
  {
    hide Filled, Entered, NthStand, Stuck;
    var k1, k2 := if o1.AllDecoded? then n else o1.at, if o2.AllDecoded? then n else o2.at;
    assert k1 == k2;
  }

  /** A run from the beginning of the stream. */
  method FromStart(plan: Plan, needs: seq<Need>, hs: seq<HuffTable>, ds: seq<DecTable>, file: seq<nat>, first: nat, grants: seq<nat>,
                   store: seq<seq<array<int>>>)
    returns (o: RunOutcome, dec: ScanDecoder, ghost x: Stream)
    requires Ready(plan, hs, ds) && |needs| == |plan.membership| && AreBytes(file) && Separated(store)
    requires forall i :: 0 <= i < |store| ==> |store[i]| == |plan.membership|
    modifies ArraysOf(store)
    ensures fresh(dec) && fresh(dec.src) && x == Stream(plan, hs, needs, file) && x.Valid()
    ensures RunIs(x, FirstOf(x), old(Stored(store)), Stored(store), o, |store|)
    ensures o.AllDecoded? ==> Stands(dec, x, NthStand(x, FirstOf(x), |store|))
    ensures o.Starving? ==> o.at < |store| && (first + Total(grants) < |file| || Open(x, NthStand(x, FirstOf(x), o.at)))
  {
    hide Ready, Stands, Separated, Filled, Entered, NthStand, Open, Stuck, Passed, FirstOf, Readable, DecodedTo, InStep;
    StoreFacts(store);
    ghost var zs := Stored(store);
    dec, x := Begin(plan, needs, hs, ds, file, first);
    assert Stored(store) == zs;
    o := DecodeRun(dec, store, grants, x, FirstOf(x));
  }

  /**
   However the bytes of a stream are delivered, the outcome is the same: the same blocks, decoders that stand at the same place, or the
   same MCU before which the restart marker is not the one that is due.  A run can starve only if it is not given all bytes, or if no
   marker ends the segment that it is in.
   */
  method EitherWay(plan: Plan, needs: seq<Need>, hs: seq<HuffTable>, ds: seq<DecTable>, file: seq<nat>, first1: nat, grants1: seq<nat>,
                   store1: seq<seq<array<int>>>, first2: nat, grants2: seq<nat>, store2: seq<seq<array<int>>>)
    returns (o1: RunOutcome, o2: RunOutcome, dec1: ScanDecoder, dec2: ScanDecoder, ghost x: Stream)
    requires Ready(plan, hs, ds) && |needs| == |plan.membership| && AreBytes(file) && Separated(store1) && Separated(store2)
    requires ArraysOf(store1) !! ArraysOf(store2) && |store1| == |store2| && Stored(store1) == Stored(store2)
    requires forall i :: 0 <= i < |store1| ==> |store1[i]| == |store2[i]| == |plan.membership|
    modifies ArraysOf(store1), ArraysOf(store2)
    ensures x == Stream(plan, hs, needs, file) && x.Valid()
    ensures !o1.Starving? && !o2.Starving? ==> o1 == o2 && Stored(store1) == Stored(store2)
    ensures o1.AllDecoded? ==> Stands(dec1, x, NthStand(x, FirstOf(x), |store1|))
    ensures o2.AllDecoded? ==> Stands(dec2, x, NthStand(x, FirstOf(x), |store1|))
    ensures o1.Starving? ==> o1.at < |store1| && (first1 + Total(grants1) < |file| || Open(x, NthStand(x, FirstOf(x), o1.at)))
    ensures o2.Starving? ==> o2.at < |store1| && (first2 + Total(grants2) < |file| || Open(x, NthStand(x, FirstOf(x), o2.at)))
  {
    hide Ready, Stands, Separated, Filled, Entered, NthStand, Open, Stuck, Passed, FirstOf, Readable, DecodedTo, InStep, RunIs;
    ghost var zs := Stored(store1);
    o1, dec1, x := FromStart(plan, needs, hs, ds, file, first1, grants1, store1);
    assert Stored(store2) == zs;
    ghost var now1 := Stored(store1);
    o2, dec2, x := FromStart(plan, needs, hs, ds, file, first2, grants2, store2);
    assert Stored(store1) == now1;
    if !o1.Starving? && !o2.Starving? { SameOutcome(x, FirstOf(x), zs, now1, Stored(store2), o1, o2, |store1|); }
  }
}
