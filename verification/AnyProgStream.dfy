/**
 Suspension is transparent in progressive scans too, refinement scans included: on any stream, well formed or not, what the MCU
 routines make of the blocks is a function of the stream and of what the blocks held before.
 */
module AnyProgStream {
  import opened BitInput
  import opened Bits
  import opened Coefficients
  import opened HuffDecoding
  import opened HuffTables
  import opened McuDecoder
  import opened ProgDecoder
  import opened ProgMeaning
  import opened ProgScan
  import opened ProgTheorem
  import opened Restarts
  import opened Scans
  import opened Segments
  import opened SeqScanDecoder
  import opened SeqScanEncoder
  import opened Streams

  /** A scan as the decoder sees it. */
  datatype Stream = Stream(p: Progress, hs: seq<HuffTable>, file: seq<nat>) {
    ghost predicate Valid() { ProgReadable(p, hs) }
  }

  /** Where a decoder stands: within a restart interval, or before the restart marker that is due. */
  datatype Stand = Inside(s: ProgStart, books: Books) | AtMarker(seg: Segment, num: nat)

  ghost function StandOf(dec: PhuffDecoder): (st: Stand)
    requires dec.Valid()
    reads dec, dec.src
  {
    if dec.AtRestart() then AtMarker(dec.src.seg, dec.nextRestartNum) else Inside(dec.Next(), dec.Upcoming())
  }

  /** The marker is not the one that is due. */
  predicate Stuck(st: Stand) { st.AtMarker? && st.seg.marker != RST0 + st.num }

  /** Where the next MCU starts, the restart marker having been read if one is due. */
  ghost function Entered(x: Stream, st: Stand): (e: Stand) {
    if st.Inside? || st.seg.next > |x.file| then st
    else
      var seg := Scan(x.file, st.seg.next);
      Inside(ProgStart(Unpack(seg.data), 0, 0, NoDc(), false), Books(seg, x.p.plan.restartInterval, (st.num + 1) % 8))
  }

  /** What an MCU is decoded to. */
  ghost function Decoding(x: Stream, e: Stand, zs: seq<seq<int>>): (r: ProgOut)
    requires x.Valid()
  {
    if e.Inside? && |e.s.pred| == MAX_COMPS_IN_SCAN && Blocks(x.p, zs) then ProgMcu(x.p, x.hs, e.s, zs) else ProgOut(0, 0, [], zs)
  }

  /** Where the decoder stands after an MCU; the segment has run dry if the MCU reaches beyond its end. */
  ghost function Passed(x: Stream, e: Stand, r: ProgOut): (st: Stand) {
    if e.AtMarker? then e
    else
      var s, b := e.s, CountedDown(e.books);
      if x.p.plan.restartInterval > 0 && b.left == 0 then AtMarker(b.seg, b.num)
      else Inside(ProgStart(s.data, r.n, r.eobrun, r.pred, s.skip || |s.data| < r.n), b)
  }

  /** Where the decoder stands after `k` MCUs; the length of an MCU of a refinement scan depends on what its blocks held. */
  ghost function NthStand(x: Stream, st: Stand, zs: seq<seq<seq<int>>>, k: nat): (r: Stand)
    requires x.Valid() && k <= |zs|
  {
    if k == 0 then st else
      var e := Entered(x, NthStand(x, st, zs, k - 1));
      Passed(x, e, Decoding(x, e, zs[k - 1]))
  }

  lemma {:induction false} ZerosBeyond(p: Progress, hs: seq<HuffTable>, data: seq<bool>, n: nat, pred: seq<int>, b: nat)
    requires ProgReadable(p, hs) && p.ss == 0 && p.ah != 0 && b <= |p.plan.membership| && |pred| == MAX_COMPS_IN_SCAN && |data| <= n
    ensures ReadDcs(p, hs, data, n, pred, b).n >= n && forall v <- ReadDcs(p, hs, data, n, pred, b).vals :: v == 0
    decreases b
  {
    if b > 0 { ZerosBeyond(p, hs, data, n, pred, b - 1); }
  }

  /**
   Once a segment has run dry no scan of any kind changes a block before the next restart marker: a refinement scan of DC coefficients,
   which goes on reading, reads zeros.
   */
  lemma RunsDry(x: Stream, e: Stand, zs: seq<seq<int>>)
    requires x.Valid() && e.Inside? && |e.s.pred| == MAX_COMPS_IN_SCAN && e.s.skip && |e.s.data| <= e.s.n
    ensures Decoding(x, e, zs).zs == zs
  {
    hide ReadDcs, ProgReadable, Progress.Valid;
    if Blocks(x.p, zs) && x.p.ss == 0 && x.p.ah != 0 {
      ZerosBeyond(x.p, x.hs, e.s.data, e.s.n, e.s.pred, |zs|);
      var w := ReadDcs(x.p, x.hs, e.s.data, e.s.n, e.s.pred, |zs|);
      assert Decoding(x, e, zs).zs == zs by {
        forall b | 0 <= b < |zs| ensures DcSet(x.p, zs[b], w.vals[b]) == zs[b] { assert w.vals[b] in w.vals; }
      }
    }
  }

  /** The decoder stands at `st`, or has already read the marker that was due there. */
  ghost predicate Stands(dec: PhuffDecoder, x: Stream, st: Stand)
    reads dec, dec.src
  {
    && dec.Valid() && dec.p == x.p && dec.hs == x.hs && dec.src.file == x.file && x.Valid()
    && (StandOf(dec) == st || (!Stuck(st) && StandOf(dec) == Entered(x, st)))
  }

  /** Whatever it has read, the next MCU is decoded from the same place. */
  lemma StandsFacts(dec: PhuffDecoder, x: Stream, st: Stand)
    requires Stands(dec, x, st)
    ensures Entered(x, st) == Inside(dec.Next(), dec.Upcoming()) && |dec.Next().pred| == MAX_COMPS_IN_SCAN
    ensures dec.AtRestart() ==> st == AtMarker(dec.src.seg, dec.nextRestartNum)
    ensures !dec.AtRestart() ==> !Stuck(st)
    ensures dec.Next().skip <==> !dec.AtRestart() && dec.src.insufficient
  {
    hide ProgReadable, ProgReady, BitSource.At, Scan;
  }

  lemma StillStands(dec: PhuffDecoder, x: Stream, st: Stand)
    requires dec.Valid() && dec.p == x.p && dec.hs == x.hs && dec.src.file == x.file && x.Valid()
    requires Entered(x, st) == Inside(dec.Next(), dec.Upcoming())
    requires if dec.AtRestart() then st == AtMarker(dec.src.seg, dec.nextRestartNum) else !Stuck(st)
    ensures Stands(dec, x, st)
  {
    hide ProgReadable, ProgReady, BitSource.At, Scan;
  }

  /** A decoder that has gone beyond the end of the data knows it. */
  lemma ShortageKnown(dec: PhuffDecoder)
    requires dec.Valid() && !dec.AtRestart() && |dec.src.data| < dec.n
    ensures dec.src.insufficient
  {
    hide Holds, ProgReady;
  }

  lemma NextIs(dec: PhuffDecoder)
    requires dec.Valid() && !dec.AtRestart()
    ensures dec.Next() == ProgStart(dec.src.data, dec.n, dec.eobrun, dec.lastDc, dec.src.insufficient)
    ensures dec.Upcoming() == Books(dec.src.seg, dec.restartsToGo, dec.nextRestartNum)
  {
    hide BitSource.At, ProgReady;
  }

  lemma ScanDecoded(dec: PhuffDecoder, x: Stream, st: Stand, s: ProgStart, u: Books, r: ProgOut)
    requires dec.Valid() && dec.p == x.p && dec.hs == x.hs && dec.src.file == x.file && x.Valid()
    requires Entered(x, st) == Inside(s, u)
    requires Books(dec.src.seg, dec.restartsToGo, dec.nextRestartNum) == CountedDown(u)
    requires !dec.AtRestart() ==>
               && dec.Next() == ProgStart(s.data, r.n, r.eobrun, r.pred, dec.src.insufficient)
               && (dec.src.insufficient ==> s.skip || |s.data| < r.n) && (s.skip ==> dec.src.insufficient)
    ensures Stands(dec, x, Passed(x, Entered(x, st), r))
  {
    hide ProgReadable, ProgReady, BitSource.At, Scan, PhuffDecoder.Valid, PhuffDecoder.Next, PhuffDecoder.Upcoming, Entered;
    if !dec.AtRestart() {
      NextIs(dec);
      if |dec.src.data| < dec.n { ShortageKnown(dec); }
    }
  }

  /** Nothing more can arrive, or more is needed than there is: the segment has no marker at its end. */
  ghost predicate Open(x: Stream, st: Stand) {
    (st.AtMarker? && st.seg.marker == 0) || (Entered(x, st).Inside? && Entered(x, st).books.seg.marker == 0)
  }

  lemma NotDelivered(dec: PhuffDecoder, x: Stream, st: Stand)
    requires Stands(dec, x, st) && !dec.src.Delivered()
    ensures dec.src.avail < |x.file| || Open(x, st)
  {
    hide ProgReadable, ProgReady, Holds;
    StandsFacts(dec, x, st);
  }

  /** One call of the MCU routine. */
  method Attempt(dec: PhuffDecoder, blocks: seq<array<int>>, ghost x: Stream, ghost st: Stand) returns (o: McuOutcome)
    requires Stands(dec, x, st) && Distinct(blocks) && |blocks| == |x.p.plan.membership| && Shorts(x.p, blocks)
    modifies dec`st, dec`n, dec`eobrun, dec`lastDc, dec`restartsToGo, dec`nextRestartNum,
             dec.src`unreadMarker, dec.src`insufficient, dec.src`seg, dec.src`data, blocks
    ensures x.Valid() && Shorts(x.p, blocks)
    ensures o.Decoded? ==>
              var r := Decoding(x, Entered(x, st), old(Contents(blocks)));
              !Stuck(st) && Contents(blocks) == r.zs && Stands(dec, x, Passed(x, Entered(x, st), r))
    ensures o.NeedsResync? ==> Stuck(st) && Contents(blocks) == old(Contents(blocks))
    ensures o.Suspended? ==>
              && Stands(dec, x, st) && (dec.src.avail < |x.file| || Open(x, st))
              && Decoding(x, Entered(x, st), Contents(blocks)) == Decoding(x, Entered(x, st), old(Contents(blocks)))
              && (Stuck(st) ==> Contents(blocks) == old(Contents(blocks)))
  {
    hide ProgReadable, PhuffDecoder.Valid, PhuffDecoder.Next, PhuffDecoder.Upcoming, BitSource.Delivered, Contents, ProgMcu, Passed,
         Entered, Distinct, Open, Shorts;
    StandsFacts(dec, x, st);
    ghost var s, u, r := dec.Next(), dec.Upcoming(), Decoding(x, Entered(x, st), Contents(blocks));
    o := dec.DecodeMcu(blocks);
    if o.Decoded? { ScanDecoded(dec, x, st, s, u, r); }
    if o.Suspended? {
      StillStands(dec, x, st);
      NotDelivered(dec, x, st);
    }
  }

  /** More input arrives. */
  method Arrive(dec: PhuffDecoder, more: nat, ghost x: Stream, ghost st: Stand)
    requires Stands(dec, x, st)
    modifies dec.src`avail
    ensures Stands(dec, x, st)
    ensures dec.src.avail == if old(dec.src.avail) + more <= |x.file| then old(dec.src.avail) + more else |x.file|
  {
    hide PhuffDecoder.Valid, PhuffDecoder.Next, PhuffDecoder.Upcoming, Entered, ProgReadable, Stuck;
    StandsFacts(dec, x, st);
    dec.Supply(more);
    StillStands(dec, x, st);
  }

  /** An MCU, read as soon as enough has arrived; `grants` says how many more bytes arrive at each suspension. */
  method ReadMcu(dec: PhuffDecoder, blocks: seq<array<int>>, grants: seq<nat>, ghost x: Stream, ghost st: Stand)
    returns (o: McuOutcome, left: seq<nat>)
    requires Stands(dec, x, st) && Distinct(blocks) && |blocks| == |x.p.plan.membership| && Shorts(x.p, blocks)
    modifies dec`st, dec`n, dec`eobrun, dec`lastDc, dec`restartsToGo, dec`nextRestartNum, dec.src, blocks
    ensures x.Valid() && Accounted(|x.file|, old(dec.src.avail), grants, dec.src.avail, left)
    ensures o.Decoded? ==>
              var r := Decoding(x, Entered(x, st), old(Contents(blocks)));
              !Stuck(st) && Contents(blocks) == r.zs && Stands(dec, x, Passed(x, Entered(x, st), r))
    ensures o.NeedsResync? ==> Stuck(st) && Contents(blocks) == old(Contents(blocks))
    ensures o.Suspended? ==> left == [] && Stands(dec, x, st) && (dec.src.avail < |x.file| || Open(x, st))
  {
    hide Contents, Distinct, Passed, Entered, Open, Decoding, Stands, Stuck, Shorts;
    StandsValid(dec, x, st);
    left := grants;
    ghost var r, zs := Decoding(x, Entered(x, st), Contents(blocks)), Contents(blocks);
    o := Suspended;
    while o.Suspended?
      invariant Accounted(|x.file|, old(dec.src.avail), grants, dec.src.avail, left) && Shorts(x.p, blocks)
      invariant o.Suspended? ==> Stands(dec, x, st) && Decoding(x, Entered(x, st), Contents(blocks)) == r
      invariant o.Decoded? ==> !Stuck(st) && Contents(blocks) == r.zs && Stands(dec, x, Passed(x, Entered(x, st), r))
      invariant !o.NeedsResync? && (o.Suspended? && Stuck(st) ==> Contents(blocks) == zs)
      decreases if o.Suspended? then 1 else 0, |left|
    {
      o := Attempt(dec, blocks, x, st);
      if o.NeedsResync? { return; }
      if o.Suspended? {
        if left == [] { return; }
        Arrive(dec, left[0], x, st);
        left := left[1..];
      }
    }
  }

  // ----- A whole scan -----

  datatype RunOutcome = AllDecoded | Unsynchronised(at: nat) | Starving(at: nat)

  /** The blocks after the first `k` MCUs, those of the others being as they were. */
  ghost predicate DecodedTo(x: Stream, st: Stand, zs: seq<seq<seq<int>>>, now: seq<seq<seq<int>>>, k: nat)
    requires x.Valid()
  {
    && |now| == |zs|
    && forall i :: 0 <= i < |zs| ==> now[i] == if i < k then Decoding(x, Entered(x, NthStand(x, st, zs, i)), zs[i]).zs else zs[i]
  }

  /** No restart marker was wrong before the k-th MCU. */
  ghost predicate InStep(x: Stream, st: Stand, zs: seq<seq<seq<int>>>, k: nat)
    requires x.Valid() && k <= |zs|
  {
    forall i: nat :: i < k ==> !Stuck(NthStand(x, st, zs, i))
  }

  /** What refinement relies on. */
  ghost predicate AllShort(x: Stream, zs: seq<seq<seq<int>>>) {
    x.p.ss > 0 && x.p.ah != 0 ==> forall i, b :: 0 <= i < |zs| && 0 <= b < |zs[i]| ==> ShortCoefs(zs[i][b])
  }

  lemma ShortHere(x: Stream, zs: seq<seq<seq<int>>>, i: nat, blocks: seq<array<int>>)
    requires AllShort(x, zs) && i < |zs| && Distinct(blocks) && Contents(blocks) == zs[i]
    ensures Shorts(x.p, blocks)
  {
    hide ShortCoefs, Zigzag;
    forall b | 0 <= b < |blocks| && x.p.ss > 0 && x.p.ah != 0 ensures ShortCoefs(blocks[b][..]) {
      assert Contents(blocks)[b] == zs[i][b];
      ShortFromZigzag(blocks[b][..]);
    }
  }

  lemma StandsValid(dec: PhuffDecoder, x: Stream, st: Stand)
    requires Stands(dec, x, st)
    ensures x.Valid() && dec.src.file == x.file
  {
  }

  lemma NextStand(x: Stream, st: Stand, zs: seq<seq<seq<int>>>, k: nat)
    requires x.Valid() && k < |zs|
    ensures var e := Entered(x, NthStand(x, st, zs, k)); NthStand(x, st, zs, k + 1) == Passed(x, e, Decoding(x, e, zs[k]))
  {
  }

  lemma FirstStand(x: Stream, st: Stand, zs: seq<seq<seq<int>>>)
    requires x.Valid()
    ensures NthStand(x, st, zs, 0) == st
  {
  }

  /** One MCU of the scan; the others are not touched. */
  method RunOne(dec: PhuffDecoder, store: seq<seq<array<int>>>, i: nat, grants: seq<nat>, ghost x: Stream, ghost st: Stand,
                ghost zs: seq<seq<seq<int>>>)
    returns (o: McuOutcome, left: seq<nat>)
    requires x.Valid() && i < |store| && Separated(store) && |store[i]| == |x.p.plan.membership|
    requires |zs| == |store| && Stands(dec, x, NthStand(x, st, zs, i)) && DecodedTo(x, st, zs, Stored(store), i) && AllShort(x, zs)
    modifies dec`st, dec`n, dec`eobrun, dec`lastDc, dec`restartsToGo, dec`nextRestartNum, dec.src, ArraysOf(store)
    ensures Accounted(|x.file|, old(dec.src.avail), grants, dec.src.avail, left)
    ensures o.Decoded? ==>
              && !Stuck(NthStand(x, st, zs, i)) && DecodedTo(x, st, zs, Stored(store), i + 1)
              && Stands(dec, x, NthStand(x, st, zs, i + 1))
    ensures o.NeedsResync? ==> Stuck(NthStand(x, st, zs, i)) && DecodedTo(x, st, zs, Stored(store), i)
    ensures o.Suspended? ==> left == [] && (dec.src.avail < |x.file| || Open(x, NthStand(x, st, zs, i)))
  {
    hide Stands, Distinct, Contents, Decoding, Entered, NthStand, Open, Stuck, Passed, Accounted;
    StoreOne(store, i);
    ShortHere(x, zs, i, store[i]);
    NextStand(x, st, zs, i);
    ghost var was := Stored(store);
    o, left := ReadMcu(dec, store[i], grants, x, NthStand(x, st, zs, i));
    StoreOne(store, i);
    forall j | 0 <= j < |store| && j != i ensures Stored(store)[j] == was[j] {
      StoreOne(store, j);
      Untouched(store, i, j);
      assert unchanged(store[j]);
    }
  }

  /** Decodes the MCUs of a scan, one after the other, into their blocks. */
  method DecodeRun(dec: PhuffDecoder, store: seq<seq<array<int>>>, grants: seq<nat>, ghost x: Stream, ghost st: Stand)
    returns (o: RunOutcome)
    requires Stands(dec, x, st) && Separated(store) && AllShort(x, Stored(store))
    requires forall i :: 0 <= i < |store| ==> |store[i]| == |x.p.plan.membership|
    modifies dec`st, dec`n, dec`eobrun, dec`lastDc, dec`restartsToGo, dec`nextRestartNum, dec.src, ArraysOf(store)
    ensures x.Valid()
    ensures o.AllDecoded? ==>
              && DecodedTo(x, st, old(Stored(store)), Stored(store), |store|) && InStep(x, st, old(Stored(store)), |store|)
              && Stands(dec, x, NthStand(x, st, old(Stored(store)), |store|))
    ensures o.Unsynchronised? ==>
              && o.at < |store| && DecodedTo(x, st, old(Stored(store)), Stored(store), o.at)
              && InStep(x, st, old(Stored(store)), o.at) && Stuck(NthStand(x, st, old(Stored(store)), o.at))
    ensures o.Starving? ==>
              && o.at < |store|
              && (old(dec.src.avail) + Total(grants) < |x.file| || Open(x, NthStand(x, st, old(Stored(store)), o.at)))
  {
    hide AllShort, Stands, Stored, Separated, Distinct, Contents, ArraysOf, Decoding, Entered, NthStand, Open, Stuck, Passed;
    StandsValid(dec, x, st);
    var left := grants;
    ghost var zs := Stored(store);
    StoreFacts(store);
    FirstStand(x, st, zs);
    var i := 0;
    while i < |store|
      invariant 0 <= i <= |store| == |zs| && Stands(dec, x, NthStand(x, st, zs, i))
      invariant DecodedTo(x, st, zs, Stored(store), i) && InStep(x, st, zs, i)
      invariant Accounted(|x.file|, old(dec.src.avail), grants, dec.src.avail, left)
    {
      var r;
      r, left := RunOne(dec, store, i, left, x, st, zs);
      if r.NeedsResync? { return Unsynchronised(i); }
      if r.Suspended? { return Starving(i); }
      i := i + 1;
    }
    o := AllDecoded;
  }

  // ----- Any two ways of delivering a stream -----

  /** A decoder at the beginning of the stream, of which `first` bytes are there. */
  method Begin(p: Progress, hs: seq<HuffTable>, ds: seq<DecTable>, file: seq<nat>, first: nat)
    returns (dec: PhuffDecoder, ghost x: Stream)
    requires ProgReady(p, hs, ds) && AreBytes(file)
    ensures fresh(dec) && fresh(dec.src) && x == Stream(p, hs, file) && Stands(dec, x, FirstOf(x))
    ensures dec.src.avail == if first <= |file| then first else |file|
  {
    hide ProgReady, ProgReadable, Scan, Unpack, BitSource.At, PhuffDecoder.Shape;
    var src := new BitSource(file, if first <= |file| then first else |file|, 0);
    dec := new PhuffDecoder(p, hs, ds, src, 0);
    x := Stream(p, hs, file);
    ReadyShape(p, hs, ds);
  }

  ghost function FirstOf(x: Stream): (st: Stand) {
    var seg := Scan(x.file, 0);
    Inside(ProgStart(Unpack(seg.data), 0, 0, NoDc(), false), Books(seg, x.p.plan.restartInterval, 0))
  }

  ghost predicate RunIs(x: Stream, st: Stand, zs: seq<seq<seq<int>>>, now: seq<seq<seq<int>>>, o: RunOutcome, n: nat)
    requires x.Valid()
  {
    match o
    case AllDecoded => n <= |zs| && DecodedTo(x, st, zs, now, n) && InStep(x, st, zs, n)
    case Unsynchronised(at) => at < n <= |zs| && DecodedTo(x, st, zs, now, at) && InStep(x, st, zs, at) && Stuck(NthStand(x, st, zs, at))
    case Starving(_) => true
  }

  lemma SameOutcome(x: Stream, st: Stand, zs: seq<seq<seq<int>>>, now1: seq<seq<seq<int>>>, now2: seq<seq<seq<int>>>,
                    o1: RunOutcome, o2: RunOutcome, n: nat)
    requires x.Valid() && RunIs(x, st, zs, now1, o1, n) && RunIs(x, st, zs, now2, o2, n) && !o1.Starving? && !o2.Starving?
    ensures o1 == o2 && now1 == now2
  {
    hide Decoding, Entered, NthStand, Stuck;
    var k1, k2 := if o1.AllDecoded? then n else o1.at, if o2.AllDecoded? then n else o2.at;
    assert k1 == k2;
  }

  /** A run from the beginning of the stream. */
  method FromStart(p: Progress, hs: seq<HuffTable>, ds: seq<DecTable>, file: seq<nat>, first: nat, grants: seq<nat>,
                   store: seq<seq<array<int>>>)
    returns (o: RunOutcome, dec: PhuffDecoder, ghost x: Stream)
    requires ProgReady(p, hs, ds) && AreBytes(file) && Separated(store)
    requires forall i :: 0 <= i < |store| ==> |store[i]| == |p.plan.membership|
    requires AllShort(Stream(p, hs, file), Stored(store))
    modifies ArraysOf(store)
    ensures fresh(dec) && fresh(dec.src) && x == Stream(p, hs, file) && x.Valid()
    ensures RunIs(x, FirstOf(x), old(Stored(store)), Stored(store), o, |store|)
    ensures o.AllDecoded? ==> Stands(dec, x, NthStand(x, FirstOf(x), old(Stored(store)), |store|))
    ensures o.Starving? ==>
              o.at < |store| && (first + Total(grants) < |file| || Open(x, NthStand(x, FirstOf(x), old(Stored(store)), o.at)))
  {
    hide ProgReady, AllShort, Stands, Separated, Decoding, Entered, NthStand, Open, Stuck, Passed, FirstOf, ProgReadable, DecodedTo, InStep;
    StoreFacts(store);
    ghost var zs := Stored(store);
    dec, x := Begin(p, hs, ds, file, first);
    assert Stored(store) == zs;
    o := DecodeRun(dec, store, grants, x, FirstOf(x));
  }

  /**
   However the bytes of a stream are delivered, the outcome is the same: the same blocks, decoders that stand at the same place, or the
   same MCU before which the restart marker is not the one that is due.  A run can starve only if it is not given all bytes, or if no
   marker ends the segment that it is in.
   */
  method EitherWay(p: Progress, hs: seq<HuffTable>, ds: seq<DecTable>, file: seq<nat>, first1: nat, grants1: seq<nat>,
                   store1: seq<seq<array<int>>>, first2: nat, grants2: seq<nat>, store2: seq<seq<array<int>>>)
    returns (o1: RunOutcome, o2: RunOutcome, dec1: PhuffDecoder, dec2: PhuffDecoder, ghost x: Stream)
    requires ProgReady(p, hs, ds) && AreBytes(file) && Separated(store1) && Separated(store2)
    requires ArraysOf(store1) !! ArraysOf(store2) && |store1| == |store2| && Stored(store1) == Stored(store2)
    requires forall i :: 0 <= i < |store1| ==> |store1[i]| == |store2[i]| == |p.plan.membership|
    requires AllShort(Stream(p, hs, file), Stored(store1))
    modifies ArraysOf(store1), ArraysOf(store2)
    ensures x == Stream(p, hs, file) && x.Valid()
    ensures !o1.Starving? && !o2.Starving? ==> o1 == o2 && Stored(store1) == Stored(store2)
    ensures o1.AllDecoded? ==> Stands(dec1, x, NthStand(x, FirstOf(x), old(Stored(store1)), |store1|))
    ensures o2.AllDecoded? ==> Stands(dec2, x, NthStand(x, FirstOf(x), old(Stored(store1)), |store1|))
    ensures o1.Starving? ==>
              o1.at < |store1| && (first1 + Total(grants1) < |file| || Open(x, NthStand(x, FirstOf(x), old(Stored(store1)), o1.at)))
    ensures o2.Starving? ==>
              o2.at < |store1| && (first2 + Total(grants2) < |file| || Open(x, NthStand(x, FirstOf(x), old(Stored(store1)), o2.at)))
  {
    hide ProgReady, AllShort, Stands, Separated, Decoding, Entered, NthStand, Open, Stuck, Passed, FirstOf, ProgReadable,
         DecodedTo, InStep, RunIs;
    ghost var zs := Stored(store1);
    o1, dec1, x := FromStart(p, hs, ds, file, first1, grants1, store1);
    assert Stored(store2) == zs;
    ghost var now1 := Stored(store1);
    o2, dec2, x := FromStart(p, hs, ds, file, first2, grants2, store2);
    assert Stored(store1) == now1;
    if !o1.Starving? && !o2.Starving? { SameOutcome(x, FirstOf(x), zs, now1, Stored(store2), o1, o2, |store1|); }
  }
}
