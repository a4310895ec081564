/**
 Indexing a scan, and seeking in it.  A decoder that is configured with an entry of the index shadows a decoder that has decoded the
 scan in order: it may know more bits than belong to the segment, and its DC predictions agree modulo 2^16 only, yet it delivers the
 same blocks.
 */
module ScanIndex {
  import opened AnyStream
  import opened Arith
  import opened BitInput
  import opened Bits
  import opened Coefficients
  import opened Geometry
  import H = HuffDecoding
  import opened HuffIndex
  import opened Locality
  import opened McuDecoder
  import opened Restarts
  import opened Scans
  import opened Segments
  import opened SeqDecoder
  import opened SeqScanDecoder
  import opened SeqScanEncoder
  import W = McuWalk

  // ----- A decoder that has been restored, and one that has decoded in order -----

  /** `r` stands for `e`; unless `same`, it takes the bits behind the marker for bits of the segment. */
  ghost predicate Shadows(x: Stream, r: Stand, e: Stand, same: bool) {
    match e
    case AtMarker(seg, num) => r == AtMarker(SegFrom(x.file, seg, same), num)
    case Inside(s, u) =>
      && r.Inside? && r.s.n == s.n && r.s.skip == s.skip && Congruent(x.plan, r.s.pred, s.pred)
      && s.data <= r.s.data && (if same then r.s.data == s.data else !s.skip)
      && r.books.seg == SegFrom(x.file, u.seg, same) && r.books.num == u.num
      && (x.plan.restartInterval > 0 ==> r.books.left == u.left)
  }

  /** The MCU can be decoded from the bits of its segment. */
  ghost predicate Within(x: Stream, e: Stand)
    requires x.Valid()
  {
    e.Inside? && McuEnd(x.plan, x.hs, e.s) <= |e.s.data|
  }

  lemma SameBlocks(x: Stream, r: Stand, e: Stand, same: bool, zs: seq<seq<int>>)
    requires x.Valid() && e.Inside? && Shadows(x, r, e, same) && (same || Within(x, e))
    requires |zs| == |x.plan.membership| && forall z <- zs :: |z| == 64
    ensures |r.s.pred| == |e.s.pred| == MAX_COMPS_IN_SCAN && McuEnd(x.plan, x.hs, r.s) == McuEnd(x.plan, x.hs, e.s)
    ensures Congruent(x.plan, McuPred(x.plan, x.hs, x.needs, r.s), McuPred(x.plan, x.hs, x.needs, e.s))
    ensures McuFinal(x.plan, x.hs, x.needs, r.s, zs) == McuFinal(x.plan, x.hs, x.needs, e.s, zs)
  {
    hide Readable, McuEnd, McuPred, McuFinal, Congruent, SegFrom;
    CongruentSize(x.plan, r.s.pred, e.s.pred);
    var mid := e.s.(data := r.s.data);
    if !same { McuSame(x.plan, x.hs, x.needs, e.s, r.s.data, zs); }
    McuCongruent(x.plan, x.hs, x.needs, mid, r.s.pred, zs);
    assert r.s == mid.(pred := r.s.pred);
  }

  /** Both deliver the same blocks, and the one goes on standing for the other. */
  lemma ShadowStep(x: Stream, r: Stand, e: Stand, same: bool, zs: seq<seq<int>>)
    requires x.Valid() && e.Inside? && Shadows(x, r, e, same) && (same || Within(x, e))
    requires |zs| == |x.plan.membership| && forall z <- zs :: |z| == 64
    ensures Filled(x, r, zs) == Filled(x, e, zs) && Shadows(x, Passed(x, r), Passed(x, e), same)
  {
    hide Readable, McuEnd, McuPred, McuFinal, Congruent, SegFrom;
    SameBlocks(x, r, e, same, zs);
  }

  lemma ShadowSelf(x: Stream, e: Stand)
    requires e.Inside? ==> |e.s.pred| == MAX_COMPS_IN_SCAN
    ensures Shadows(x, e, e, true)
  {
  }

  /** A restart marker brings both together, provided that they are in the same segment. */
  lemma ShadowEntered(x: Stream, r: Stand, e: Stand)
    requires Shadows(x, r, e, true)
    ensures Shadows(x, Entered(x, r), Entered(x, e), true)
  {
    hide Congruent, Unpack, Scan;
    if e.AtMarker? { ShadowSelf(x, Entered(x, e)); }
  }

  /**
   A decoder that was restored from behind the marker does not find it again when the interval ends: it finds the next one, and takes
   it for a wrong one.
   */
  lemma MarkerMissed(x: Stream, r: Stand, e: Stand)
    requires Shadows(x, r, e, false) && e.AtMarker? && e.num < 8 && !Stuck(e)
    ensures Stuck(r) <==> SegFrom(x.file, e.seg, false).marker != RST0 + e.num
    ensures SegFrom(x.file, e.seg, false).marker == RST0 + (e.num + 1) % 8 ==> Stuck(r)
  {
    hide SegFrom;
  }

  // ----- Entries -----

  /**
   What an entry made at `e` holds; `clear` tells whether the reader had not yet met the marker.  Positions have to fit 27 bits, and
   the segment must not have run dry before.  The reader looks ahead by less than 32 bits.
   */
  ghost predicate EntryFor(x: Stream, avail: nat, o: Offset, e: Stand, clear: bool) {
    && e.Inside? && |e.s.pred| == MAX_COMPS_IN_SCAN && (e.s.n + 32 <= |e.s.data| ==> clear)
    && (|x.file| < 0x800_0000 && !e.s.skip ==> Holding(x, avail, o, e, clear))
  }

  ghost predicate Holding(x: Stream, avail: nat, o: Offset, e: Stand, clear: bool)
    requires e.Inside? && |e.s.pred| == MAX_COMPS_IN_SCAN
  {
    && Continues(x.plan, x.file, avail, o, e.s.n, SegFrom(x.file, e.books.seg, clear), DataFrom(x.file, e.books.seg, e.s.data, clear))
    && (forall i :: 0 <= i < |x.plan.comps| ==> o.prevDc[i] == ToShort(e.s.pred[i]))
    && o.nextRestartNum == e.books.num && (x.plan.restartInterval > 0 ==> o.restartsToGo == e.books.left)
  }

  /** An entry remains good when more input arrives. */
  lemma EntryKept(x: Stream, avail: nat, avail': nat, o: Offset, e: Stand, clear: bool)
    requires EntryFor(x, avail, o, e, clear) && avail <= avail' <= |x.file|
    ensures EntryFor(x, avail', o, e, clear)
  {
    hide Holds, Follows, SegFrom, DataFrom, BytePart, BitPart;
  }

  /** Where a decoder stands that has been configured with the entry. */
  ghost function Resumed(x: Stream, o: Offset, e: Stand, clear: bool, l: seq<int>): (r: Stand)
    requires e.Inside? && |o.prevDc| == 3 && |x.plan.comps| <= 3 && |l| == MAX_COMPS_IN_SCAN
  {
    Inside(Start(DataFrom(x.file, e.books.seg, e.s.data, clear), e.s.n, PredsOf(x.plan, o, l), false),
           Books(SegFrom(x.file, e.books.seg, clear), o.restartsToGo, o.nextRestartNum))
  }

  lemma ResumedShadows(x: Stream, avail: nat, o: Offset, e: Stand, clear: bool, l: seq<int>)
    requires e.Inside? && |e.s.pred| == |l| == MAX_COMPS_IN_SCAN && !e.s.skip && Holding(x, avail, o, e, clear)
    ensures |o.prevDc| == 3 && |x.plan.comps| <= 3 && Shadows(x, Resumed(x, o, e, clear, l), e, clear)
  {
    hide Holds, Follows, SegFrom, ToShort, Like, BytePart, BitPart;
    forall i | 0 <= i < |x.plan.comps| ensures Like(PredsOf(x.plan, o, l)[i], e.s.pred[i]) { ShortIsLike(e.s.pred[i]); }
  }

  /** What the decoder knows of its position. */
  lemma PlaceFacts(dec: ScanDecoder, x: Stream, st: Stand)
    requires Stands(dec, x, st) && !dec.AtRestart() && Packable(dec.st)
    ensures Entered(x, st) == Inside(Start(dec.src.data, dec.n, dec.lastDc, dec.src.insufficient),
                                     Books(dec.src.seg, dec.restartsToGo, dec.nextRestartNum))
    ensures |dec.lastDc| == MAX_COMPS_IN_SCAN && dec.nextRestartNum < 8
    ensures dec.n + 32 <= |dec.src.data| ==> dec.src.unreadMarker == 0
  {
    hide Readable, Ready, Holds, Follows, Entered, Stuck;
    StandsFacts(dec, x, st);
    NextIs(dec);
  }

  /** An entry of the index.  The restart that is due is processed first. */
  method Mark(dec: ScanDecoder, ghost x: Stream, ghost st: Stand) returns (r: SaveOutcome)
    requires Stands(dec, x, st) && Packable(dec.st)
    modifies dec`st, dec`n, dec`lastDc, dec`restartsToGo, dec`nextRestartNum,
             dec.src`unreadMarker, dec.src`insufficient, dec.src`seg, dec.src`data
    ensures r.Overrun? <==> |x.plan.comps| > 3
    ensures r.Saved? ==> Stands(dec, x, st) && Packable(dec.st)
                         && EntryFor(x, dec.src.avail, r.offset, Entered(x, st), dec.src.unreadMarker == 0)
    ensures r.Unsaved? && r.resync ==> Stuck(st)
    ensures r.Unsaved? && !r.resync ==> Stands(dec, x, st) && (dec.src.avail < |x.file| || Open(x, st))
  {
    hide ScanDecoder.Valid, ScanDecoder.Next, ScanDecoder.Upcoming, Readable, Pack, ToShort, Entered, Open, BitSource.Delivered, Continues,
         SegFrom, DataFrom;
    StandsFacts(dec, x, st);
    r := Save(dec);
    if r.Overrun? { return; }
    if r.Unsaved? {
      if !r.resync {
        StillStands(dec, x, st);
        NotDelivered(dec, x, st);
      }
      return;
    }
    StillStands(dec, x, st);
    PlaceFacts(dec, x, st);
    if |x.file| < 0x800_0000 && !dec.src.insufficient {
      SaveContinues(dec, r.offset);
      IntervalFits(dec);
    }
  }

  /** Runs over an MCU. */
  method DiscardNext(dec: ScanDecoder, ghost x: Stream, ghost st: Stand) returns (o: McuOutcome)
    requires Stands(dec, x, st) && Packable(dec.st)
    modifies dec`st, dec`n, dec`lastDc, dec`restartsToGo, dec`nextRestartNum,
             dec.src`unreadMarker, dec.src`insufficient, dec.src`seg, dec.src`data
    ensures o.Decoded? ==> !Stuck(st) && Stands(dec, x, Passed(x, Entered(x, st))) && Packable(dec.st)
    ensures o.NeedsResync? ==> Stuck(st)
    ensures o.Suspended? ==> Stands(dec, x, st) && (dec.src.avail < |x.file| || Open(x, st))
  {
    hide Readable, ScanDecoder.Valid, ScanDecoder.Next, ScanDecoder.Upcoming, BitSource.Delivered, McuEnd, McuPred, Passed, Entered, Open;
    StandsFacts(dec, x, st);
    ghost var s, u := dec.Next(), dec.Upcoming();
    o := DiscardMcu(dec);
    if o.Decoded? { ScanDecoded(dec, x, st, s, u); }
    if o.Suspended? {
      StillStands(dec, x, st);
      NotDelivered(dec, x, st);
    }
  }

  // ----- Seeking -----

  /** The marker has been met, fewer than 8 bits are left, and less than 25 bits and no marker are to be had. */
  ghost predicate Stranded(x: Stream, o: Offset, r: Stand) {
    && r.Inside? && x.plan.membership != [] && StateOf(o).left < H.HUFF_LOOKAHEAD
    && r.books.seg.marker == 0 && |r.s.data| < r.s.n + MIN_GET_BITS
  }

  lemma StillNoMarker(dec: ScanDecoder, x: Stream, r: Stand)
    requires x.Valid() && r.Inside? && |r.s.pred| == MAX_COMPS_IN_SCAN && r.books.seg.marker == 0 && Stands(dec, x, Passed(x, r))
    ensures dec.src.unreadMarker == 0
  {
    hide Readable, Ready, Holds, Follows, Scan, McuEnd, McuPred;
    StandsFacts(dec, x, Passed(x, r));
  }

  /**
   Seeking.  A decoder configured with an entry, wherever it was before, decodes from where `Resumed` says.  If the marker had not
   been met when the entry was made, or if the MCU lies within its segment, these are the very blocks that decoding in order delivers,
   and the decoder shadows one that has decoded in order from then on.  It suspends if it is stranded, though the segment is there.
   */
  method SeekAndDecode(dec: ScanDecoder, o: Offset, blocks: seq<array<int>>, ghost x: Stream, ghost st: Stand, ghost e: Stand,
                       ghost clear: bool)
    returns (ok: bool, ghost r: Stand)
    requires Stands(dec, x, st) && !dec.src.insufficient && |x.file| < 0x800_0000
    requires EntryFor(x, dec.src.avail, o, e, clear) && !e.s.skip && Distinct(blocks) && |blocks| == |x.plan.membership|
    modifies dec`st, dec`n, dec`lastDc, dec`restartsToGo, dec`nextRestartNum,
             dec.src`unreadMarker, dec.src`insufficient, dec.src`seg, dec.src`data, blocks
    ensures |o.prevDc| == 3 && |x.plan.comps| <= 3 && |old(dec.lastDc)| == MAX_COMPS_IN_SCAN && x.Valid()
    ensures r == Resumed(x, o, e, clear, old(dec.lastDc)) && Shadows(x, r, e, clear)
    ensures ok ==> Stands(dec, x, Passed(x, r)) && Contents(blocks) == Filled(x, r, old(Contents(blocks)))
    ensures ok && (clear || Within(x, e)) ==>
              Contents(blocks) == Filled(x, e, old(Contents(blocks))) && Shadows(x, Passed(x, r), Passed(x, e), clear)
    ensures !ok ==> Stands(dec, x, r) && (dec.src.avail < |x.file| || Open(x, r))
    ensures Stranded(x, o, r) ==> !ok
  {
    hide ScanDecoder.Valid, ScanDecoder.Next, ScanDecoder.Upcoming, ScanDecoder.AtRestart, Readable, Continues, Contents, Distinct, Open,
         Passed, Filled, SegFrom, DataFrom, Shadows, Within, Congruent, McuEnd;
    StandsValid(dec, x, st);
    ghost var seg, data := SegFrom(x.file, e.books.seg, clear), DataFrom(x.file, e.books.seg, e.s.data, clear);
    ghost var l, zs := dec.lastDc, Contents(blocks);
    StandShape(dec, x, st);
    Restore(dec, o, e.s.n, seg, data);
    ResumedShadows(x, dec.src.avail, o, e, clear, l);
    r := Resumed(x, o, e, clear, l);
    ResumedStands(dec, x, r);
    var out := Attempt(dec, blocks, x, r);
    ok := out.Decoded?;
    if ok && (clear || Within(x, e)) { ShadowStep(x, r, e, clear, zs); }
    if ok && Stranded(x, o, r) { StillNoMarker(dec, x, r); }
  }

  lemma StandShape(dec: ScanDecoder, x: Stream, st: Stand)
    requires Stands(dec, x, st)
    ensures dec.Valid() && |dec.lastDc| == MAX_COMPS_IN_SCAN && dec.plan == x.plan && dec.src.file == x.file
  {
    hide Readable, Ready, BitSource.At;
  }

  lemma ResumedStands(dec: ScanDecoder, x: Stream, r: Stand)
    requires dec.Valid() && !dec.AtRestart() && dec.plan == x.plan && dec.hs == x.hs && dec.needs == x.needs && dec.src.file == x.file
    requires x.Valid() && r == Inside(dec.Next(), dec.Upcoming())
    ensures Stands(dec, x, r) && !Stuck(r) && Entered(x, r) == r
  {
    hide Readable, Ready, BitSource.At, ScanDecoder.Valid, ScanDecoder.Next, ScanDecoder.Upcoming;
  }

  /** The MCUs that follow: the blocks go on being those of decoding in order. */
  method DecodeOn(dec: ScanDecoder, blocks: seq<array<int>>, ghost x: Stream, ghost r: Stand, ghost st: Stand, ghost same: bool)
    returns (o: McuOutcome)
    requires Stands(dec, x, r) && Shadows(x, r, st, same) && Distinct(blocks) && |blocks| == |x.plan.membership|
    requires Entered(x, st).Inside? && (same || (st.Inside? && Within(x, st)))
    modifies dec`st, dec`n, dec`lastDc, dec`restartsToGo, dec`nextRestartNum,
             dec.src`unreadMarker, dec.src`insufficient, dec.src`seg, dec.src`data, blocks
    ensures x.Valid()
    ensures o.Decoded? ==>
              && Contents(blocks) == Filled(x, Entered(x, st), old(Contents(blocks)))
              && Stands(dec, x, Passed(x, Entered(x, r))) && Shadows(x, Passed(x, Entered(x, r)), Passed(x, Entered(x, st)), same)
    ensures o.Suspended? ==> Stands(dec, x, r) && (dec.src.avail < |x.file| || Open(x, r))
    ensures o.NeedsResync? ==> same && Stuck(st)
  {
    hide Stands, Contents, Distinct, Open, Passed, Filled, Congruent, McuEnd, Scan, Unpack;
    StandsValid(dec, x, r);
    if same { ShadowEntered(x, r, st); }
    ghost var zs := Contents(blocks);
    o := Attempt(dec, blocks, x, r);
    if o.Decoded? { ShadowStep(x, Entered(x, r), Entered(x, st), same, zs); }
  }

  // ----- Building the index -----

  datatype Indexing = IndexComplete | IndexSuspended | IndexUnsynchronised | IndexOverrun

  /** The outcome of the calls for one MCU, if they did not succeed. */
  function Stopped(r: SaveOutcome): (i: Indexing)
    requires !r.Saved?
  {
    if r.Overrun? then IndexOverrun else if r.resync then IndexUnsynchronised else IndexSuspended
  }

  /** Where the MCU in column `j * size` of the MCU row that begins with MCU `k` starts. */
  function Sampled(k: nat, size: nat, j: nat): (m: nat) {
    MulNonNeg(j, size);
    k + j * size
  }

  ghost function EnteredAt(x: Stream, st: Stand, k: nat): (e: Stand)
    requires x.Valid()
  {
    Entered(x, NthStand(x, st, k))
  }

  ghost predicate RowIndexed(x: Stream, avail: nat, st: Stand, row: seq<Offset>, clear: seq<bool>, k: nat, size: nat)
    requires x.Valid()
  {
    |row| == |clear| && forall j: nat :: j < |row| ==> EntryFor(x, avail, row[j], EnteredAt(x, st, Sampled(k, size, j)), clear[j])
  }

  /** Another column: one more entry exactly if the column is a multiple of the sample size. */
  lemma Columns(c: nat, size: nat)
    requires size > 0
    ensures c % size == 0 ==> Sampled(0, size, DivRoundUp(c, size)) == c && DivRoundUp(c + 1, size) == DivRoundUp(c, size) + 1
    ensures c % size != 0 ==> DivRoundUp(c + 1, size) == DivRoundUp(c, size)
  {
    hide DivRoundUp;
    var q: nat, r := (DivNonNeg(c, size); c / size), c % size;
    MulDistrib(q, 1, size);
    if r == 0 {
      MulDistrib(q - 1, 1, size);
      RoundUpIs(c, size, q);
    } else {
      RoundUpIs(c, size, q + 1);
    }
    RoundUpIs(c + 1, size, q + 1);
  }

  /** The decoder is about to deal with MCU `k`. */
  ghost predicate AtMcu(dec: ScanDecoder, x: Stream, st: Stand, k: nat)
    reads dec, dec.src
  {
    x.Valid() && Stands(dec, x, NthStand(x, st, k)) && Packable(dec.st)
  }

  /** Nothing but the end of the input, or a wrong restart marker, keeps an MCU from being indexed. */
  ghost predicate Halted(dec: ScanDecoder, x: Stream, st: Stand, r: Indexing, m: nat)
    reads dec.src
  {
    && x.Valid()
    && (r.IndexSuspended? ==> dec.src.avail < |x.file| || Open(x, NthStand(x, st, m)))
    && (r.IndexUnsynchronised? ==> Stuck(NthStand(x, st, m)))
  }

  /** The entries of an MCU row. */
  method IndexRow(dec: ScanDecoder, perRow: nat, size: nat, ghost x: Stream, ghost st: Stand, ghost k: nat)
    returns (r: Indexing, row: seq<Offset>, ghost clear: seq<bool>, ghost m: nat)
    requires AtMcu(dec, x, st, k) && size > 0
    modifies dec`st, dec`n, dec`lastDc, dec`restartsToGo, dec`nextRestartNum,
             dec.src`unreadMarker, dec.src`insufficient, dec.src`seg, dec.src`data
    ensures x.Valid() && Halted(dec, x, st, r, m)
    ensures r.IndexComplete? ==> AtMcu(dec, x, st, k + perRow) && |row| == DivRoundUp(perRow, size)
                                 && RowIndexed(x, dec.src.avail, st, row, clear, k, size)
    ensures perRow > 0 && |x.plan.comps| > 3 <==> r.IndexOverrun?
  {
    hide Stands, NthStand, EntryFor, DivRoundUp, Sampled, Entered, Passed, Open, Stuck, Stream.Valid;
    row, clear, m := [], [], k;
    var c: nat := 0;
    NoColumns(size);
    while c < perRow
      invariant 0 <= c <= perRow && AtMcu(dec, x, st, k + c) && |row| == DivRoundUp(c, size)
      invariant RowIndexed(x, dec.src.avail, st, row, clear, k, size) && (c > 0 ==> |x.plan.comps| <= 3)
    {
      Columns(c, size);
      m := k + c;
      if c % size == 0 {
        var o := Mark(dec, x, NthStand(x, st, m));
        if !o.Saved? { return Stopped(o), row, clear, m; }
        SampledFrom(k, size, |row|);
        row, clear := row + [o.offset], clear + [dec.src.unreadMarker == 0];
      }
      StandNext(x, st, m);
      var out := DiscardNext(dec, x, NthStand(x, st, m));
      if !out.Decoded? { return if out.Suspended? then IndexSuspended else IndexUnsynchronised, row, clear, m; }
      c := c + 1;
    }
    r := IndexComplete;
  }

  lemma StandNext(x: Stream, st: Stand, k: nat)
    requires x.Valid()
    ensures NthStand(x, st, k + 1) == Passed(x, Entered(x, NthStand(x, st, k)))
  {
  }

  lemma NoColumns(size: nat)
    requires size > 0
    ensures DivRoundUp(0, size) == 0
  {
    RoundUpIs(0, size, 0);
  }

  lemma SampledFrom(k: nat, size: nat, j: nat)
    ensures Sampled(k, size, j) == k + Sampled(0, size, j)
  {
  }

  /** The rows of an iMCU row, one after the other, as they lie in memory. */
  function EntryOf(rowLength: nat, y: nat, j: nat): (e: nat) {
    MulNonNeg(y, rowLength);
    y * rowLength + j
  }

  /** Entry `j` of row `y` stands for the MCU in column `j * size` of that row; the iMCU row begins with MCU `k`. */
  ghost predicate Indexed(x: Stream, avail: nat, st: Stand, offsets: seq<Offset>, clear: seq<bool>, k: nat,
                          rows: nat, perRow: nat, size: nat)
    requires x.Valid() && size > 0
  {
    && |offsets| == |clear| == EntryOf(DivRoundUp(perRow, size), rows, 0)
    && forall y: nat, j: nat :: y < rows && j < DivRoundUp(perRow, size) ==>
         var i := EntryOf(DivRoundUp(perRow, size), y, j);
         i < |offsets| && EntryFor(x, avail, offsets[i], EnteredAt(x, st, Sampled(EntryOf(perRow, y, k), size, j)), clear[i])
  }

  lemma IndexGrows(x: Stream, avail: nat, st: Stand, offsets: seq<Offset>, clear: seq<bool>, k: nat,
                   rows: nat, perRow: nat, size: nat, row: seq<Offset>, rowClear: seq<bool>)
    requires x.Valid() && size > 0
    requires Indexed(x, avail, st, offsets, clear, k, rows, perRow, size) && |row| == DivRoundUp(perRow, size)
    requires RowIndexed(x, avail, st, row, rowClear, EntryOf(perRow, rows, k), size)
    ensures Indexed(x, avail, st, offsets + row, clear + rowClear, k, rows + 1, perRow, size)
  {
    hide Stream.Valid, EntryFor, EnteredAt, DivRoundUp, EntryOf, Sampled;
    var d := DivRoundUp(perRow, size);
    EntryNext(d, rows);
    var all, allClear := offsets + row, clear + rowClear;
    forall y: nat, j: nat | y < rows + 1 && j < d
      ensures var i := EntryOf(d, y, j);
              i < |all| && EntryFor(x, avail, all[i], EnteredAt(x, st, Sampled(EntryOf(perRow, y, k), size, j)), allClear[i])
    {
      EntrySplit(d, y, j);
      if y < rows {
        var i := EntryOf(d, y, j);
        assert i < |offsets|;
        assert all[i] == offsets[i] && allClear[i] == clear[i];
      } else {
        assert all[|offsets| + j] == row[j] && allClear[|offsets| + j] == rowClear[j];
      }
    }
  }

  lemma EntryNext(d: nat, rows: nat)
    ensures EntryOf(d, rows + 1, 0) == EntryOf(d, rows, 0) + d
  {
    MulDistrib(rows, 1, d);
  }

  lemma EntrySplit(d: nat, y: nat, j: nat)
    ensures EntryOf(d, y, j) == EntryOf(d, y, 0) + j
  {
  }

  lemma NothingIndexed(x: Stream, avail: nat, st: Stand, k: nat, perRow: nat, size: nat)
    requires x.Valid() && size > 0
    ensures Indexed(x, avail, st, [], [], k, 0, perRow, size) && EntryOf(perRow, 0, k) == k
  {
  }

  lemma AtValid(dec: ScanDecoder, x: Stream, st: Stand, k: nat)
    requires AtMcu(dec, x, st, k)
    ensures x.Valid()
  {
  }

  /** `consume_data_build_huffman_index_baseline`: the entries of an iMCU row of `rows` MCU rows, which begins with MCU `k`. */
  method IndexImcuRow(dec: ScanDecoder, rows: nat, perRow: nat, size: nat, ghost x: Stream, ghost st: Stand, ghost k: nat)
    returns (r: Indexing, offsets: seq<Offset>, ghost clear: seq<bool>, ghost m: nat)
    requires AtMcu(dec, x, st, k) && size > 0
    modifies dec`st, dec`n, dec`lastDc, dec`restartsToGo, dec`nextRestartNum,
             dec.src`unreadMarker, dec.src`insufficient, dec.src`seg, dec.src`data
    ensures x.Valid() && Halted(dec, x, st, r, m)
    ensures r.IndexComplete? ==> AtMcu(dec, x, st, EntryOf(perRow, rows, k))
                                 && Indexed(x, dec.src.avail, st, offsets, clear, k, rows, perRow, size)
    ensures rows > 0 && perRow > 0 && |x.plan.comps| > 3 <==> r.IndexOverrun?
  {
    hide AtMcu, NthStand, DivRoundUp, Sampled, RowIndexed, Indexed, EntryOf, Stuck, Open, Stream.Valid;
    offsets, clear, m := [], [], k;
    var y: nat := 0;
    AtValid(dec, x, st, k);
    NothingIndexed(x, dec.src.avail, st, k, perRow, size);
    while y < rows
      invariant 0 <= y <= rows && AtMcu(dec, x, st, EntryOf(perRow, y, k))
      invariant Indexed(x, dec.src.avail, st, offsets, clear, k, y, perRow, size)
      invariant y > 0 && perRow > 0 ==> |x.plan.comps| <= 3
    {
      var row;
      ghost var rowClear;
      EntrySplit(perRow, y, k);
      EntrySplit(perRow, y + 1, k);
      EntryNext(perRow, y);
      r, row, rowClear, m := IndexRow(dec, perRow, size, x, st, EntryOf(perRow, y, k));
      if !r.IndexComplete? { return; }
      IndexGrows(x, dec.src.avail, st, offsets, clear, k, y, perRow, size, row, rowClear);
      offsets, clear, y := offsets + row, clear + rowClear, y + 1;
    }
    r := IndexComplete;
  }

  /** Counting MCUs row by row or through the iMCU rows comes to the same. */
  lemma RowsCounted(f: Frame, comps: seq<nat>, g: ScanGrid, i: nat)
    requires W.ForScan(f, comps, g) && i < f.TotalImcuRows()
    ensures EntryOf(g.perRow, W.RowsIn(f, comps, i), W.Passed(f, comps, g, i, 0, 0))
         == if i + 1 < f.TotalImcuRows() then W.Passed(f, comps, g, i + 1, 0, 0) else W.Index(g, g.rows, 0)
  {
    hide Grid, W.RowsIn, W.FirstRow, Frame.TotalImcuRows;
    W.RowsAddUp(f, comps, g, i);
    MulDistrib(W.FirstRow(f, comps, i), W.RowsIn(f, comps, i), g.perRow);
  }

  /** The entries of the first `n` iMCU rows. */
  ghost predicate AllIndexed(x: Stream, avail: nat, f: Frame, comps: seq<nat>, g: ScanGrid, size: nat, index: seq<seq<Offset>>,
                             clear: seq<seq<bool>>, n: nat)
    requires x.Valid() && size > 0 && W.ForScan(f, comps, g)
  {
    && |index| == |clear| == n
    && forall i: nat :: i < n ==>
         Indexed(x, avail, FirstOf(x), index[i], clear[i], W.Passed(f, comps, g, i, 0, 0), W.RowsIn(f, comps, i), g.perRow, size)
  }

  /**
   `jpeg_build_huffman_index_baseline`: the entries of all iMCU rows of the scan.  Entry `j` of MCU row `y` of iMCU row `i` stands for
   the MCU in column `j * size` of that row.
   */
  method BuildIndex(dec: ScanDecoder, f: Frame, comps: seq<nat>, g: ScanGrid, size: nat, ghost x: Stream)
    returns (r: Indexing, index: seq<seq<Offset>>, ghost clear: seq<seq<bool>>, ghost m: nat)
    requires AtMcu(dec, x, FirstOf(x), 0) && size > 0 && W.ForScan(f, comps, g)
    modifies dec`st, dec`n, dec`lastDc, dec`restartsToGo, dec`nextRestartNum,
             dec.src`unreadMarker, dec.src`insufficient, dec.src`seg, dec.src`data
    ensures x.Valid() && Halted(dec, x, FirstOf(x), r, m)
    ensures r.IndexComplete? ==>
              && AtMcu(dec, x, FirstOf(x), W.Index(g, g.rows, 0))
              && AllIndexed(x, dec.src.avail, f, comps, g, size, index, clear, f.TotalImcuRows())
    ensures r.IndexOverrun? <==> |x.plan.comps| > 3
  {
    hide AtMcu, NthStand, Sampled, RowIndexed, Indexed, EntryOf, Stuck, Open, Stream.Valid, W.Passed, W.RowsIn, Grid, Frame.TotalImcuRows,
         FirstOf, W.Index;
    index, clear, m := [], [], 0;
    var i: nat := 0;
    AtValid(dec, x, FirstOf(x), 0);
    W.GridShape(f, comps, g);
    while i < f.TotalImcuRows()
      invariant 0 <= i <= f.TotalImcuRows() && AllIndexed(x, dec.src.avail, f, comps, g, size, index, clear, i)
      invariant AtMcu(dec, x, FirstOf(x), if i < f.TotalImcuRows() then W.Passed(f, comps, g, i, 0, 0) else W.Index(g, g.rows, 0))
      invariant i > 0 ==> |x.plan.comps| <= 3
    {
      var offsets;
      ghost var rowsClear;
      var rows := W.RowsOf(f, comps, g, i);
      W.RowsAddUp(f, comps, g, i);
      RowsCounted(f, comps, g, i);
      r, offsets, rowsClear, m := IndexImcuRow(dec, rows, g.perRow, size, x, FirstOf(x), W.Passed(f, comps, g, i, 0, 0));
      if !r.IndexComplete? { return; }
      index, clear, i := index + [offsets], clear + [rowsClear], i + 1;
    }
    r := IndexComplete;
  }

  /** At the start of a scan nothing has been decoded. */
  lemma StartsAtFirst(dec: ScanDecoder, x: Stream)
    requires Stands(dec, x, FirstOf(x)) && Packable(dec.st)
    ensures AtMcu(dec, x, FirstOf(x), 0)
  {
    hide Stands, FirstOf;
    StandsValid(dec, x, FirstOf(x));
  }

  // ----- Seeking in the index -----

  /** The place of an entry, and the number of the MCU that it stands for. */
  lemma EntryPlace(x: Stream, avail: nat, f: Frame, comps: seq<nat>, g: ScanGrid, size: nat, index: seq<seq<Offset>>,
                   clear: seq<seq<bool>>, i: nat, y: nat, j: nat)
    requires x.Valid() && size > 0 && W.ForScan(f, comps, g) && AllIndexed(x, avail, f, comps, g, size, index, clear, f.TotalImcuRows())
    requires i < f.TotalImcuRows() && y < W.RowsIn(f, comps, i) && j < DivRoundUp(g.perRow, size)
    ensures var p := EntryOf(DivRoundUp(g.perRow, size), y, j);
            && i < |index| == |clear| && p < |index[i]| == |clear[i]|
            && EntryFor(x, avail, index[i][p], EnteredAt(x, FirstOf(x), W.Passed(f, comps, g, i, y, Sampled(0, size, j))), clear[i][p])
  {
    hide Stream.Valid, EntryFor, EnteredAt, DivRoundUp, Grid, W.RowsIn, W.FirstRow, Frame.TotalImcuRows, FirstOf;
    assert Indexed(x, avail, FirstOf(x), index[i], clear[i], W.Passed(f, comps, g, i, 0, 0), W.RowsIn(f, comps, i), g.perRow, size);
    MulDistrib(W.FirstRow(f, comps, i), y, g.perRow);
    assert Sampled(EntryOf(g.perRow, y, W.Passed(f, comps, g, i, 0, 0)), size, j) == W.Passed(f, comps, g, i, y, Sampled(0, size, j));
  }

  /**
   Seeking to entry `j` of MCU row `y` of iMCU row `i` delivers the blocks of the MCU in column `j * size` of that row, as decoding in
   order does, provided that the segment has not run dry before it, and that the marker had not been met when the entry was made or
   the MCU lies within its segment.
   */
  method SeekInIndex(dec: ScanDecoder, f: Frame, comps: seq<nat>, g: ScanGrid, size: nat, index: seq<seq<Offset>>, i: nat, y: nat, j: nat,
                     blocks: seq<array<int>>, ghost clear: seq<seq<bool>>, ghost x: Stream, ghost st: Stand)
    returns (ok: bool, ghost r: Stand)
    requires Stands(dec, x, st) && x.Valid() && !dec.src.insufficient && |x.file| < 0x800_0000
    requires size > 0 && W.ForScan(f, comps, g)
    requires AllIndexed(x, dec.src.avail, f, comps, g, size, index, clear, f.TotalImcuRows())
    requires i < f.TotalImcuRows() && y < W.RowsIn(f, comps, i) && j < DivRoundUp(g.perRow, size)
    requires var e := EnteredAt(x, FirstOf(x), W.Passed(f, comps, g, i, y, Sampled(0, size, j))); e.Inside? && !e.s.skip
    requires Distinct(blocks) && |blocks| == |x.plan.membership|
    modifies dec`st, dec`n, dec`lastDc, dec`restartsToGo, dec`nextRestartNum,
             dec.src`unreadMarker, dec.src`insufficient, dec.src`seg, dec.src`data, blocks
    ensures var e, p := EnteredAt(x, FirstOf(x), W.Passed(f, comps, g, i, y, Sampled(0, size, j))), EntryOf(DivRoundUp(g.perRow, size), y, j);
            && i < |clear| && p < |clear[i]|
            && Shadows(x, r, e, clear[i][p])
            && (ok ==> Stands(dec, x, Passed(x, r)))
            && (ok && (clear[i][p] || Within(x, e)) ==>
                  && Contents(blocks) == Filled(x, e, old(Contents(blocks)))
                  && Shadows(x, Passed(x, r), Passed(x, e), clear[i][p]))
    ensures !ok ==> Stands(dec, x, r) && (dec.src.avail < |x.file| || Open(x, r))
  {
    hide Stands, Contents, Distinct, Open, Passed, Filled, Shadows, Within, EntryFor, AllIndexed, DivRoundUp, EnteredAt, FirstOf, Stream.Valid,
         Grid, W.RowsIn, W.Passed, Frame.TotalImcuRows;
    EntryPlace(x, dec.src.avail, f, comps, g, size, index, clear, i, y, j);
    ghost var e := EnteredAt(x, FirstOf(x), W.Passed(f, comps, g, i, y, Sampled(0, size, j)));
    var p := EntryOf(DivRoundUp(g.perRow, size), y, j);
    ok, r := SeekAndDecode(dec, index[i][p], blocks, x, st, e, clear[i][p]);
  }
}
