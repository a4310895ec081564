/** Sequential coding loses nothing: reading a whole scan, however its bytes arrive, and the two-pass theorem. */
module SequentialTheorem {
  import opened BitInput
  import opened BitOutput
  import opened Bits
  import opened Coefficients
  import opened HuffDecoding
  import opened HuffTables
  import opened McuDecoder
  import opened Scans
  import opened Segments
  import opened SeqDecoder
  import opened SeqEncoder
  import opened SeqGather
  import opened SeqRoundTrip
  import opened SeqScanDecoder
  import opened SeqScanEncoder
  import opened Statistics
  import opened Streams
  import opened Tokens
  import opened TwoPass
  import Seqs

  /** The stream that is read, and what it was made from. */
  datatype Source = Source(plan: Plan, hs: seq<HuffTable>, ets: seq<EncTable>, mcus: seq<Mcu>, done: seq<(seq<nat>, nat)>,
                           m: nat, rest: seq<nat>) {
    ghost predicate Valid() {
      && Agree(plan, hs, ets) && GoodMcus(plan, mcus) && ScanInRange(plan, mcus) && IsMarker(m)
      && (forall mcu <- mcus :: ShortMcu(mcu))
      && StreamHolds(plan, ets, done, AllSegs(mcus, plan.restartInterval), m)
    }

    ghost function File(): (f: seq<nat>) { Join(done) + rest }

    /** The restart intervals. */
    ghost function All(): (all: seq<seq<Mcu>>) { AllSegs(mcus, plan.restartInterval) }

    /** The j-th segment as the scanner sees it. */
    ghost function Seg(j: nat): (s: Segment)
      requires j < |done|
    {
      SegAt(done, j)
    }

    /** What the MCU at place `k` of interval `j` is decoded from. */
    ghost function StartAt(j: nat, k: nat): (s: Start)
      requires Valid() && j < |done| == |All()| && k <= |All()[j]|
      ensures |s.pred| == MAX_COMPS_IN_SCAN
    {
      AgreeReadable(plan, hs, ets);
      IntervalGood(plan, ets, done, All(), m, j, k);
      Start(Unpack(done[j].0), |TokenBits(ets, SegTokens(plan, All()[j][..k]))|, SegDc(plan, All()[j][..k]), false)
    }
  }

  lemma IntervalGood(plan: Plan, ets: seq<EncTable>, done: seq<(seq<nat>, nat)>, all: seq<seq<Mcu>>, m: nat, j: nat, k: nat)
    requires StreamHolds(plan, ets, done, all, m) && j < |all| && k <= |all[j]|
    ensures plan.Valid() && GoodMcus(plan, all[j][..k]) && SegmentHolds(plan, ets, done[j].0, all[j])
  {
    hide GoodMcu, SegTokens, TokenBits, Padded, Unpack, AllCoded;
    assert SegmentHolds(plan, ets, done[j].0, all[j]);
    GoodPrefix(plan, all[j], k);
  }

  lemma SourceFramed(x: Source)
    requires x.Valid()
    ensures Framed(x.done, x.m)
  {
    hide Agree, ScanInRange, Split, ShortMcu, GoodMcu, Padded, SegTokens, TokenBits, Unpack;
    forall j | 0 <= j < |x.done|
      ensures AreBytes(x.done[j].0) && x.done[j].1 == if j < |x.done| - 1 then RstMarker(j) else x.m
    {
      assert SegmentHolds(x.plan, x.ets, x.done[j].0, x.All()[j]);
    }
  }

  lemma FirstSeg(x: Source)
    requires x.Valid() && x.done != []
    ensures Scan(x.File(), 0) == x.Seg(0)
  {
    hide Source.Valid, Join, Scan;
    SourceFramed(x);
    SegScanned(x.done, x.m, x.rest, 0);
  }

  lemma NextSeg(x: Source, j: nat)
    requires x.Valid() && j + 1 < |x.done|
    ensures x.Seg(j).next <= |x.File()|
    ensures Scan(x.File(), x.Seg(j).next) == x.Seg(j + 1) && x.Seg(j).marker == RstMarker(j)
  {
    hide Source.Valid, Join, Scan;
    SourceFramed(x);
    SegScanned(x.done, x.m, x.rest, j);
  }

  lemma SegWithin(x: Source, j: nat)
    requires x.Valid() && j < |x.done|
    ensures x.Seg(j).next <= |x.File()| && x.Seg(j).marker != 0
  {
    hide Source.Valid, Join, Scan;
    SourceFramed(x);
    SegScanned(x.done, x.m, x.rest, j);
  }

  /** The decoder stands before the MCU at place `k` of interval `j`. */
  ghost predicate Before(dec: ScanDecoder, x: Source, j: nat, k: nat)
    requires x.Valid() && j < |x.done| == |x.All()| && k < |x.All()[j]|
    reads dec, dec.src
  {
    && dec.Valid() && dec.plan == x.plan && dec.hs == x.hs && dec.needs == AllNeeded(x.plan) && dec.src.file == x.File()
    && dec.Next() == x.StartAt(j, k)
    && dec.Upcoming().seg == x.Seg(j) && dec.Upcoming().num == j % 8
    && (x.plan.restartInterval > 0 ==> dec.Upcoming().left == x.plan.restartInterval - k)
    && (dec.AtRestart() ==> j > 0 && dec.src.seg == x.Seg(j - 1) && dec.src.seg.marker == RST0 + dec.nextRestartNum)
  }

  /** The MCU is decoded as it was encoded, and the decoder moves on. */
  lemma McuCorrect(x: Source, j: nat, k: nat)
    requires x.Valid() && j < |x.done| == |x.All()| && k < |x.All()[j]|
    requires var mcu := x.All()[j][k];
             && GoodMcu(x.plan, mcu) && ShortMcu(mcu)
             && McuInRange(x.plan, mcu, |mcu|, x.StartAt(j, k).pred)
    ensures var s, mcu, s' := x.StartAt(j, k), x.All()[j][k], x.StartAt(j, k + 1);
            && Readable(x.plan, x.hs)
            && McuFinal(x.plan, x.hs, AllNeeded(x.plan), s, ZeroBlocks(|mcu|)) == ZigzagMcu(mcu)
            && McuEnd(x.plan, x.hs, s) == s'.n <= |s.data| == |s'.data| && s'.data == s.data
            && McuPred(x.plan, x.hs, AllNeeded(x.plan), s) == s'.pred
  {
    hide McuFinal, McuEnd, McuPred, McuInRange, SegTokens, SegDc, TokenBits, Unpack, Agree, ScanInRange, ShortMcu, Stands,
         AllCoded, McuTokens, DcAfter, Split, GoodMcu, ZeroBlocks, ZigzagMcu;
    AgreeReadable(x.plan, x.hs, x.ets);
    IntervalGood(x.plan, x.ets, x.done, x.All(), x.m, j, k);
    McuStands(x.plan, x.ets, x.done[j].0, x.All()[j], k);
    McuRoundTrip(x.plan, x.hs, x.ets, x.All()[j][k], x.StartAt(j, k));
  }

  /** After an MCU that does not complete its interval. */
  lemma StaysInInterval(dec: ScanDecoder, x: Source, j: nat, k: nat, u: Books)
    requires x.Valid() && j < |x.done| == |x.All()| && k + 1 < |x.All()[j]|
    requires dec.Valid() && dec.plan == x.plan && dec.hs == x.hs && dec.needs == AllNeeded(x.plan) && dec.src.file == x.File()
    requires u.seg == x.Seg(j) && u.num == j % 8
    requires var ri := x.plan.restartInterval; ri > 0 ==> u.left == ri - k && k + 1 < ri <= 65535
    requires Books(dec.src.seg, dec.restartsToGo, dec.nextRestartNum) == CountedDown(u)
    requires !dec.AtRestart() ==> dec.Next() == x.StartAt(j, k + 1)
    ensures Before(dec, x, j, k + 1)
  {
    hide ScanDecoder.Valid, ScanDecoder.Next, Source.Valid, Source.StartAt, Source.All, Source.Seg, Scan;
  }

  /** After the MCU that completes an interval: the restart marker is next. */
  lemma EntersInterval(dec: ScanDecoder, x: Source, j: nat, u: Books)
    requires x.Valid() && j + 1 < |x.done| == |x.All()| && |x.All()[j + 1]| > 0
    requires dec.Valid() && dec.plan == x.plan && dec.hs == x.hs && dec.needs == AllNeeded(x.plan) && dec.src.file == x.File()
    requires u.seg == x.Seg(j) && u.num == j % 8 && x.plan.restartInterval > 0 && u.left == 1
    requires Books(dec.src.seg, dec.restartsToGo, dec.nextRestartNum) == CountedDown(u)
    ensures Before(dec, x, j + 1, 0)
  {
    hide ScanDecoder.Valid, Source.Valid, Source.All, Scan, SegTokens, SegDc, TokenBits, Unpack, Join;
    NextSeg(x, j);
    IntervalStarts(x, j + 1);
  }

  lemma IntervalStarts(x: Source, j: nat)
    requires x.Valid() && j < |x.done| == |x.All()|
    ensures x.StartAt(j, 0) == Start(Unpack(x.done[j].0), 0, NoDc(), false)
  {
    hide Source.Valid, Source.All, SegTokens, SegDc, TokenBits, Unpack;
    PlanValid(x);
    assert x.All()[j][..0] == [];
    SegEmpty(x.plan);
    NoTokenBits(x.ets);
  }

  lemma PlanValid(x: Source)
    requires x.Valid()
    ensures x.plan.Valid() && Readable(x.plan, x.hs) && |x.done| == |x.All()| && GoodMcus(x.plan, x.mcus)
  {
    AgreeReadable(x.plan, x.hs, x.ets);
  }

  lemma NoTokenBits(ets: seq<EncTable>)
    ensures TokenBits(ets, []) == []
  {
  }

  // ----- Reading a scan -----

  method NewBlocks(n: nat) returns (blocks: seq<array<int>>)
    ensures |blocks| == n && Distinct(blocks) && fresh(blocks) && Contents(blocks) == ZeroBlocks(n)
  {
    hide Zigzag;
    blocks := [];
    while |blocks| < n
      invariant |blocks| <= n && fresh(blocks)
      invariant forall b :: 0 <= b < |blocks| ==> blocks[b].Length == 64 && blocks[b][..] == Zeros()
      invariant forall b, b' :: 0 <= b < b' < |blocks| ==> blocks[b] != blocks[b']
    {
      var block := new int[64](i => 0);
      assert block[..] == Zeros();
      blocks := blocks + [block];
    }
    ZigzagZeros();
    assert Contents(blocks) == ZeroBlocks(n);
  }

  lemma ZigzagZeros()
    ensures Zigzag(Zeros()) == Zeros()
  {
    hide NaturalOrder;
  }

  /** With all input at hand the decoder does not suspend. */
  lemma NothingMissing(dec: ScanDecoder, x: Source, j: nat, k: nat)
    requires x.Valid() && j < |x.done| == |x.All()| && k < |x.All()[j]| && Before(dec, x, j, k)
    requires !dec.src.Delivered()
    ensures dec.src.avail < |dec.src.file|
  {
    hide Source.Valid, ScanDecoder.Valid, ScanDecoder.Next, Source.StartAt, Source.Seg, Source.File;
    SegWithin(x, j);
    if j > 0 { SegWithin(x, j - 1); }
    UpcomingHere(dec);
    dec.FileBound();
  }

  lemma UpcomingHere(dec: ScanDecoder)
    requires dec.Valid()
    ensures !dec.AtRestart() ==> dec.Upcoming().seg == dec.src.seg
  {
  }

  /** What the decoder must show before the MCU. */
  ghost predicate Ready0(dec: ScanDecoder, x: Source, j: nat, k: nat, u: Books)
    requires x.Valid() && j < |x.done| == |x.All()| && k < |x.All()[j]|
    reads dec, dec.src
  {
    && dec.plan == x.plan && dec.hs == x.hs && dec.needs == AllNeeded(x.plan) && dec.src.file == x.File()
    && u.seg == x.Seg(j) && u.num == j % 8 && (x.plan.restartInterval > 0 ==> u.left == x.plan.restartInterval - k)
    && (dec.AtRestart() ==> j > 0 && dec.src.seg == x.Seg(j - 1) && dec.src.seg.marker == RST0 + dec.nextRestartNum)
  }

  lemma BeforeFacts(dec: ScanDecoder, x: Source, j: nat, k: nat)
    requires x.Valid() && j < |x.done| == |x.All()| && k < |x.All()[j]| && Before(dec, x, j, k)
    ensures dec.Valid() && dec.Next() == x.StartAt(j, k) && Ready0(dec, x, j, k, dec.Upcoming())
  {
    hide Source.Valid, ScanDecoder.Valid, ScanDecoder.Next, ScanDecoder.Upcoming, Source.StartAt, Source.All, Source.Seg, Source.File;
  }

  lemma StillBefore(dec: ScanDecoder, x: Source, j: nat, k: nat)
    requires x.Valid() && j < |x.done| == |x.All()| && k < |x.All()[j]|
    requires dec.Valid() && dec.Next() == x.StartAt(j, k) && Ready0(dec, x, j, k, dec.Upcoming())
    ensures Before(dec, x, j, k)
  {
    hide Source.Valid, ScanDecoder.Valid, ScanDecoder.Next, ScanDecoder.Upcoming, Source.StartAt, Source.All, Source.Seg, Source.File;
  }

  /** The decoder stands where the next MCU, if there is one, begins. */
  ghost predicate After(dec: ScanDecoder, x: Source, j: nat, k: nat)
    requires x.Valid() && j < |x.done| == |x.All()| && k < |x.All()[j]|
    reads dec, dec.src
  {
    if x.plan.restartInterval > 0 && k + 1 == x.plan.restartInterval then
      j + 1 < |x.done| && |x.All()[j + 1]| > 0 ==> Before(dec, x, j + 1, 0)
    else k + 1 < |x.All()[j]| ==> Before(dec, x, j, k + 1)
  }

  lemma DecodedThen(dec: ScanDecoder, x: Source, j: nat, k: nat, u: Books)
    requires x.Valid() && j < |x.done| == |x.All()| && k < |x.All()[j]|
    requires dec.Valid() && dec.plan == x.plan && dec.hs == x.hs && dec.needs == AllNeeded(x.plan) && dec.src.file == x.File()
    requires u.seg == x.Seg(j) && u.num == j % 8
    requires var ri := x.plan.restartInterval; ri > 0 ==> u.left == ri - k && k < ri <= 65535
    requires Books(dec.src.seg, dec.restartsToGo, dec.nextRestartNum) == CountedDown(u)
    requires !dec.AtRestart() ==> dec.Next() == x.StartAt(j, k + 1)
    ensures After(dec, x, j, k)
  {
    hide Source.Valid, ScanDecoder.Valid, ScanDecoder.Next, ScanDecoder.Upcoming, Source.StartAt, Source.All, Source.Seg,
         Source.File, Before;
    var ri := x.plan.restartInterval;
    if ri > 0 && k + 1 == ri {
      if j + 1 < |x.done| && |x.All()[j + 1]| > 0 { EntersInterval(dec, x, j, u); }
    } else if k + 1 < |x.All()[j]| {
      StaysInInterval(dec, x, j, k, u);
    }
  }

  /** The blocks hold what leads to the encoded coefficients. */
  ghost predicate OnCourse(x: Source, j: nat, k: nat, zs: seq<seq<int>>)
    requires x.Valid() && j < |x.done| == |x.All()| && k < |x.All()[j]|
  {
    && Readable(x.plan, x.hs) && |zs| == |x.plan.membership| && (forall z <- zs :: |z| == 64)
    && GoodMcu(x.plan, x.All()[j][k])
    && McuFinal(x.plan, x.hs, AllNeeded(x.plan), x.StartAt(j, k), zs) == ZigzagMcu(x.All()[j][k])
  }

  /** What is asked of the MCU at place `k` of interval `j`. */
  ghost predicate McuAt(x: Source, j: nat, k: nat)
    requires x.Valid()
  {
    && j < |x.done| == |x.All()| && k < |x.All()[j]|
    && GoodMcu(x.plan, x.All()[j][k]) && ShortMcu(x.All()[j][k]) && x.plan.Valid()
    && McuInRange(x.plan, x.All()[j][k], |x.All()[j][k]|, x.StartAt(j, k).pred)
    && (x.plan.restartInterval > 0 ==> k < x.plan.restartInterval <= 65535)
  }

  lemma StartsOnCourse(x: Source, j: nat, k: nat)
    requires x.Valid() && McuAt(x, j, k)
    ensures OnCourse(x, j, k, ZeroBlocks(|x.plan.membership|))
  {
    hide Source.Valid, Source.StartAt, Source.All, McuFinal, McuInRange, ShortMcu, ZeroBlocks, ZigzagMcu;
    McuCorrect(x, j, k);
  }

  lemma Arrives(dec: ScanDecoder, x: Source, j: nat, k: nat, u: Books, s: Start)
    requires x.Valid() && McuAt(x, j, k) && Readable(x.plan, x.hs) && s == x.StartAt(j, k)
    requires dec.Valid() && dec.plan == x.plan && dec.hs == x.hs && dec.needs == AllNeeded(x.plan) && dec.src.file == x.File()
    requires u.seg == x.Seg(j) && u.num == j % 8 && (x.plan.restartInterval > 0 ==> u.left == x.plan.restartInterval - k)
    requires Books(dec.src.seg, dec.restartsToGo, dec.nextRestartNum) == CountedDown(u)
    requires !dec.AtRestart() ==>
               && dec.Next() == Start(s.data, if s.skip then s.n else McuEnd(x.plan, x.hs, s),
                                      McuPred(x.plan, x.hs, AllNeeded(x.plan), s), dec.src.insufficient)
               && (dec.src.insufficient ==> s.skip || |s.data| < McuEnd(x.plan, x.hs, s))
    ensures After(dec, x, j, k)
  {
    hide Source.Valid, ScanDecoder.Valid, ScanDecoder.Next, ScanDecoder.Upcoming, Source.All, McuInRange, ShortMcu, McuFinal,
         McuEnd, McuPred, After, Readable, Unpack, SegTokens, TokenBits, SegDc, Source.Seg, Source.File;
    McuCorrect(x, j, k);
    DecodedThen(dec, x, j, k, u);
  }

  /** One call of `decode_mcu`. */
  method Attempt(dec: ScanDecoder, blocks: seq<array<int>>, ghost x: Source, ghost j: nat, ghost k: nat) returns (ok: bool)
    requires x.Valid() && McuAt(x, j, k) && Before(dec, x, j, k)
    requires Distinct(blocks) && OnCourse(x, j, k, Contents(blocks))
    modifies dec`st, dec`n, dec`lastDc, dec`restartsToGo, dec`nextRestartNum,
             dec.src`unreadMarker, dec.src`insufficient, dec.src`seg, dec.src`data, blocks
    ensures Distinct(blocks)
    ensures ok ==> Contents(blocks) == ZigzagMcu(x.All()[j][k]) && After(dec, x, j, k)
    ensures !ok ==> Before(dec, x, j, k) && OnCourse(x, j, k, Contents(blocks)) && dec.src.avail < |dec.src.file|
  {
    hide Source.Valid, ScanDecoder.Valid, ScanDecoder.Next, ScanDecoder.Upcoming, Source.StartAt, Source.All, Contents, McuFinal,
         GoodMcu, Before, After, BitSource.Delivered, Distinct, ZigzagMcu, Source.Seg, Source.File, McuInRange, ShortMcu, McuEnd,
         McuPred, Readable;
    BeforeFacts(dec, x, j, k);
    ghost var u, s := dec.Upcoming(), dec.Next();
    var o := dec.DecodeMcu(blocks);
    if o.NeedsResync? { assert false; }
    ok := o.Decoded?;
    if ok {
      Arrives(dec, x, j, k, u, s);
    } else {
      StillBefore(dec, x, j, k);
      NothingMissing(dec, x, j, k);
    }
  }

  /** Reads one MCU into zeroed blocks; `grants` says how many more bytes arrive at each suspension. */
  method ReadMcu(dec: ScanDecoder, grants: seq<nat>, ghost x: Source, ghost j: nat, ghost k: nat)
    returns (ok: bool, blocks: seq<array<int>>, left: seq<nat>)
    requires x.Valid() && McuAt(x, j, k) && Before(dec, x, j, k)
    modifies dec`st, dec`n, dec`lastDc, dec`restartsToGo, dec`nextRestartNum, dec.src
    ensures Accounted(|dec.src.file|, old(dec.src.avail), grants, dec.src.avail, left)
    ensures ok ==> Distinct(blocks) && Contents(blocks) == ZigzagMcu(x.All()[j][k]) && After(dec, x, j, k)
    ensures !ok ==> left == [] && dec.src.avail < |dec.src.file|
  {
    hide Source.Valid, ScanDecoder.Valid, ScanDecoder.Next, ScanDecoder.Upcoming, Contents, Before, After, Distinct, ZigzagMcu,
         OnCourse, Source.All, Source.StartAt, GoodMcu, ShortMcu, McuInRange;
    ok, left := false, grants;
    BeforeFacts(dec, x, j, k);
    StartsOnCourse(x, j, k);
    blocks := NewBlocks(|dec.plan.membership|);
    while true
      invariant Before(dec, x, j, k) && Distinct(blocks) && fresh(blocks) && OnCourse(x, j, k, Contents(blocks))
      invariant Accounted(|dec.src.file|, old(dec.src.avail), grants, dec.src.avail, left)
      decreases |left|
    {
      ok := Attempt(dec, blocks, x, j, k);
      if ok || left == [] { return; }
      BeforeFacts(dec, x, j, k);
      dec.Supply(left[0]);
      StillBefore(dec, x, j, k);
      left := left[1..];
    }
  }

  lemma McuAtWhere(x: Source, i: nat)
    requires x.Valid() && i < |x.mcus|
    ensures var (j, k) := Where(x.mcus, x.plan.restartInterval, i);
            McuAt(x, j, k) && x.All()[j][k] == x.mcus[i]
  {
    hide GoodMcu, ShortMcu, McuInRange, SegDc, Split, TokenBits, SegTokens, Agree, StreamHolds, AllSegs, Where;
    PlanValid(x);
    GoodPrefix(x.plan, x.mcus, i);
    WhereIs(x.mcus, x.plan.restartInterval, i);
    DcBeforeIs(x.plan, x.mcus, i);
    assert x.mcus[i] in x.mcus;
    assert NthInRange(x.plan, x.mcus, i);
  }

  lemma MovesToNext(dec: ScanDecoder, x: Source, i: nat)
    requires x.Valid() && i + 1 < |x.mcus|
    requires var (j, k) := Where(x.mcus, x.plan.restartInterval, i); McuAt(x, j, k) && After(dec, x, j, k)
    ensures var (j, k) := Where(x.mcus, x.plan.restartInterval, i + 1); McuAt(x, j, k) && Before(dec, x, j, k)
  {
    hide Source.Valid, Source.All, Source.StartAt, Before, GoodMcu, ShortMcu, McuInRange, Where;
    McuAtWhere(x, i + 1);
    WhereNext(x.mcus, x.plan.restartInterval, i);
  }

  /** The blocks in natural order. */
  method CopyOut(blocks: seq<array<int>>, ghost mcu: Mcu) returns (r: Mcu)
    requires Distinct(blocks) && (forall block <- mcu :: |block| == 64) && Contents(blocks) == ZigzagMcu(mcu)
    ensures r == mcu
  {
    hide Zigzag;
    r := seq(|blocks|, b requires 0 <= b < |blocks| reads blocks => blocks[b][..]);
    forall b | 0 <= b < |mcu| ensures r[b] == mcu[b] {
      assert Contents(blocks)[b] == ZigzagMcu(mcu)[b];
      ZigzagInjective(r[b], mcu[b]);
    }
  }

  lemma MembersGood(x: Source, i: nat)
    requires x.Valid() && i < |x.mcus|
    ensures GoodMcu(x.plan, x.mcus[i])
  {
    assert x.mcus[i] in x.mcus;
  }

  /** The decoder stands before the i-th MCU, if there is one. */
  ghost predicate BeforeNth(dec: ScanDecoder, x: Source, i: nat)
    requires x.Valid()
    reads dec, dec.src
  {
    i < |x.mcus| ==>
      var (j, k) := Where(x.mcus, x.plan.restartInterval, i);
      McuAt(x, j, k) && Before(dec, x, j, k)
  }

  /** Reads the i-th MCU of a scan. */
  method ReadNth(dec: ScanDecoder, grants: seq<nat>, ghost x: Source, ghost i: nat) returns (ok: bool, mcu: Mcu, left: seq<nat>)
    requires x.Valid() && i < |x.mcus| && BeforeNth(dec, x, i)
    modifies dec`st, dec`n, dec`lastDc, dec`restartsToGo, dec`nextRestartNum, dec.src
    ensures Accounted(|dec.src.file|, old(dec.src.avail), grants, dec.src.avail, left)
    ensures ok ==> mcu == x.mcus[i] && BeforeNth(dec, x, i + 1)
    ensures !ok ==> left == [] && dec.src.avail < |dec.src.file|
  {
    hide Source.Valid, Contents, Before, After, Distinct, ZigzagMcu, McuAt, Where, Accounted;
    McuAtWhere(x, i);
    ghost var (j, k) := Where(x.mcus, x.plan.restartInterval, i);
    var blocks;
    mcu := [];
    ok, blocks, left := ReadMcu(dec, grants, x, j, k);
    if !ok { return; }
    MembersGood(x, i);
    mcu := CopyOut(blocks, x.mcus[i]);
    if i + 1 < |x.mcus| { MovesToNext(dec, x, i); }
  }

  /** Reads all MCUs of a scan. */
  method ReadScan(dec: ScanDecoder, count: nat, grants: seq<nat>, ghost x: Source) returns (ok: bool, mcus: seq<Mcu>)
    requires x.Valid() && count == |x.mcus| && BeforeNth(dec, x, 0)
    modifies dec`st, dec`n, dec`lastDc, dec`restartsToGo, dec`nextRestartNum, dec.src
    ensures ok ==> mcus == x.mcus
    ensures !ok ==> old(dec.src.avail) + Total(grants) < |dec.src.file|
  {
    hide Source.Valid, BeforeNth;
    ok, mcus := true, [];
    var left, mcu := grants, [];
    var i := 0;
    while i < count
      invariant 0 <= i <= count && mcus == x.mcus[..i] && BeforeNth(dec, x, i)
      invariant Accounted(|dec.src.file|, old(dec.src.avail), grants, dec.src.avail, left)
    {
      ok, mcu, left := ReadNth(dec, left, x, i);
      if !ok { return; }
      mcus := mcus + [mcu];
      i := i + 1;
    }
  }

  // ----- The theorem -----

  datatype Transport = Restored(mcus: seq<Mcu>) | Rejected(error: Error) | Starved

  /** The tables made for a scan serve the encoder and the decoder. */
  lemma TablesServe(plan: Plan, hs: seq<HuffTable>, toks: seq<Token>)
    requires plan.Valid() && TablesFor(plan, hs, toks) && forall h <- hs :: h.WellTyped()
    ensures UsableTables(plan, hs)
  {
    hide Selected;
    forall t: nat | t < |hs| && Selected(plan, t) ensures Usable(hs[t], t) { assert TableFor(hs[t], toks, t); }
  }

  lemma TablesReadable(plan: Plan, hs: seq<HuffTable>)
    requires UsableTables(plan, hs)
    ensures Readable(plan, hs)
    ensures forall b :: 0 <= b < |plan.membership| ==> BothSelected(plan, b)
  {
    hide Selected, Usable;
    forall b | 0 <= b < |plan.membership| ensures BothSelected(plan, b) && BlockTables(plan, hs, b) {
      SelectedMore(plan, plan.Ci(b));
      assert plan.CompOf(b).Valid();
      UsableDc(hs[plan.CompOf(b).DcT()], plan.CompOf(b).DcT());
      UsableAc(hs[plan.CompOf(b).AcT()], plan.CompOf(b).AcT());
    }
  }

  ghost predicate BothSelected(plan: Plan, b: nat)
    requires plan.Valid() && b < |plan.membership|
  {
    Selected(plan, plan.CompOf(b).DcT()) && Selected(plan, plan.CompOf(b).AcT())
  }

  lemma TablesAgree(plan: Plan, hs: seq<HuffTable>, ets: seq<EncTable>)
    requires UsableTables(plan, hs) && |ets| == |hs|
    requires forall t: nat :: t < |hs| && Selected(plan, t) ==> Matches(hs[t], ets[t])
    ensures Agree(plan, hs, ets)
  {
    hide Selected, Matches, Usable, BlockTables;
    TablesReadable(plan, hs);
    forall b | 0 <= b < |plan.membership|
      ensures var c := plan.CompOf(b); Matches(hs[c.DcT()], ets[c.DcT()]) && Matches(hs[c.AcT()], ets[c.AcT()])
    {
      assert BothSelected(plan, b);
      assert plan.CompOf(b).Valid();
    }
  }

  lemma TablesReady(plan: Plan, hs: seq<HuffTable>, ds: seq<DecTable>)
    requires UsableTables(plan, hs) && |ds| == |hs|
    requires forall t: nat :: t < |hs| && Selected(plan, t) ==> Derived(hs[t], ds[t])
    ensures Ready(plan, hs, ds)
  {
    hide Selected, Derived, Usable, BlockTables;
    TablesReadable(plan, hs);
    forall b | 0 <= b < |plan.membership|
      ensures var c := plan.CompOf(b); Derived(hs[c.DcT()], ds[c.DcT()]) && Derived(hs[c.AcT()], ds[c.AcT()])
    {
      assert BothSelected(plan, b);
      assert plan.CompOf(b).Valid();
    }
  }

  lemma UsableDc(h: HuffTable, t: nat)
    requires Usable(h, t) && t < NUM_HUFF_TBLS
    ensures DcTable(h)
  {
  }

  lemma UsableAc(h: HuffTable, t: nat)
    requires Usable(h, t)
    ensures Decodable(h)
  {
  }

  /** All symbols belong to tables that the scan selects. */
  ghost predicate SymsSelected(plan: Plan, toks: seq<Token>) { forall tok <- toks :: tok.Sym? ==> Selected(plan, tok.t) }

  lemma BlockSelected(plan: Plan, mcu: Mcu, b: nat, lastDc: seq<int>)
    requires plan.Valid() && GoodMcu(plan, mcu) && b < |mcu| && |lastDc| == MAX_COMPS_IN_SCAN
    ensures SymsSelected(plan, McuBlockTokens(plan, mcu, b, lastDc))
  {
    var c, z, last := plan.CompOf(b), Zigzag(mcu[b]), DcAfter(plan, mcu, b, lastDc)[plan.Ci(b)];
    SelectedMore(plan, plan.Ci(b));
    DcOfTable(c.DcT(), z[0] - last);
    AcOfTable(c.AcT(), z);
    hide Selected, DcTokens, AcTokens, DcAfter, Zigzag;
  }

  lemma DcOfTable(t: nat, diff: int)
    ensures OfTable(DcTokens(t, diff), t)
  {
  }

  lemma AcOfTable(t: nat, z: seq<int>)
    requires |z| == 64
    ensures OfTable(AcTokens(t, z), t)
  {
    RunsOfTable(z, t, 1, 63);
  }

  lemma {:induction false} McuSelected(plan: Plan, mcu: Mcu, b: nat, lastDc: seq<int>)
    requires plan.Valid() && GoodMcu(plan, mcu) && b <= |mcu| && |lastDc| == MAX_COMPS_IN_SCAN
    ensures SymsSelected(plan, McuTokens(plan, mcu, b, lastDc))
    decreases b
  {
    hide Selected, McuBlockTokens;
    if b > 0 {
      McuSelected(plan, mcu, b - 1, lastDc);
      BlockSelected(plan, mcu, b - 1, lastDc);
    }
  }

  lemma {:induction false} AllSelected(plan: Plan, mcus: seq<Mcu>, n: nat)
    requires plan.Valid() && GoodMcus(plan, mcus) && n <= |mcus| && GoodMcus(plan, mcus[..n])
    ensures SymsSelected(plan, AllTokens(plan, mcus[..n]))
  {
    hide Selected, McuTokens, AllTokens, GoodMcu, DcBefore;
    if n == 0 {
      NoTokensYet(plan);
      assert mcus[..0] == [];
    } else {
      GoodPrefix(plan, mcus, n - 1);
      AllSelected(plan, mcus, n - 1);
      TokensNext(plan, mcus, n - 1);
      McuSelected(plan, mcus[n - 1], |mcus[n - 1]|, DcBefore(plan, mcus[..n - 1]));
    }
  }

  lemma NoTokensYet(plan: Plan)
    requires plan.Valid()
    ensures AllTokens(plan, []) == []
  {
    SplitNothing(plan.restartInterval);
  }

  lemma GatherFailure(st: Status, inRange: bool)
    requires Explained(st, inRange, true)
    ensures st.Success? <==> inRange
    ensures st.Failure? ==> st.error == BadDctCoef
  {
  }

  lemma NotEmpty(plan: Plan, mcus: seq<Mcu>)
    requires mcus != []
    ensures Split(mcus, plan.restartInterval).1 != []
  {
  }

  lemma GathererFacts(g: GatherEncoder)
    requires g.Valid() && (g.segs != [] || g.cur != [])
    ensures AllCodable(g.toks)
  {
  }

  lemma SourceValid(x: Source)
    requires Agree(x.plan, x.hs, x.ets) && GoodMcus(x.plan, x.mcus) && x.plan.Valid() && ScanInRange(x.plan, x.mcus)
    requires IsMarker(x.m) && (forall mcu <- x.mcus :: ShortMcu(mcu))
    requires StreamHolds(x.plan, x.ets, x.done, AllSegs(x.mcus, x.plan.restartInterval), x.m)
    ensures x.Valid()
  {
  }

  lemma SizesOf(plan: Plan, hs: seq<HuffTable>)
    requires UsableTables(plan, hs)
    ensures |hs| == 2 * NUM_HUFF_TBLS
  {
  }

  lemma SelectedTokens(plan: Plan, toks: seq<Token>)
    requires SymsSelected(plan, toks)
    ensures forall tok <- toks :: tok.Sym? ==> Selected(plan, tok.t)
  {
  }

  /** Gathers, makes the tables and encodes; the stream is followed by the marker `m`. */
  method CompressScan(plan: Plan, mcus: seq<Mcu>, tables: seq<HuffTable>, m: nat)
    returns (r: Result<(seq<HuffTable>, seq<nat>)>, ghost x: Source)
    requires plan.Valid() && plan.Covered() && GoodMcus(plan, mcus) && mcus != [] && IsMarker(m)
    requires forall mcu <- mcus :: ShortMcu(mcu)
    requires |tables| == 2 * NUM_HUFF_TBLS && forall h <- tables :: h.WellTyped()
    requires forall t: nat :: Selected(plan, t) ==> CountsFit(AllTokens(plan, mcus), t)
    ensures r.Err? ==> r.error == BadDctCoef || r.error == HuffClenOverflow
    ensures r == Err(BadDctCoef) <==> !ScanInRange(plan, mcus)
    ensures r == Err(HuffClenOverflow) ==> exists t: nat :: Selected(plan, t) && Overflows(AllTokens(plan, mcus), t)
    ensures r.Ok? ==> x.Valid() && x.plan == plan && x.mcus == mcus && x.hs == r.value.0 && x.m == m && x.rest == []
                      && UsableTables(plan, r.value.0) && r.value.1 == Join(x.done)
  {
    hide *;
    x := Source(plan, [], [], mcus, [], m, []);
    var st, g := Gather(plan, mcus);
    GatherFailure(st, ScanInRange(plan, mcus));
    if st.Failure? { return Err(st.error), x; }
    NotEmpty(plan, mcus);
    GathererFacts(g);
    var hs := g.FinishPassGather(tables);
    if hs.Err? { return Err(hs.error), x; }
    ghost var toks := AllTokens(plan, mcus);
    TablesServe(plan, hs.value, toks);
    var ets := StartEncoder(plan, hs.value);
    Seqs.TakeAll(mcus);
    AllSelected(plan, mcus, |mcus|);
    SelectedTokens(plan, toks);
    TokensCoded(plan, hs.value, ets, toks);
    SizesOf(plan, hs.value);
    TablesAgree(plan, hs.value, ets);
    var out;
    ghost var done;
    out, done := Encode(plan, ets, mcus, m);
    x := Source(plan, hs.value, ets, mcus, done, m, []);
    SourceValid(x);
    r := Ok((hs.value, out));
  }

  lemma FirstStart(dec: ScanDecoder, x: Source)
    requires x.Valid() && x.mcus != []
    requires dec.Valid() && !dec.AtRestart() && dec.plan == x.plan && dec.hs == x.hs && dec.needs == AllNeeded(x.plan)
    requires dec.src.file == x.File() && dec.src.seg == Scan(dec.src.file, 0) && dec.src.data == Unpack(dec.src.seg.data)
    requires dec.Next() == Start(dec.src.data, 0, NoDc(), false)
    requires dec.restartsToGo == x.plan.restartInterval && dec.nextRestartNum == 0
    ensures BeforeNth(dec, x, 0)
  {
    hide Source.Valid, ScanDecoder.Valid, ScanDecoder.Next, Source.StartAt, Source.All, Scan, Unpack, GoodMcu, ShortMcu,
         McuInRange, Source.File;
    WhereFirst(x.mcus, x.plan.restartInterval);
    McuAtWhere(x, 0);
    FirstSeg(x);
    IntervalStarts(x, 0);
  }

  /**
   Decodes a scan from its tables and its bytes alone, of which `first` are there at the beginning and the others come in pieces
   of the given sizes.  What it was made from (`x`) comes back, unless the pieces end before the file does.
   */
  method RestoreScan(plan: Plan, hs: seq<HuffTable>, count: nat, file: seq<nat>, first: nat, grants: seq<nat>, ghost x: Source)
    returns (ok: bool, mcus: seq<Mcu>)
    requires x.Valid() && x.plan == plan && x.hs == hs && x.mcus != [] && count == |x.mcus|
    requires UsableTables(plan, hs) && file == x.File() && AreBytes(x.rest)
    ensures ok ==> mcus == x.mcus
    ensures !ok ==> first + Total(grants) < |file|
  {
    hide *;
    SourceFramed(x);
    FileBytes(x.done, x.m, x.rest);
    FileIs(x);
    var ds := StartDecoder(plan, hs);
    TablesReady(plan, hs, ds);
    var src := new BitSource(file, if first <= |file| then first else |file|, 0);
    var dec := new ScanDecoder(plan, AllNeeded(plan), hs, ds, src, 0);
    FirstStart(dec, x);
    ok, mcus := ReadScan(dec, count, grants, x);
  }

  /**
   Gather, build optimal tables, encode, decode: the coefficients come back, whatever the restart interval and however
   the bytes arrive.  The stream `out` may be followed by anything (`rest`).  The scan is refused exactly if a coefficient is out of
   range, or for a code length overflow; otherwise, once all bytes have been delivered, it is restored.
   */
  method TwoPassRoundTrip(plan: Plan, mcus: seq<Mcu>, tables: seq<HuffTable>, m: nat, rest: seq<nat>, first: nat, grants: seq<nat>)
    returns (o: Transport, out: seq<nat>, ghost x: Source)
    requires plan.Valid() && plan.Covered() && GoodMcus(plan, mcus) && mcus != [] && IsMarker(m) && AreBytes(rest)
    requires forall mcu <- mcus :: ShortMcu(mcu)
    requires |tables| == 2 * NUM_HUFF_TBLS && forall h <- tables :: h.WellTyped()
    requires forall t: nat :: Selected(plan, t) ==> CountsFit(AllTokens(plan, mcus), t)
    ensures !o.Rejected? ==> x.Valid() && x.plan == plan && x.mcus == mcus && x.m == m && x.File() == out + rest
    ensures o.Restored? ==> o.mcus == mcus
    ensures !o.Rejected? && first + Total(grants) >= |out| + |rest| ==> o.Restored?
    ensures o == Rejected(BadDctCoef) <==> !ScanInRange(plan, mcus)
    ensures o.Rejected? && o.error != BadDctCoef ==>
              o.error == HuffClenOverflow && exists t: nat :: Selected(plan, t) && Overflows(AllTokens(plan, mcus), t)
  {
    hide *;
    var c;
    c, x := CompressScan(plan, mcus, tables, m);
    if c.Err? { return Rejected(c.error), [], x; }
    var hs: seq<HuffTable> := c.value.0;
    out := c.value.1;
    FileIs(x);
    x := WithRest(x, rest);
    FileIs(x);
    var ok, got := RestoreScan(plan, hs, |mcus|, out + rest, first, grants, x);
    if !ok { return Starved, out, x; }
    return Restored(got), out, x;
  }

  lemma FileIs(x: Source)
    ensures x.File() == Join(x.done) + x.rest
  {
  }

  ghost function WithRest(x: Source, rest: seq<nat>): (y: Source)
    requires x.Valid()
    ensures y.Valid() && y == x.(rest := rest)
  {
    x.(rest := rest)
  }
}
