/** Reading a progressive scan, however its bytes arrive: every coefficient becomes what the scan makes known of it. */
module ProgTheorem {
  import opened AcRefine
  import opened BitInput
  import opened BitOutput
  import opened Bits
  import opened Coefficients
  import opened HuffDecoding
  import opened HuffTables
  import opened McuDecoder
  import opened ProgDecoder
  import opened ProgMeaning
  import opened ProgPasses
  import opened ProgRoundTrip
  import opened ProgScan
  import opened ProgSpots
  import opened ProgTokens
  import opened Scans
  import opened Segments
  import opened RunLength
  import opened SeqRoundTrip
  import opened SeqScanDecoder
  import opened SeqScanEncoder
  import opened Streams
  import opened TokenOutput
  import opened Tokens
  import opened TwoPass
  import Seqs

  /** The segments of the stream hold the restart intervals of the scan. */
  ghost predicate Carries(p: Progress, ets: seq<EncTable>, done: seq<(seq<nat>, nat)>, all: seq<seq<Mcu>>)
    requires p.Valid()
  {
    && |done| == |all|
    && forall j :: 0 <= j < |all| ==> CarriesAt(p, ets, done[j].0, all[j])
  }

  ghost predicate CarriesAt(p: Progress, ets: seq<EncTable>, bytes: seq<nat>, seg: seq<Mcu>)
    requires p.Valid()
  {
    GoodMcus(p.plan, seg) && IntervalInRange(p, seg) && TokenSegment(ets, bytes, Whole(p, seg))
  }

  /** The stream that is read, and what it was made from. */
  datatype ProgSource = ProgSource(p: Progress, hs: seq<HuffTable>, ets: seq<EncTable>, mcus: seq<Mcu>,
                                   done: seq<(seq<nat>, nat)>, m: nat, rest: seq<nat>) {
    ghost predicate Valid() {
      && ProgAgree(p, hs, ets) && GoodMcus(p.plan, mcus) && Framed(done, m) && (forall mcu <- mcus :: ShortMcu(mcu))
      && Carries(p, ets, done, AllSegs(mcus, p.plan.restartInterval))
    }

    ghost function File(): (f: seq<nat>) { Join(done) + rest }

    /** The restart intervals. */
    ghost function All(): (all: seq<seq<Mcu>>) { AllSegs(mcus, p.plan.restartInterval) }

    /** What the MCU at place `k` of interval `j` is decoded from. */
    ghost function StartAt(j: nat, k: nat): (s: ProgStart)
      requires Valid() && j < |done| == |All()| && k <= |All()[j]|
      ensures |s.pred| == MAX_COMPS_IN_SCAN
    {
      AgreeValid(p, hs, ets);
      assert CarriesAt(p, ets, done[j].0, All()[j]);
      var a := Ahead(p, All()[j], k);
      ProgStart(Unpack(done[j].0), |TokenBits(ets, a.toks)|, a.eobrun, PredsAt(p, All()[j], k), false)
    }
  }

  lemma SourceFacts(x: ProgSource)
    requires x.Valid()
    ensures x.p.Valid() && x.p.plan.Valid() && ProgReadable(x.p, x.hs) && |x.done| == |x.All()| && Framed(x.done, x.m)
    ensures GoodMcus(x.p.plan, x.mcus)
  {
    AgreeValid(x.p, x.hs, x.ets);
  }

  /** What is asked of the MCU at place `k` of interval `j`. */
  ghost predicate McuAt(x: ProgSource, j: nat, k: nat)
    requires x.Valid()
  {
    && j < |x.done| == |x.All()| && k < |x.All()[j]|
    && x.p.plan.Valid() && GoodMcu(x.p.plan, x.All()[j][k]) && ShortMcu(x.All()[j][k])
    && (x.p.plan.restartInterval > 0 ==> k < x.p.plan.restartInterval <= 65535)
  }

  lemma MembersReady(p: Progress, mcu: Mcu, zs: seq<seq<int>>)
    requires p.Valid() && GoodMcu(p.plan, mcu) && ReadyMcu(p, mcu, zs)
    ensures Blocks(p, zs) && (forall block <- mcu :: |block| == 64) && forall z <- zs :: |z| == 64
  {
    hide ReadyFor;
  }

  /** What the decoder makes of the MCU, given blocks that know what was sent before. */
  ghost predicate Becomes(x: ProgSource, j: nat, k: nat, zs: seq<seq<int>>, want: seq<seq<int>>)
    requires x.Valid() && McuAt(x, j, k)
  {
    && ProgReadable(x.p, x.hs) && Blocks(x.p, zs)
    && ProgMcu(x.p, x.hs, x.StartAt(j, k), zs)
       == ProgOut(x.StartAt(j, k + 1).n, x.StartAt(j, k + 1).eobrun, x.StartAt(j, k + 1).pred, want)
  }

  lemma McuBecomes(x: ProgSource, j: nat, k: nat, zs: seq<seq<int>>)
    requires x.Valid() && McuAt(x, j, k) && x.p.Valid() && ReadyMcu(x.p, x.All()[j][k], zs)
    ensures forall block <- x.All()[j][k] :: |block| == 64
    ensures (forall z <- zs :: |z| == 64) && Becomes(x, j, k, zs, KnownMcu(x.p, x.All()[j][k], zs))
    ensures var s, s' := x.StartAt(j, k), x.StartAt(j, k + 1); s.n <= s'.n <= |s.data| && s'.data == s.data
  {
    hide ProgMcu, Ahead, PredsAt, TokenBits, Unpack, ProgAgree, ProgReadable, Whole, Takes, AllCoded, Stands, AllSegs, ReadyMcu, KnownMcu,
         ProgInRange, DcPredsAll, Framed, Padded, GoodMcu, ShortCoefs, Blocks, AreBytes;
    SourceFacts(x);
    var seg, mcu := x.All()[j], x.All()[j][k];
    assert CarriesAt(x.p, x.ets, x.done[j].0, seg);
    MembersReady(x.p, mcu, zs);
    MembersShort(mcu);
    var used := SpotStands(x.p, x.ets, x.done[j].0, seg, k);
    InRangeThere(x.p, seg, k);
    ProgMcuReads(x.p, x.hs, x.ets, mcu, zs, x.StartAt(j, k), used, x.StartAt(j, k + 1).eobrun, x.StartAt(j, k + 1).pred);
  }

  lemma MembersShort(mcu: Mcu)
    requires ShortMcu(mcu)
    ensures forall block <- mcu :: ShortCoefs(block)
  {
  }

  lemma InRangeThere(p: Progress, seg: seq<Mcu>, k: nat)
    requires p.Valid() && GoodMcus(p.plan, seg) && IntervalInRange(p, seg) && k < |seg|
    ensures GoodMcu(p.plan, seg[k]) && ProgInRange(p, seg[k], |seg[k]|, PredsAt(p, seg, k))
  {
    hide DcPredsAll, BandInRange, GoodMcu, DcDiff;
    assert seg[k] in seg;
    assert IntervalInRangeAt(p, seg, k);
  }

  // ----- Where the decoder stands -----

  ghost predicate For(dec: PhuffDecoder, x: ProgSource) { dec.p == x.p && dec.hs == x.hs && dec.src.file == x.File() }

  /** The books before the MCU at place `k` of interval `j`. */
  ghost predicate Booked(x: ProgSource, j: nat, k: nat, u: Books)
    requires x.Valid() && j < |x.done|
  {
    && u.seg == SegAt(x.done, j) && u.num == j % 8
    && (x.p.plan.restartInterval > 0 ==> k < x.p.plan.restartInterval <= 65535 && u.left == x.p.plan.restartInterval - k)
  }

  /** If a marker is due, it is the one that is next in the stream. */
  ghost predicate Due(dec: PhuffDecoder, x: ProgSource, j: nat)
    requires j < |x.done|
    reads dec`restartsToGo, dec`nextRestartNum, dec.src`seg
  {
    dec.AtRestart() ==> j > 0 && dec.src.seg == SegAt(x.done, j - 1) && dec.src.seg.marker == RST0 + dec.nextRestartNum
  }

  /** The decoder stands before the MCU at place `k` of interval `j`. */
  ghost predicate Before(dec: PhuffDecoder, x: ProgSource, j: nat, k: nat)
    requires x.Valid() && j < |x.done| == |x.All()| && k < |x.All()[j]|
    reads dec, dec.src
  {
    dec.Valid() && dec.Next() == x.StartAt(j, k) && For(dec, x) && Booked(x, j, k, dec.Upcoming()) && Due(dec, x, j)
  }

  /** The decoder stands where the next MCU, if there is one, begins. */
  ghost predicate After(dec: PhuffDecoder, x: ProgSource, j: nat, k: nat)
    requires x.Valid() && j < |x.done| == |x.All()| && k < |x.All()[j]|
    reads dec, dec.src
  {
    hide *;
    if x.p.plan.restartInterval > 0 && k + 1 == x.p.plan.restartInterval then
      j + 1 < |x.done| && |x.All()[j + 1]| > 0 ==> Before(dec, x, j + 1, 0)
    else k + 1 < |x.All()[j]| ==> Before(dec, x, j, k + 1)
  }

  lemma IntervalStarts(x: ProgSource, j: nat)
    requires x.Valid() && j < |x.done| == |x.All()| && x.All()[j] != []
    ensures x.StartAt(j, 0) == ProgStart(Unpack(x.done[j].0), 0, 0, NoDc(), false)
  {
    hide AllSegs, Unpack, Whole, ProgAgree, Framed, IntervalInRange, TokenSegment, Ahead, PredsAt, TokenBits;
    SourceFacts(x);
    assert CarriesAt(x.p, x.ets, x.done[j].0, x.All()[j]);
    AheadStart(x.p, x.All()[j]);
    NoTokens(x.ets);
  }

  /** After an MCU that does not complete its interval. */
  lemma StaysInInterval(dec: PhuffDecoder, x: ProgSource, j: nat, k: nat, u: Books)
    requires x.Valid() && j < |x.done| == |x.All()| && k + 1 < |x.All()[j]| && For(dec, x) && Booked(x, j, k, u)
    requires x.p.plan.restartInterval > 0 ==> k + 1 < x.p.plan.restartInterval
    requires dec.Valid() && Books(dec.src.seg, dec.restartsToGo, dec.nextRestartNum) == CountedDown(u)
    requires !dec.AtRestart() ==> dec.Next() == x.StartAt(j, k + 1)
    ensures Before(dec, x, j, k + 1)
  {
    hide PhuffDecoder.Valid, PhuffDecoder.Next, ProgSource.Valid, ProgSource.StartAt, ProgSource.All, SegAt, Scan, ProgSource.File;
  }

  /** After the MCU that completes an interval: the restart marker is next. */
  lemma EntersInterval(dec: PhuffDecoder, x: ProgSource, j: nat, k: nat, u: Books)
    requires x.Valid() && j + 1 < |x.done| == |x.All()| && |x.All()[j + 1]| > 0 && For(dec, x) && Booked(x, j, k, u)
    requires x.p.plan.restartInterval > 0 && k + 1 == x.p.plan.restartInterval
    requires dec.Valid() && Books(dec.src.seg, dec.restartsToGo, dec.nextRestartNum) == CountedDown(u)
    ensures Before(dec, x, j + 1, 0)
  {
    hide PhuffDecoder.Valid, ProgSource.Valid, ProgSource.All, ProgSource.StartAt, Scan, Unpack, Join;
    SourceFacts(x);
    SegScanned(x.done, x.m, x.rest, j);
    IntervalStarts(x, j + 1);
  }

  /** With all input at hand the decoder does not suspend. */
  lemma NothingMissing(dec: PhuffDecoder, x: ProgSource, j: nat, k: nat)
    requires x.Valid() && j < |x.done| == |x.All()| && k < |x.All()[j]| && Before(dec, x, j, k) && !dec.src.Delivered()
    ensures dec.src.avail < |dec.src.file|
  {
    hide ProgSource.Valid, PhuffDecoder.Valid, PhuffDecoder.Next, ProgSource.StartAt, ProgSource.All, Join, Scan, Framed;
    SourceFacts(x);
    SegScanned(x.done, x.m, x.rest, j);
    if j > 0 { SegScanned(x.done, x.m, x.rest, j - 1); }
    dec.FileBound();
  }

  lemma Arrives(dec: PhuffDecoder, x: ProgSource, j: nat, k: nat, u: Books, r: ProgOut)
    requires x.Valid() && McuAt(x, j, k) && For(dec, x) && Booked(x, j, k, u)
    requires dec.Valid() && Books(dec.src.seg, dec.restartsToGo, dec.nextRestartNum) == CountedDown(u)
    requires var s, s' := x.StartAt(j, k), x.StartAt(j, k + 1);
             && r.n == s'.n && r.eobrun == s'.eobrun && r.pred == s'.pred && !s.skip && !s'.skip
             && s'.n <= |s.data| && s'.data == s.data
             && (!dec.AtRestart() ==>
                   && dec.Next() == ProgStart(s.data, r.n, r.eobrun, r.pred, dec.src.insufficient)
                   && (dec.src.insufficient ==> s.skip || |s.data| < r.n))
    ensures After(dec, x, j, k)
  {
    hide ProgSource.Valid, PhuffDecoder.Valid, PhuffDecoder.Next, PhuffDecoder.Upcoming, ProgSource.All, ProgSource.StartAt, Before,
         For, GoodMcu, ShortMcu;
    var ri := x.p.plan.restartInterval;
    if ri > 0 && k + 1 == ri {
      if j + 1 < |x.done| && |x.All()[j + 1]| > 0 { EntersInterval(dec, x, j, k, u); }
    } else if k + 1 < |x.All()[j]| {
      StaysInInterval(dec, x, j, k, u);
    }
  }

  lemma BeforeFacts(dec: PhuffDecoder, x: ProgSource, j: nat, k: nat)
    requires x.Valid() && j < |x.done| == |x.All()| && k < |x.All()[j]| && Before(dec, x, j, k)
    ensures dec.Valid() && dec.Next() == x.StartAt(j, k) && For(dec, x) && Booked(x, j, k, dec.Upcoming()) && Due(dec, x, j)
    ensures dec.p == x.p && dec.hs == x.hs
    ensures !x.StartAt(j, k).skip
  {
    hide ProgSource.Valid, PhuffDecoder.Valid, PhuffDecoder.Next, PhuffDecoder.Upcoming, ProgSource.All, ProgSource.File;
  }

  // ----- Reading a scan -----

  lemma StillBefore(dec: PhuffDecoder, x: ProgSource, j: nat, k: nat)
    requires x.Valid() && j < |x.done| == |x.All()| && k < |x.All()[j]|
    requires dec.Valid() && dec.Next() == x.StartAt(j, k) && For(dec, x) && Booked(x, j, k, dec.Upcoming()) && Due(dec, x, j)
    ensures Before(dec, x, j, k)
  {
    hide ProgSource.Valid, PhuffDecoder.Valid, PhuffDecoder.Next, PhuffDecoder.Upcoming, ProgSource.All, ProgSource.File;
  }

  lemma LooseFacts(dec: PhuffDecoder, x: ProgSource, j: nat, k: nat, zs: seq<seq<int>>, want: seq<seq<int>>)
    requires x.Valid() && McuAt(x, j, k) && Becomes(x, j, k, zs, want) && For(dec, x)
    ensures |x.p.plan.membership| == |zs| && Blocks(x.p, zs) && dec.p == x.p && dec.hs == x.hs
  {
    hide ProgMcu, ProgReadable;
  }

  lemma StartNotSkipped(x: ProgSource, j: nat, k: nat)
    requires x.Valid() && j < |x.done| == |x.All()| && k <= |x.All()[j]|
    ensures !x.StartAt(j, k).skip
  {
    hide ProgSource.Valid, ProgSource.All, Ahead, PredsAt;
  }

  /** One call of the MCU routine. */
  method Attempt(dec: PhuffDecoder, blocks: seq<array<int>>, ghost x: ProgSource, ghost j: nat, ghost k: nat,
                 ghost want: seq<seq<int>>)
    returns (ok: bool)
    requires x.Valid() && McuAt(x, j, k) && Before(dec, x, j, k)
    requires x.StartAt(j, k + 1).n <= |x.StartAt(j, k).data| && x.StartAt(j, k + 1).data == x.StartAt(j, k).data
    requires Distinct(blocks) && Shorts(x.p, blocks) && Becomes(x, j, k, Contents(blocks), want)
    modifies dec`st, dec`n, dec`eobrun, dec`lastDc, dec`restartsToGo, dec`nextRestartNum,
             dec.src`unreadMarker, dec.src`insufficient, dec.src`seg, dec.src`data, blocks
    ensures Shorts(x.p, blocks)
    ensures ok ==> Contents(blocks) == want && After(dec, x, j, k)
    ensures !ok ==> Before(dec, x, j, k) && Becomes(x, j, k, Contents(blocks), want) && dec.src.avail < |dec.src.file|
  {
    hide ProgSource.Valid, PhuffDecoder.Valid, PhuffDecoder.Next, PhuffDecoder.Upcoming, ProgSource.StartAt, ProgSource.All, Contents,
         ProgMcu, GoodMcu, Before, After, BitSource.Delivered, Distinct, ProgSource.File, ShortMcu, ProgReadable, Shorts, Booked, For,
         Blocks;
    BeforeFacts(dec, x, j, k);
    StartNotSkipped(x, j, k + 1);
    LooseFacts(dec, x, j, k, Contents(blocks), want);
    ContentsCount(blocks);
    ghost var u, s, r := dec.Upcoming(), dec.Next(), ProgMcu(x.p, x.hs, x.StartAt(j, k), Contents(blocks));
    var o := dec.DecodeMcu(blocks);
    if o.NeedsResync? { assert false; }
    ok := o.Decoded?;
    if ok {
      Arrives(dec, x, j, k, u, r);
    } else {
      StillBefore(dec, x, j, k);
      NothingMissing(dec, x, j, k);
    }
  }

  lemma ContentsCount(blocks: seq<array<int>>)
    requires Distinct(blocks)
    ensures |Contents(blocks)| == |blocks|
  {
  }

  /** Decodes one MCU into its blocks; `grants` says how many more bytes arrive at each suspension. */
  method ReadMcu(dec: PhuffDecoder, blocks: seq<array<int>>, grants: seq<nat>, ghost x: ProgSource, ghost j: nat, ghost k: nat)
    returns (ok: bool, left: seq<nat>)
    requires x.Valid() && McuAt(x, j, k) && Before(dec, x, j, k) && x.p.Valid()
    requires Distinct(blocks) && Shorts(x.p, blocks) && ReadyMcu(x.p, x.All()[j][k], Contents(blocks))
    modifies dec`st, dec`n, dec`eobrun, dec`lastDc, dec`restartsToGo, dec`nextRestartNum, dec.src, blocks
    ensures Accounted(|dec.src.file|, old(dec.src.avail), grants, dec.src.avail, left)
    ensures forall block <- x.All()[j][k] :: |block| == 64
    ensures forall z <- old(Contents(blocks)) :: |z| == 64
    ensures ok ==> Contents(blocks) == KnownMcu(x.p, x.All()[j][k], old(Contents(blocks))) && After(dec, x, j, k)
    ensures !ok ==> left == [] && dec.src.avail < |dec.src.file|
  {
    hide ProgSource.Valid, PhuffDecoder.Valid, PhuffDecoder.Next, PhuffDecoder.Upcoming, Contents, Before, After, Distinct, KnownMcu,
         Becomes, ProgSource.All, ProgSource.StartAt, GoodMcu, ShortMcu, ReadyMcu, Shorts, McuAt, Booked, For, Due;
    ok, left := false, grants;
    ReadyCount(x, j, k, Contents(blocks));
    McuBecomes(x, j, k, Contents(blocks));
    ghost var want := KnownMcu(x.p, x.All()[j][k], Contents(blocks));
    while true
      invariant Before(dec, x, j, k) && Shorts(x.p, blocks) && Becomes(x, j, k, Contents(blocks), want)
      invariant Accounted(|dec.src.file|, old(dec.src.avail), grants, dec.src.avail, left)
      decreases |left|
    {
      ok := Attempt(dec, blocks, x, j, k, want);
      if ok || left == [] { return; }
      MoreArrives(dec, left[0], x, j, k);
      left := left[1..];
    }
  }

  lemma ReadyCount(x: ProgSource, j: nat, k: nat, zs: seq<seq<int>>)
    requires x.Valid() && McuAt(x, j, k) && x.p.Valid() && ReadyMcu(x.p, x.All()[j][k], zs)
    ensures j < |x.done| == |x.All()| && k < |x.All()[j]|
    ensures |zs| == |x.All()[j][k]|
  {
  }

  /** More input arrives. */
  method MoreArrives(dec: PhuffDecoder, more: nat, ghost x: ProgSource, ghost j: nat, ghost k: nat)
    requires x.Valid() && j < |x.done| == |x.All()| && k < |x.All()[j]| && Before(dec, x, j, k)
    modifies dec.src`avail
    ensures Before(dec, x, j, k)
    ensures dec.src.avail == if old(dec.src.avail) + more <= |dec.src.file| then old(dec.src.avail) + more else |dec.src.file|
  {
    hide ProgSource.Valid, PhuffDecoder.Valid, PhuffDecoder.Next, PhuffDecoder.Upcoming, Before, ProgSource.All, ProgSource.StartAt,
         Booked, For;
    BeforeFacts(dec, x, j, k);
    dec.Supply(more);
    StillBefore(dec, x, j, k);
  }

  lemma McuAtWhere(x: ProgSource, i: nat)
    requires x.Valid() && i < |x.mcus|
    ensures var (j, k) := Where(x.mcus, x.p.plan.restartInterval, i);
            McuAt(x, j, k) && x.All()[j][k] == x.mcus[i]
  {
    hide GoodMcu, ShortMcu, Split, TokenSegment, AllSegs, Where, ProgAgree, Whole, IntervalInRange;
    SourceFacts(x);
    WhereIs(x.mcus, x.p.plan.restartInterval, i);
    assert x.mcus[i] in x.mcus;
  }

  lemma MovesToNext(dec: PhuffDecoder, x: ProgSource, i: nat)
    requires x.Valid() && i + 1 < |x.mcus|
    requires var (j, k) := Where(x.mcus, x.p.plan.restartInterval, i); McuAt(x, j, k) && After(dec, x, j, k)
    ensures var (j, k) := Where(x.mcus, x.p.plan.restartInterval, i + 1); McuAt(x, j, k) && Before(dec, x, j, k)
  {
    hide ProgSource.Valid, ProgSource.All, ProgSource.StartAt, Before, GoodMcu, ShortMcu, Where;
    McuAtWhere(x, i + 1);
    WhereNext(x.mcus, x.p.plan.restartInterval, i);
  }

  /** The decoder stands before the i-th MCU, if there is one. */
  ghost predicate BeforeNth(dec: PhuffDecoder, x: ProgSource, i: nat)
    requires x.Valid()
    reads dec, dec.src
  {
    i < |x.mcus| ==>
      var (j, k) := Where(x.mcus, x.p.plan.restartInterval, i);
      McuAt(x, j, k) && Before(dec, x, j, k)
  }

  lemma MemberSizes(x: ProgSource, i: nat)
    requires x.Valid() && i < |x.mcus|
    ensures x.p.Valid() && GoodMcu(x.p.plan, x.mcus[i]) && forall block <- x.mcus[i] :: |block| == 64
  {
    SourceFacts(x);
    assert x.mcus[i] in x.mcus;
  }

  /** The blocks of the i-th MCU become what the scan makes known of them. */
  method ReadNth(dec: PhuffDecoder, blocks: seq<array<int>>, grants: seq<nat>, ghost x: ProgSource, ghost i: nat)
    returns (ok: bool, left: seq<nat>)
    requires x.Valid() && i < |x.mcus| && BeforeNth(dec, x, i) && x.p.Valid()
    requires Distinct(blocks) && Shorts(x.p, blocks) && ReadyMcu(x.p, x.mcus[i], Contents(blocks))
    modifies dec`st, dec`n, dec`eobrun, dec`lastDc, dec`restartsToGo, dec`nextRestartNum, dec.src, blocks
    ensures Accounted(|dec.src.file|, old(dec.src.avail), grants, dec.src.avail, left)
    ensures (forall block <- x.mcus[i] :: |block| == 64) && |x.mcus[i]| == |blocks|
    ensures forall z <- old(Contents(blocks)) :: |z| == 64
    ensures ok ==> Contents(blocks) == KnownMcu(x.p, x.mcus[i], old(Contents(blocks))) && BeforeNth(dec, x, i + 1)
    ensures !ok ==> left == [] && dec.src.avail < |dec.src.file|
  {
    hide ProgSource.Valid, Contents, Before, After, Distinct, KnownMcu, McuAt, Where, Accounted, Shorts, ReadyMcu, Progress.Valid;
    McuAtWhere(x, i);
    MemberSizes(x, i);
    NthCount(x, i, blocks);
    ghost var (j, k) := Where(x.mcus, x.p.plan.restartInterval, i);
    ok, left := ReadMcu(dec, blocks, grants, x, j, k);
    if ok && i + 1 < |x.mcus| { MovesToNext(dec, x, i); }
  }

  lemma NthCount(x: ProgSource, i: nat, blocks: seq<array<int>>)
    requires x.Valid() && i < |x.mcus| && x.p.Valid() && Distinct(blocks) && ReadyMcu(x.p, x.mcus[i], Contents(blocks))
    ensures |x.mcus[i]| == |blocks|
  {
  }

  /** The coefficient arrays of a component, as the MCUs of a scan go through them: no two blocks share storage. */
  ghost predicate Separated(store: seq<seq<array<int>>>) {
    && (forall i :: 0 <= i < |store| ==> Distinct(store[i]))
    && forall i, j, b, c :: 0 <= i < j < |store| && 0 <= b < |store[i]| && 0 <= c < |store[j]| ==> store[i][b] != store[j][c]
  }

  ghost function ArraysOf(store: seq<seq<array<int>>>): (arrays: set<array<int>>) {
    set i, b | 0 <= i < |store| && 0 <= b < |store[i]| :: store[i][b]
  }

  ghost function Stored(store: seq<seq<array<int>>>): (zs: seq<seq<seq<int>>>)
    requires Separated(store)
    reads ArraysOf(store)
    ensures |zs| == |store|
    ensures forall i :: 0 <= i < |store| ==> |zs[i]| == |store[i]| && forall b :: 0 <= b < |zs[i]| ==> |zs[i][b]| == 64
  {
    seq(|store|, i requires 0 <= i < |store| reads ArraysOf(store) => StoredAt(store, i))
  }

  ghost function StoredAt(store: seq<seq<array<int>>>, i: nat): (zs: seq<seq<int>>)
    requires Separated(store) && i < |store|
    reads ArraysOf(store)
    ensures |zs| == |store[i]| && forall b :: 0 <= b < |zs| ==> |zs[b]| == 64
    ensures zs == Contents(store[i])
  {
    assert forall b :: 0 <= b < |store[i]| ==> store[i][b] in ArraysOf(store);
    Contents(store[i])
  }

  /** Every MCU is ready for the scan. */
  ghost predicate AllReady(p: Progress, mcus: seq<Mcu>, zs: seq<seq<seq<int>>>) {
    && p.Valid() && |mcus| == |zs|
    && forall i :: 0 <= i < |mcus| ==>
         ReadyMcu(p, mcus[i], zs[i]) && (p.ss > 0 && p.ah != 0 ==> forall z <- zs[i] :: ShortCoefs(z))
  }

  /** What the scan makes of them. */
  ghost function KnownAll(p: Progress, mcus: seq<Mcu>, zs: seq<seq<seq<int>>>): (r: seq<seq<seq<int>>>)
    requires AllReady(p, mcus, zs)
    ensures |r| == |mcus|
  {
    seq(|mcus|, i requires 0 <= i < |mcus| => KnownNth(p, mcus, zs, i))
  }

  ghost function KnownNth(p: Progress, mcus: seq<Mcu>, zs: seq<seq<seq<int>>>, i: nat): (r: seq<seq<int>>)
    requires AllReady(p, mcus, zs) && i < |mcus|
  {
    assert ReadyMcu(p, mcus[i], zs[i]);
    KnownMcu(p, mcus[i], zs[i])
  }

  lemma ShortFromZigzag(block: seq<int>)
    requires |block| == 64 && ShortCoefs(Zigzag(block))
    ensures ShortCoefs(block)
  {
    hide NaturalOrder, ZigzagIndex;
    forall i | 0 <= i < 64 ensures -0x8000 <= block[i] < 0x8000 {
      IndexThenOrder(i);
      assert Zigzag(block)[ZigzagIndex(i)] == block[i];
    }
  }

  lemma NthReady(p: Progress, mcus: seq<Mcu>, zs: seq<seq<seq<int>>>, i: nat, blocks: seq<array<int>>)
    requires AllReady(p, mcus, zs) && i < |mcus| && Distinct(blocks) && Contents(blocks) == zs[i]
    ensures Shorts(p, blocks) && ReadyMcu(p, mcus[i], Contents(blocks))
  {
    hide ReadyFor, Zigzag, ShortCoefs;
    forall b | 0 <= b < |blocks| && p.ss > 0 && p.ah != 0 ensures ShortCoefs(blocks[b][..]) {
      assert Contents(blocks)[b] in zs[i];
      ShortFromZigzag(blocks[b][..]);
    }
  }

  /** The first `i` MCUs have been decoded, the others are as they were. */
  ghost predicate PartRead(p: Progress, mcus: seq<Mcu>, zs: seq<seq<seq<int>>>, now: seq<seq<seq<int>>>, i: nat)
    requires AllReady(p, mcus, zs)
  {
    && |now| == |zs|
    && forall j :: 0 <= j < |zs| ==> now[j] == if j < i then KnownNth(p, mcus, zs, j) else zs[j]
  }

  lemma PartAll(p: Progress, mcus: seq<Mcu>, zs: seq<seq<seq<int>>>, now: seq<seq<seq<int>>>)
    requires AllReady(p, mcus, zs) && PartRead(p, mcus, zs, now, |mcus|)
    ensures now == KnownAll(p, mcus, zs)
  {
    hide KnownMcu;
  }

  lemma PartNext(p: Progress, mcus: seq<Mcu>, zs: seq<seq<seq<int>>>, now: seq<seq<seq<int>>>, i: nat, now': seq<seq<seq<int>>>)
    requires AllReady(p, mcus, zs) && PartRead(p, mcus, zs, now, i) && i < |mcus| && |now'| == |now|
    requires forall j :: 0 <= j < |now| ==> now'[j] == if j == i then KnownNth(p, mcus, zs, i) else now[j]
    ensures PartRead(p, mcus, zs, now', i + 1)
  {
    hide KnownMcu;
  }

  /** Reads all MCUs of a scan into their blocks. */
  method ReadProgScan(dec: PhuffDecoder, store: seq<seq<array<int>>>, grants: seq<nat>, ghost x: ProgSource) returns (ok: bool)
    requires x.Valid() && BeforeNth(dec, x, 0) && Separated(store) && AllReady(x.p, x.mcus, Stored(store))
    modifies dec`st, dec`n, dec`eobrun, dec`lastDc, dec`restartsToGo, dec`nextRestartNum, dec.src, ArraysOf(store)
    ensures ok ==> Stored(store) == KnownAll(x.p, x.mcus, old(Stored(store)))
    ensures !ok ==> old(dec.src.avail) + Total(grants) < |dec.src.file|
  {
    hide ProgSource.Valid, BeforeNth, Stored, AllReady, PartRead, Progress.Valid, Separated, Distinct, Shorts, ReadyMcu, Contents,
         ArraysOf;
    ok := true;
    var left := grants;
    ghost var zs := Stored(store);
    StoreFacts(store);
    PartNone(x.p, x.mcus, zs);
    var i := 0;
    while i < |store|
      invariant 0 <= i <= |store| == |x.mcus| == |zs| && BeforeNth(dec, x, i) && PartRead(x.p, x.mcus, zs, Stored(store), i)
      invariant Accounted(|dec.src.file|, old(dec.src.avail), grants, dec.src.avail, left)
    {
      ghost var now := Stored(store);
      PartAt(x.p, x.mcus, zs, now, i);
      ok, left := ReadOne(dec, store, i, left, x, zs);
      if !ok { return; }
      PartNext(x.p, x.mcus, zs, now, i, Stored(store));
      i := i + 1;
    }
    PartAll(x.p, x.mcus, zs, Stored(store));
  }

  lemma PartNone(p: Progress, mcus: seq<Mcu>, zs: seq<seq<seq<int>>>)
    requires AllReady(p, mcus, zs)
    ensures |mcus| == |zs| && p.Valid() && PartRead(p, mcus, zs, zs, 0)
  {
    hide KnownMcu;
  }

  lemma PartAt(p: Progress, mcus: seq<Mcu>, zs: seq<seq<seq<int>>>, now: seq<seq<seq<int>>>, i: nat)
    requires AllReady(p, mcus, zs) && PartRead(p, mcus, zs, now, i) && i < |zs|
    ensures |now| == |zs| && now[i] == zs[i]
  {
    hide KnownMcu;
  }

  lemma StoreFacts(store: seq<seq<array<int>>>)
    requires Separated(store)
    ensures |Stored(store)| == |store|
  {
  }

  /** One MCU of the store; the others are not touched. */
  method ReadOne(dec: PhuffDecoder, store: seq<seq<array<int>>>, i: nat, grants: seq<nat>, ghost x: ProgSource,
                 ghost zs: seq<seq<seq<int>>>)
    returns (ok: bool, left: seq<nat>)
    requires x.Valid() && i < |x.mcus| == |store| && BeforeNth(dec, x, i) && Separated(store)
    requires AllReady(x.p, x.mcus, zs) && |zs| == |store| && Stored(store)[i] == zs[i]
    modifies dec`st, dec`n, dec`eobrun, dec`lastDc, dec`restartsToGo, dec`nextRestartNum, dec.src, ArraysOf(store)
    ensures Accounted(|dec.src.file|, old(dec.src.avail), grants, dec.src.avail, left)
    ensures ok ==> BeforeNth(dec, x, i + 1)
    ensures ok ==> forall j :: 0 <= j < |store| ==>
                     Stored(store)[j] == if j == i then KnownNth(x.p, x.mcus, zs, i) else old(Stored(store))[j]
    ensures !ok ==> left == [] && dec.src.avail < |dec.src.file|
  {
    hide ProgSource.Valid, BeforeNth, AllReady, Progress.Valid, Distinct, Shorts, ReadyMcu, KnownMcu, Accounted, Contents;
    StoreOne(store, i);
    NthReady(x.p, x.mcus, zs, i, store[i]);
    ReadyValid(x.p, x.mcus, zs);
    ok, left := ReadNth(dec, store[i], grants, x, i);
    assert Stored(store)[i] == Contents(store[i]);
    forall j | 0 <= j < |store| && j != i ensures Stored(store)[j] == old(Stored(store))[j] {
      StoreOne(store, j);
      Untouched(store, i, j);
      assert unchanged(store[j]);
    }
  }

  lemma Untouched(store: seq<seq<array<int>>>, i: nat, j: nat)
    requires Separated(store) && i < |store| && j < |store| && i != j
    ensures forall b, c :: 0 <= b < |store[i]| && 0 <= c < |store[j]| ==> store[i][b] != store[j][c]
  {
  }

  lemma ReadyValid(p: Progress, mcus: seq<Mcu>, zs: seq<seq<seq<int>>>)
    requires AllReady(p, mcus, zs)
    ensures p.Valid() && |mcus| == |zs|
  {
  }

  lemma StoreOne(store: seq<seq<array<int>>>, i: nat)
    requires Separated(store) && i < |store|
    ensures Distinct(store[i]) && Stored(store)[i] == Contents(store[i])
    ensures forall b :: 0 <= b < |store[i]| ==> store[i][b] in ArraysOf(store)
  {
    hide Contents, Distinct;
  }
}
