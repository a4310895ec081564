/**
 Progressive transmission over a whole script: after each scan every coefficient that has been sent is known exactly to the
 precision at which it was sent last.
 */
module Transmission {
  import opened AcRefine
  import opened Bits
  import opened Coefficients
  import opened HuffTables
  import opened ProgCompress
  import opened ProgMeaning
  import opened ProgPasses
  import opened ProgRoundTrip
  import opened ProgScan
  import opened ProgTheorem
  import opened Progressions
  import opened Scans
  import opened Scripts
  import opened Segments
  import opened SeqRoundTrip
  import opened SeqScanDecoder
  import opened Statistics
  import opened Streams
  import Seqs

  // ----- What is known after some scans -----

  /** A coefficient that was last sent with the given Al (-1: not at all). */
  function Precise(c: int, k: nat, al: int): (v: int) {
    if al < 0 then 0 else if k == 0 then FloorTo(c, al) else Truncated(c, al)
  }

  function PreciseBlock(script: seq<ScanInfo>, ci: int, z: seq<int>): (b: seq<int>)
    requires |z| == 64
    ensures |b| == 64
  {
    seq(64, k requires 0 <= k < 64 => Precise(z[k], k, LastAl(script, ci, k)))
  }

  /** Coefficients whose last scan had Al = 0 are the originals. */
  lemma ExactAtZero(script: seq<ScanInfo>, ci: int, z: seq<int>, k: nat)
    requires |z| == 64 && k < 64 && LastAl(script, ci, k) == 0
    ensures PreciseBlock(script, ci, z)[k] == z[k]
  {
    hide LastAl;
    TruncatedAtZero(z[k]);
  }

  /** The parameters of a scan of the script, with the layout of its MCUs. */
  function ProgressOf(s: ScanInfo, plan: Plan): (p: Progress)
    requires RangesOk(s)
  {
    Progress(plan, s.ss, s.se, s.ah, s.al)
  }

  /** The MCU layout fits the scan: its components, and for an AC scan one block to an MCU. */
  ghost predicate LaidOut(s: ScanInfo, plan: Plan) {
    && plan.Valid() && plan.Covered() && |plan.comps| == |s.comps| && (s.ss > 0 ==> plan.membership == [0])
  }

  lemma ScanValid(n: nat, before: seq<ScanInfo>, s: ScanInfo, plan: Plan)
    requires ProgScanOk(n, before, s) && LaidOut(s, plan)
    ensures RangesOk(s) && ProgressOf(s, plan).Valid()
  {
    hide LastAl;
    assert OrderOkFor(before, s, s.comps[0]);
    assert NextBit(s, LastAl(before, s.comps[0], s.ss));
  }

  /** A scan advances what is known of the blocks of its components, and of no others. */
  lemma ScanAdvances(n: nat, before: seq<ScanInfo>, s: ScanInfo, plan: Plan, ci: int, z: seq<int>)
    requires ProgScanOk(n, before, s) && |z| == 64
    ensures PreciseBlock(before + [s], ci, z)
         == if ci in s.comps then KnownBlock(ProgressOf(s, plan), z, PreciseBlock(before, ci, z)) else PreciseBlock(before, ci, z)
  {
    hide LastAl, FloorTo, Truncated, SetBit, LowBit;
    LastAlSnoc(before, s);
    if ci in s.comps {
      var i :| 0 <= i < |s.comps| && s.comps[i] == ci;
      assert OrderOkFor(before, s, s.comps[i]);
      assert NextBit(s, LastAl(before, ci, s.ss));
      BitRefines(z[0], s.al);
    }
  }

  /** What is known before an AC scan is what its coder relies on. */
  lemma ScanIsReady(n: nat, before: seq<ScanInfo>, s: ScanInfo, plan: Plan, ci: int, z: seq<int>)
    requires ScansOk(n, true, before) && ProgScanOk(n, before, s) && |z| == 64 && ci in s.comps && ShortCoefs(z)
    ensures ReadyFor(ProgressOf(s, plan), z, PreciseBlock(before, ci, z))
    ensures s.ss > 0 && s.ah != 0 ==> ShortCoefs(PreciseBlock(before, ci, z))
  {
    hide LastAl, FloorTo, Truncated, LowBit;
    var i :| 0 <= i < |s.comps| && s.comps[i] == ci;
    assert OrderOkFor(before, s, s.comps[i]);
    if s.ss > 0 {
      forall k | s.ss <= k <= s.se
        ensures PreciseBlock(before, ci, z)[k] == if s.ah == 0 then 0 else Truncated(z[k], s.ah)
      {
        assert NextBit(s, LastAl(before, ci, k));
      }
    }
    if s.ss > 0 && s.ah != 0 { PreciseShort(n, before, ci, z); }
  }

  /** No Al exceeds MAX_AH_AL. */
  lemma {:induction false} LastAlSmall(n: nat, script: seq<ScanInfo>, m: nat, ci: int, k: int)
    requires ScansOk(n, true, script) && m <= |script|
    ensures -1 <= LastAl(script[..m], ci, k) <= MAX_AH_AL
    decreases m
  {
    hide OrderOkFor;
    if m > 0 {
      assert ScanOk(n, true, script[..m - 1], script[m - 1]);
      assert script[..m] == script[..m - 1] + [script[m - 1]];
      LastAlSnoc(script[..m - 1], script[m - 1]);
      LastAlSmall(n, script, m - 1, ci, k);
    }
  }

  lemma PreciseShort(n: nat, script: seq<ScanInfo>, ci: int, z: seq<int>)
    requires ScansOk(n, true, script) && |z| == 64 && ShortCoefs(z)
    ensures ShortCoefs(PreciseBlock(script, ci, z))
  {
    hide LastAl, FloorTo, Truncated, ScansOk;
    assert script[..|script|] == script;
    var b := PreciseBlock(script, ci, z);
    forall k | 0 <= k < 64 ensures -0x8000 <= b[k] < 0x8000 {
      var al := LastAl(script, ci, k);
      LastAlSmall(n, script, |script|, ci, k);
      if al >= 0 {
        TruncatedShort(z[k], al);
        FloorAbove(z[k], al);
      }
    }
  }

  // ----- The blocks of a scan -----

  /** The order in which a scan goes through its blocks: for each MCU, component and number of each block. */
  type Walk = seq<seq<(nat, nat)>>

  /** Whether block `b` of component `ci` is more than padding. */
  predicate Genuine(genuine: seq<seq<bool>>, ci: nat, b: nat) { ci < |genuine| && b < |genuine[ci]| && genuine[ci][b] }

  /** A block of the walk: `sizes[ci]` blocks are stored of component `ci`. */
  ghost predicate Visits(s: ScanInfo, plan: Plan, walk: Walk, sizes: seq<nat>, genuine: seq<seq<bool>>, i: nat, b: nat)
    requires i < |walk| && b < |walk[i]| == |plan.membership|
  {
    && plan.membership[b] < |s.comps| && walk[i][b].0 == s.comps[plan.membership[b]]
    && walk[i][b].0 < |sizes| == |genuine| && walk[i][b].1 < sizes[walk[i][b].0]
    && (s.ss > 0 ==> Genuine(genuine, walk[i][b].0, walk[i][b].1))
  }

  ghost predicate Reached(walk: Walk, ci: nat, b: nat) {
    exists i, j :: 0 <= i < |walk| && 0 <= j < |walk[i]| && walk[i][j] == (ci, b)
  }

  /**
   No block is visited twice, every real block of the scan's components is visited, and an AC scan, whose MCUs have one
   block each, visits no other.
   */
  ghost predicate GoodWalk(s: ScanInfo, plan: Plan, walk: Walk, sizes: seq<nat>, genuine: seq<seq<bool>>) {
    && walk != [] && |sizes| == |genuine|
    && (forall i :: 0 <= i < |walk| ==> |walk[i]| == |plan.membership|)
    && (forall i, b :: 0 <= i < |walk| && 0 <= b < |walk[i]| ==> Visits(s, plan, walk, sizes, genuine, i, b))
    && (forall i, b, j, c :: 0 <= i < |walk| && 0 <= b < |walk[i]| && 0 <= j < |walk| && 0 <= c < |walk[j]| && (i, b) != (j, c) ==>
          walk[i][b] != walk[j][c])
    && (forall ci: nat, b: nat :: ci in s.comps && Genuine(genuine, ci, b) ==> Reached(walk, ci, b))
  }

  /** The blocks of an image in the order of a scan. */
  function McusOf(image: seq<seq<seq<int>>>, walk: Walk): (mcus: seq<Mcu>)
    requires Within(image, walk)
    ensures |mcus| == |walk|
    ensures forall i :: 0 <= i < |walk| ==> |mcus[i]| == |walk[i]|
    ensures forall i, b :: 0 <= i < |walk| && 0 <= b < |walk[i]| ==> mcus[i][b] == image[walk[i][b].0][walk[i][b].1]
  {
    seq(|walk|, i requires 0 <= i < |walk| =>
      seq(|walk[i]|, b requires 0 <= b < |walk[i]| => image[walk[i][b].0][walk[i][b].1]))
  }

  predicate Within<T>(image: seq<seq<T>>, walk: Walk) {
    forall i, b :: 0 <= i < |walk| && 0 <= b < |walk[i]| ==>
      walk[i][b].0 < |image| && walk[i][b].1 < |image[walk[i][b].0]|
  }

  /** The coefficient arrays in the order of a scan. */
  function ArraysFor(store: seq<seq<array<int>>>, walk: Walk): (r: seq<seq<array<int>>>)
    requires Within(store, walk)
    ensures |r| == |walk|
    ensures forall i :: 0 <= i < |walk| ==> |r[i]| == |walk[i]|
    ensures forall i, b :: 0 <= i < |walk| && 0 <= b < |walk[i]| ==> r[i][b] == store[walk[i][b].0][walk[i][b].1]
  {
    seq(|walk|, i requires 0 <= i < |walk| =>
      seq(|walk[i]|, b requires 0 <= b < |walk[i]| => store[walk[i][b].0][walk[i][b].1]))
  }

  /** An image of `n` components, and the decoder's storage for it. */
  ghost predicate Shaped(n: nat, image: seq<seq<seq<int>>>, store: seq<seq<array<int>>>, genuine: seq<seq<bool>>) {
    && |image| == |store| == |genuine| == n && Separated(store)
    && (forall ci :: 0 <= ci < n ==> |genuine[ci]| == |image[ci]| == |store[ci]|)
    && (forall ci, b :: 0 <= ci < n && 0 <= b < |image[ci]| ==> |image[ci][b]| == 64 && ShortCoefs(image[ci][b]))
  }

  function Sizes<T>(image: seq<seq<T>>): (sizes: seq<nat>) { seq(|image|, ci requires 0 <= ci < |image| => |image[ci]|) }

  /** The contents `now` of the storage are, for every genuine block, what the script has made known of it. */
  ghost predicate Knows(n: nat, image: seq<seq<seq<int>>>, genuine: seq<seq<bool>>, script: seq<ScanInfo>, now: seq<seq<seq<int>>>) {
    forall ci: nat, b: nat :: ci < n && Genuine(genuine, ci, b) ==> KnowsBlock(image, script, now, ci, b)
  }

  ghost predicate KnowsBlock(image: seq<seq<seq<int>>>, script: seq<ScanInfo>, now: seq<seq<seq<int>>>, ci: nat, b: nat) {
    && ci < |image| && b < |image[ci]| && |image[ci][b]| == 64 && ci < |now| && b < |now[ci]|
    && now[ci][b] == PreciseBlock(script, ci, Zigzag(image[ci][b]))
  }

  lemma WalkWithin(n: nat, image: seq<seq<seq<int>>>, store: seq<seq<array<int>>>, genuine: seq<seq<bool>>, s: ScanInfo, plan: Plan, walk: Walk)
    requires Shaped(n, image, store, genuine) && GoodWalk(s, plan, walk, Sizes(image), genuine)
    ensures Within(image, walk) && Within(store, walk)
  {
    forall i, b | 0 <= i < |walk| && 0 <= b < |walk[i]|
      ensures walk[i][b].0 < n && walk[i][b].1 < |image[walk[i][b].0]|
    {
      assert Visits(s, plan, walk, Sizes(image), genuine, i, b);
    }
  }

  lemma SameArray(store: seq<seq<array<int>>>, c: nat, b: nat, c': nat, b': nat)
    requires Separated(store) && c < |store| && c' < |store| && b < |store[c]| && b' < |store[c']| && (c, b) != (c', b')
    ensures store[c][b] != store[c'][b']
  {
    assert Distinct(store[c]) && Distinct(store[c']);
  }

  lemma ScanSeparated(n: nat, image: seq<seq<seq<int>>>, store: seq<seq<array<int>>>, genuine: seq<seq<bool>>, s: ScanInfo,
                      plan: Plan, walk: Walk)
    requires Shaped(n, image, store, genuine) && GoodWalk(s, plan, walk, Sizes(image), genuine)
    ensures Within(store, walk) && Separated(ArraysFor(store, walk)) && ArraysOf(ArraysFor(store, walk)) <= ArraysOf(store)
  {
    hide Visits, Reached;
    WalkWithin(n, image, store, genuine, s, plan, walk);
    var r: seq<seq<array<int>>> := ArraysFor(store, walk);
    forall i, b, j, c | 0 <= i < |r| && 0 <= b < |r[i]| && 0 <= j < |r| && 0 <= c < |r[j]| && (i, b) != (j, c)
      ensures r[i][b] != r[j][c]
    {
      SameArray(store, walk[i][b].0, walk[i][b].1, walk[j][c].0, walk[j][c].1);
    }
    forall i | 0 <= i < |r| ensures Distinct(r[i]) {
      forall b: nat | b < |r[i]| ensures r[i][b].Length == 64 { assert Distinct(store[walk[i][b].0]); }
      forall b, c | 0 <= b < c < |r[i]| ensures r[i][b] != r[i][c] { assert (i, b) != (i, c); }
    }
    forall i, j, b, c | 0 <= i < j < |r| && 0 <= b < |r[i]| && 0 <= c < |r[j]| ensures r[i][b] != r[j][c] {
      assert (i, b) != (j, c);
    }
  }

  lemma StoredEntry(store: seq<seq<array<int>>>, walk: Walk, i: nat, b: nat)
    requires Separated(store) && Within(store, walk) && Separated(ArraysFor(store, walk)) && i < |walk| && b < |walk[i]|
    ensures var r := ArraysFor(store, walk);
            |Stored(r)| == |walk| && |Stored(r)[i]| == |walk[i]| && store[walk[i][b].0][walk[i][b].1].Length == 64
            && Stored(r)[i][b] == Zigzag(store[walk[i][b].0][walk[i][b].1][..])
  {
    hide Zigzag;
    var r: seq<seq<array<int>>> := ArraysFor(store, walk);
    StoreOne(r, i);
  }

  lemma ImageGood(n: nat, image: seq<seq<seq<int>>>, store: seq<seq<array<int>>>, genuine: seq<seq<bool>>, s: ScanInfo, plan: Plan, walk: Walk)
    requires Shaped(n, image, store, genuine) && GoodWalk(s, plan, walk, Sizes(image), genuine) && Within(image, walk)
    ensures GoodMcus(plan, McusOf(image, walk)) && (forall mcu <- McusOf(image, walk) :: ShortMcu(mcu))
    ensures McusOf(image, walk) != []
  {
    hide Visits, Reached, ShortCoefs;
    var mcus := McusOf(image, walk);
    forall mcu | mcu in mcus ensures GoodMcu(plan, mcu) && ShortMcu(mcu) {
      var i :| 0 <= i < |mcus| && mcus[i] == mcu;
      forall block | block in mcu ensures |block| == 64 && ShortCoefs(block) {
        var b :| 0 <= b < |mcu| && mcu[b] == block;
        assert block == image[walk[i][b].0][walk[i][b].1];
      }
    }
  }

  lemma ScanReady(n: nat, image: seq<seq<seq<int>>>, store: seq<seq<array<int>>>, genuine: seq<seq<bool>>, before: seq<ScanInfo>,
                  s: ScanInfo, plan: Plan, walk: Walk)
    requires ScansOk(n, true, before) && ProgScanOk(n, before, s) && LaidOut(s, plan)
    requires Shaped(n, image, store, genuine) && GoodWalk(s, plan, walk, Sizes(image), genuine)
    requires Knows(n, image, genuine, before, Stored(store))
    requires Within(image, walk) && Within(store, walk) && Separated(ArraysFor(store, walk))
    ensures RangesOk(s) && AllReady(ProgressOf(s, plan), McusOf(image, walk), Stored(ArraysFor(store, walk)))
  {
    hide ScansOk, OrderOkFor, Zigzag, PreciseBlock, ReadyFor, Stored, KnowsBlock, Reached, ShortCoefs;
    ScanValid(n, before, s, plan);
    StoreFacts(ArraysFor(store, walk));
    var mcus, zs := McusOf(image, walk), Stored(ArraysFor(store, walk));
    forall i, b | 0 <= i < |mcus| && 0 <= b < |mcus[i]|
      ensures |zs[i]| == |mcus[i]| && |mcus[i][b]| == |zs[i][b]| == 64 && ReadyFor(ProgressOf(s, plan), Zigzag(mcus[i][b]), zs[i][b])
      ensures s.ss > 0 && s.ah != 0 ==> ShortCoefs(zs[i][b])
    {
      EntryReady(n, image, store, genuine, before, s, plan, walk, i, b);
    }
    forall i | 0 <= i < |mcus|
      ensures ReadyMcu(ProgressOf(s, plan), mcus[i], zs[i])
      ensures s.ss > 0 && s.ah != 0 ==> forall z <- zs[i] :: ShortCoefs(z)
    {
      EntryCount(store, walk, i);
    }
  }

  lemma EntryCount(store: seq<seq<array<int>>>, walk: Walk, i: nat)
    requires Separated(store) && Within(store, walk) && Separated(ArraysFor(store, walk)) && i < |walk|
    ensures |Stored(ArraysFor(store, walk))[i]| == |walk[i]|
  {
    StoreOne(ArraysFor(store, walk), i);
  }

  lemma EntryReady(n: nat, image: seq<seq<seq<int>>>, store: seq<seq<array<int>>>, genuine: seq<seq<bool>>, before: seq<ScanInfo>,
                   s: ScanInfo, plan: Plan, walk: Walk, i: nat, b: nat)
    requires ScansOk(n, true, before) && ProgScanOk(n, before, s) && LaidOut(s, plan)
    requires Shaped(n, image, store, genuine) && GoodWalk(s, plan, walk, Sizes(image), genuine)
    requires Knows(n, image, genuine, before, Stored(store))
    requires Within(image, walk) && Within(store, walk) && Separated(ArraysFor(store, walk)) && i < |walk| && b < |walk[i]|
    ensures var z, base := McusOf(image, walk)[i][b], Stored(ArraysFor(store, walk))[i];
            && |base| == |walk[i]| && |z| == |base[b]| == 64 && RangesOk(s) && ReadyFor(ProgressOf(s, plan), Zigzag(z), base[b])
            && (s.ss > 0 && s.ah != 0 ==> ShortCoefs(base[b]))
  {
    hide ScansOk, OrderOkFor, Zigzag, PreciseBlock, Stored, Reached, ShortCoefs;
    StoredEntry(store, walk, i, b);
    assert Visits(s, plan, walk, Sizes(image), genuine, i, b);
    var (ci, k) := walk[i][b];
    if s.ss > 0 {
      assert KnowsBlock(image, before, Stored(store), ci, k);
      StoreOne(store, ci);
      ShortZigzag(image[ci][k]);
      ScanIsReady(n, before, s, plan, ci, Zigzag(image[ci][k]));
    }
  }

  /** How a scan is laid out and how its bytes travel. */
  datatype Passage = Passage(plan: Plan, walk: Walk, tables: seq<HuffTable>, marker: nat, rest: seq<nat>, first: nat, grants: seq<nat>)

  /** The tables handed over are well typed, and the statistics stay within the range of `jpeg_gen_optimal_table`. */
  ghost predicate Supported(image: seq<seq<seq<int>>>, s: ScanInfo, pass: Passage) {
    && RangesOk(s) && ProgressOf(s, pass.plan).Valid() && Within(image, pass.walk) && GoodMcus(pass.plan, McusOf(image, pass.walk))
    && IsMarker(pass.marker) && AreBytes(pass.rest)
    && |pass.tables| == 2 * NUM_HUFF_TBLS && (forall h <- pass.tables :: h.WellTyped())
    && forall t: nat :: ProgSelected(ProgressOf(s, pass.plan), t) ==>
         CountsFit(ScanTokenList(ProgressOf(s, pass.plan), McusOf(image, pass.walk)), t)
  }

  lemma KnownEntry(p: Progress, mcus: seq<Mcu>, zs: seq<seq<seq<int>>>, i: nat, b: nat)
    requires AllReady(p, mcus, zs) && i < |mcus| && b < |mcus[i]|
    ensures |zs[i]| == |mcus[i]| == |KnownAll(p, mcus, zs)[i]| && |mcus[i][b]| == |zs[i][b]| == 64
    ensures KnownAll(p, mcus, zs)[i][b] == KnownBlock(p, Zigzag(mcus[i][b]), zs[i][b])
  {
    hide KnownBlock, ReadyFor, ShortCoefs;
    assert ReadyMcu(p, mcus[i], zs[i]);
  }

  /** A block that a scan does not visit is not among its arrays. */
  lemma NotVisited(n: nat, image: seq<seq<seq<int>>>, store: seq<seq<array<int>>>, genuine: seq<seq<bool>>, s: ScanInfo, plan: Plan,
                   walk: Walk, ci: nat, b: nat)
    requires Shaped(n, image, store, genuine) && GoodWalk(s, plan, walk, Sizes(image), genuine) && Within(store, walk)
    requires ci < n && b < |store[ci]| && ci !in s.comps
    ensures store[ci][b] !in ArraysOf(ArraysFor(store, walk))
  {
    hide Reached;
    forall i, j | 0 <= i < |walk| && 0 <= j < |walk[i]| ensures ArraysFor(store, walk)[i][j] != store[ci][b] {
      assert Visits(s, plan, walk, Sizes(image), genuine, i, j);
      SameArray(store, walk[i][j].0, walk[i][j].1, ci, b);
    }
  }

  lemma AllStored(store: seq<seq<array<int>>>)
    requires Separated(store)
    ensures |Stored(store)| == |store|
    ensures forall ci, b :: 0 <= ci < |store| && 0 <= b < |store[ci]| ==>
              && |Stored(store)[ci]| == |store[ci]| && store[ci][b].Length == 64
              && Stored(store)[ci][b] == Zigzag(store[ci][b][..])
  {
    hide Zigzag, Stored, Separated;
    StoreFacts(store);
    forall ci, b | 0 <= ci < |store| && 0 <= b < |store[ci]|
      ensures |Stored(store)[ci]| == |store[ci]| && store[ci][b].Length == 64 && Stored(store)[ci][b] == Zigzag(store[ci][b][..])
    {
      StoredBlock(store, ci, b);
    }
  }

  lemma StoredBlock(store: seq<seq<array<int>>>, ci: nat, b: nat)
    requires Separated(store) && ci < |store| && b < |store[ci]|
    ensures |Stored(store)| == |store| && |Stored(store)[ci]| == |store[ci]| && store[ci][b].Length == 64
    ensures Stored(store)[ci][b] == Zigzag(store[ci][b][..])
  {
    hide Zigzag;
    StoreOne(store, ci);
  }

  /** The arrays of a scan hold what the storage holds in these places. */
  lemma BlocksThere(store: seq<seq<array<int>>>, walk: Walk)
    requires Separated(store) && Within(store, walk) && Separated(ArraysFor(store, walk))
    ensures |Stored(store)| == |store| && (forall ci :: 0 <= ci < |store| ==> |Stored(store)[ci]| == |store[ci]|)
    ensures |Stored(ArraysFor(store, walk))| == |walk|
    ensures forall i, b :: 0 <= i < |walk| && 0 <= b < |walk[i]| ==>
              && |Stored(ArraysFor(store, walk))[i]| == |walk[i]|
              && Stored(ArraysFor(store, walk))[i][b] == Stored(store)[walk[i][b].0][walk[i][b].1]
  {
    hide Zigzag, Stored, Separated;
    StoreFacts(store);
    StoreFacts(ArraysFor(store, walk));
    forall ci | 0 <= ci < |store| ensures |Stored(store)[ci]| == |store[ci]| { StoreOne(store, ci); }
    forall i, b | 0 <= i < |walk| && 0 <= b < |walk[i]|
      ensures |Stored(ArraysFor(store, walk))[i]| == |walk[i]|
      ensures Stored(ArraysFor(store, walk))[i][b] == Stored(store)[walk[i][b].0][walk[i][b].1]
    {
      StoredEntry(store, walk, i, b);
      StoredBlock(store, walk[i][b].0, walk[i][b].1);
    }
  }

  /** What `ProgScanRoundTrip` asks for. */
  lemma BeginScan(n: nat, image: seq<seq<seq<int>>>, store: seq<seq<array<int>>>, genuine: seq<seq<bool>>, s: ScanInfo, pass: Passage,
                  before: seq<ScanInfo>)
    requires ScansOk(n, true, before) && ProgScanOk(n, before, s) && LaidOut(s, pass.plan)
    requires Shaped(n, image, store, genuine) && GoodWalk(s, pass.plan, pass.walk, Sizes(image), genuine) && Supported(image, s, pass)
    requires Knows(n, image, genuine, before, Stored(store))
    ensures Within(image, pass.walk) && Within(store, pass.walk) && RangesOk(s) && ProgressOf(s, pass.plan).Valid()
    ensures var p, mcus, arrays := ProgressOf(s, pass.plan), McusOf(image, pass.walk), ArraysFor(store, pass.walk);
            && Separated(store) && Separated(arrays) && ArraysOf(arrays) <= ArraysOf(store) && AllReady(p, mcus, Stored(arrays))
            && p.plan.Covered() && GoodMcus(p.plan, mcus) && mcus != [] && (forall mcu <- mcus :: ShortMcu(mcu))
            && IsMarker(pass.marker) && AreBytes(pass.rest)
            && |pass.tables| == 2 * NUM_HUFF_TBLS && (forall h <- pass.tables :: h.WellTyped())
            && forall t: nat :: ProgSelected(p, t) ==> CountsFit(ScanTokenList(p, mcus), t)
  {
    hide ScansOk, ProgScanOk, Separated, Knows, GoodWalk, AllReady, Progress.Valid, ProgSelected, CountsFit, ScanTokenList, Stored,
         ShortMcu, GoodMcus, ShortCoefs;
    WalkWithin(n, image, store, genuine, s, pass.plan, pass.walk);
    ScanSeparated(n, image, store, genuine, s, pass.plan, pass.walk);
    ImageGood(n, image, store, genuine, s, pass.plan, pass.walk);
    ScanReady(n, image, store, genuine, before, s, pass.plan, pass.walk);
  }

  /** After the scan. */
  lemma Advanced(n: nat, image: seq<seq<seq<int>>>, store: seq<seq<array<int>>>, genuine: seq<seq<bool>>, s: ScanInfo, pass: Passage,
                 before: seq<ScanInfo>, was: seq<seq<seq<int>>>, zs: seq<seq<seq<int>>>)
    requires ProgScanOk(n, before, s) && LaidOut(s, pass.plan) && Shaped(n, image, store, genuine)
    requires GoodWalk(s, pass.plan, pass.walk, Sizes(image), genuine) && RangesOk(s)
    requires Within(image, pass.walk) && Within(store, pass.walk) && Separated(ArraysFor(store, pass.walk))
    requires Knows(n, image, genuine, before, was) && |was| == |store| && |zs| == |pass.walk|
    requires forall ci :: 0 <= ci < |store| ==> |was[ci]| == |store[ci]|
    requires forall i, b :: 0 <= i < |pass.walk| && 0 <= b < |pass.walk[i]| ==>
               |zs[i]| == |pass.walk[i]| && zs[i][b] == was[pass.walk[i][b].0][pass.walk[i][b].1]
    requires AllReady(ProgressOf(s, pass.plan), McusOf(image, pass.walk), zs)
    requires Stored(ArraysFor(store, pass.walk)) == KnownAll(ProgressOf(s, pass.plan), McusOf(image, pass.walk), zs)
    requires |Stored(store)| == |store| && forall ci :: 0 <= ci < |store| ==> |Stored(store)[ci]| == |store[ci]|
    requires forall ci, b :: 0 <= ci < |store| && 0 <= b < |store[ci]| && store[ci][b] !in ArraysOf(ArraysFor(store, pass.walk)) ==>
               Stored(store)[ci][b] == was[ci][b]
    ensures Knows(n, image, genuine, before + [s], Stored(store))
  {
    hide ScansOk, ProgScanOk, Zigzag, PreciseBlock, Stored, ShortCoefs, AllReady, KnownAll, Separated, Visits, KnownBlock;
    var now, p, walk := Stored(store), ProgressOf(s, pass.plan), pass.walk;
    BlocksThere(store, walk);
    forall ci: nat, b: nat | ci < n && Genuine(genuine, ci, b) ensures KnowsBlock(image, before + [s], now, ci, b) {
      assert KnowsBlock(image, before, was, ci, b);
      ScanAdvances(n, before, s, pass.plan, ci, Zigzag(image[ci][b]));
      if ci in s.comps {
        assert Reached(walk, ci, b);
        var i, j :| 0 <= i < |walk| && 0 <= j < |walk[i]| && walk[i][j] == (ci, b);
        KnownEntry(p, McusOf(image, walk), zs, i, j);
      } else {
        NotVisited(n, image, store, genuine, s, pass.plan, walk, ci, b);
      }
    }
  }

  /** A coefficient of the scan is beyond what its coder takes. */
  ghost predicate BeyondRange(image: seq<seq<seq<int>>>, s: ScanInfo, pass: Passage) {
    Supported(image, s, pass) && !ProgScanInRange(ProgressOf(s, pass.plan), McusOf(image, pass.walk))
  }

  /** A Huffman code for one of the tables of the scan would get longer than 32 bits. */
  ghost predicate Overflowing(image: seq<seq<seq<int>>>, s: ScanInfo, pass: Passage) {
    && Supported(image, s, pass)
    && exists t: nat ::
         ProgSelected(ProgressOf(s, pass.plan), t) && Overflows(ScanTokenList(ProgressOf(s, pass.plan), McusOf(image, pass.walk)), t)
  }

  /** `out` is the stream of the scan. */
  ghost predicate Carried(image: seq<seq<seq<int>>>, s: ScanInfo, pass: Passage, out: seq<nat>, x: ProgSource) {
    Supported(image, s, pass) && MadeFrom(x, ProgressOf(s, pass.plan), McusOf(image, pass.walk), pass.marker, out, pass.rest)
  }

  /** The decoder is given all bytes of the stream, sooner or later. */
  predicate AllBytes(pass: Passage, out: seq<nat>) { pass.first + Total(pass.grants) >= |out| + |pass.rest| }

  /** One scan of a script. */
  method TransmitScan(n: nat, image: seq<seq<seq<int>>>, store: seq<seq<array<int>>>, genuine: seq<seq<bool>>, s: ScanInfo, pass: Passage,
                      ghost before: seq<ScanInfo>)
    returns (o: Delivery, out: seq<nat>, ghost x: ProgSource)
    requires ScansOk(n, true, before) && ProgScanOk(n, before, s) && LaidOut(s, pass.plan)
    requires Shaped(n, image, store, genuine) && GoodWalk(s, pass.plan, pass.walk, Sizes(image), genuine) && Supported(image, s, pass)
    requires Knows(n, image, genuine, before, Stored(store))
    modifies ArraysOf(store)
    ensures o.Arrived? ==> Knows(n, image, genuine, before + [s], Stored(store))
    ensures !o.Rejected? ==> Carried(image, s, pass, out, x)
    ensures !o.Rejected? && AllBytes(pass, out) ==> o.Arrived?
    ensures o == Rejected(BadDctCoef) <==> BeyondRange(image, s, pass)
    ensures o.Rejected? && o.error != BadDctCoef ==> o.error == HuffClenOverflow && Overflowing(image, s, pass)
  {
    hide ScansOk, OrderOkFor, Zigzag, PreciseBlock, Stored, Reached, ShortCoefs, Knows, GoodWalk, Supported, LaidOut, AllReady, KnownAll,
         ProgScanInRange, ProgSelected, Overflows, ScanTokenList, CountsFit, Separated, Shaped, ProgScanOk, KnowsBlock, ShortMcu, GoodMcus,
         IsMarker, AreBytes, Progress.Valid;
    BeginScan(n, image, store, genuine, s, pass, before);
    ghost var was, zs := Stored(store), Stored(ArraysFor(store, pass.walk));
    BlocksThere(store, pass.walk);
    AllStored(store);
    var p, mcus := ProgressOf(s, pass.plan), McusOf(image, pass.walk);
    var arrays := ArraysFor(store, pass.walk);
    assert RangesOk(s) && p.Valid() && GoodMcus(p.plan, mcus);
    o, out, x := ProgScanRoundTrip(p, mcus, arrays, pass.tables, pass.marker, pass.rest, pass.first, pass.grants);
    if o.Arrived? {
      AllStored(store);
      BlocksThere(store, pass.walk);
      forall ci, b | 0 <= ci < |store| && 0 <= b < |store[ci]| && store[ci][b] !in ArraysOf(arrays)
        ensures Stored(store)[ci][b] == was[ci][b]
      {
        assert store[ci][b][..] == old(store[ci][b][..]);
      }
      Advanced(n, image, store, genuine, s, pass, before, was, zs);
    }
  }

  /** Every scan of the script has a layout that fits and statistics within range. */
  ghost predicate Planned(image: seq<seq<seq<int>>>, genuine: seq<seq<bool>>, script: seq<ScanInfo>, passes: seq<Passage>) {
    && |passes| == |script|
    && forall i :: 0 <= i < |script| ==> PlannedAt(image, genuine, script[i], passes[i])
  }

  ghost predicate PlannedAt(image: seq<seq<seq<int>>>, genuine: seq<seq<bool>>, s: ScanInfo, pass: Passage) {
    && LaidOut(s, pass.plan) && GoodWalk(s, pass.plan, pass.walk, Sizes(image), genuine) && Supported(image, s, pass)
  }

  function NothingYet<T>(image: seq<seq<T>>): (zs: seq<seq<seq<int>>>)
    ensures |zs| == |image| && forall ci :: 0 <= ci < |zs| ==> |zs[ci]| == |image[ci]|
    ensures forall ci, b :: 0 <= ci < |zs| && 0 <= b < |zs[ci]| ==> zs[ci][b] == Zeros()
  {
    seq(|image|, ci requires 0 <= ci < |image| => seq(|image[ci]|, b => Zeros()))
  }

  lemma KnowsNothing(n: nat, image: seq<seq<seq<int>>>, store: seq<seq<array<int>>>, genuine: seq<seq<bool>>)
    requires Shaped(n, image, store, genuine)
    ensures Knows(n, image, genuine, [], NothingYet(image))
  {
    hide Zigzag;
    forall ci: nat, b: nat | ci < n && Genuine(genuine, ci, b) ensures KnowsBlock(image, [], NothingYet(image), ci, b) {
      assert PreciseBlock([], ci, Zigzag(image[ci][b])) == Zeros();
    }
  }

  lemma ScansBefore(n: nat, script: seq<ScanInfo>, i: nat)
    requires ScansOk(n, true, script) && i < |script|
    ensures ScansOk(n, true, script[..i]) && ProgScanOk(n, script[..i], script[i]) && RangesOk(script[i])
  {
    hide OrderOkFor, LastAl;
    assert ScanOk(n, true, script[..i], script[i]);
    forall j | 0 <= j < i ensures ScanOk(n, true, script[..i][..j], script[..i][j]) {
      assert ScanOk(n, true, script[..j], script[j]);
      assert script[..i][..j] == script[..j];
    }
  }

  lemma PlanIs(image: seq<seq<seq<int>>>, genuine: seq<seq<bool>>, script: seq<ScanInfo>, passes: seq<Passage>, i: nat)
    requires Planned(image, genuine, script, passes) && i < |script|
    ensures PlannedAt(image, genuine, script[i], passes[i])
  {
  }

  /**
   Progressive transmission is exact.  Whatever script `validate_script` has accepted, whatever the restart intervals, and
   however the bytes of each scan arrive: when all scans have been decoded, every coefficient of every genuine block is the
   original at the precision of the last scan that covered it.  A scan is refused only if one of its coefficients is out of range or
   a code length overflows; if no scan is refused and all bytes are delivered, all scans are decoded.
   */
  method TransmitScript(n: nat, image: seq<seq<seq<int>>>, store: seq<seq<array<int>>>, genuine: seq<seq<bool>>, script: seq<ScanInfo>,
                        passes: seq<Passage>)
    returns (o: Delivery, outs: seq<seq<nat>>, ghost xs: seq<ProgSource>)
    requires Acceptable(n, script) && IsProgressive(script) && Shaped(n, image, store, genuine) && Planned(image, genuine, script, passes)
    requires Stored(store) == NothingYet(image)
    modifies ArraysOf(store)
    ensures |outs| == |xs| <= |script| == |passes|
    ensures forall i :: 0 <= i < |outs| ==> Carried(image, script[i], passes[i], outs[i], xs[i])
    ensures o.Arrived? ==> |outs| == |script| && Knows(n, image, genuine, script, Stored(store))
                           && DcArrived(n, image, genuine, script, Stored(store))
    ensures o.Rejected? ==>
              && |outs| < |script| && (o.error == BadDctCoef || o.error == HuffClenOverflow)
              && (o.error == BadDctCoef ==> BeyondRange(image, script[|outs|], passes[|outs|]))
              && (o.error == HuffClenOverflow ==> Overflowing(image, script[|outs|], passes[|outs|]))
    ensures !o.Rejected? && (forall i :: 0 <= i < |outs| ==> AllBytes(passes[i], outs[i])) ==> o.Arrived?
  {
    hide ScansOk, ProgScanOk, Shaped, Planned, Knows, DcArrived, LaidOut, GoodWalk, Supported, Stored, NothingYet, Separated, Carried,
         AllBytes, BeyondRange, Overflowing;
    KnowsNothing(n, image, store, genuine);
    outs, xs := [], [];
    assert script[..0] == [];
    assert script[..|script|] == script;
    ShapedShape(n, image, store, genuine);
    PassCount(image, genuine, script, passes);
    while |outs| < |script|
      invariant |outs| == |xs| <= |script| && Knows(n, image, genuine, script[..|outs|], Stored(store))
      invariant forall i :: 0 <= i < |outs| ==> Carried(image, script[i], passes[i], outs[i], xs[i])
    {
      var i := |outs|;
      ScansBefore(n, script, i);
      PlanIs(image, genuine, script, passes, i);
      assert script[..i + 1] == script[..i] + [script[i]];
      var out;
      ghost var x;
      o, out, x := TransmitScan(n, image, store, genuine, script[i], passes[i], script[..i]);
      if o.Rejected? { return; }
      outs, xs := outs + [out], xs + [x];
      if o.Starved? {
        assert !AllBytes(passes[i], outs[i]);
        return;
      }
    }
    DcAlwaysArrives(n, image, genuine, script, Stored(store));
    o := Arrived;
  }

  lemma ShapedShape(n: nat, image: seq<seq<seq<int>>>, store: seq<seq<array<int>>>, genuine: seq<seq<bool>>)
    requires Shaped(n, image, store, genuine)
    ensures Separated(store) && |image| == |store| == |genuine| == n
  {
    hide Separated;
  }

  lemma PassCount(image: seq<seq<seq<int>>>, genuine: seq<seq<bool>>, script: seq<ScanInfo>, passes: seq<Passage>)
    requires Planned(image, genuine, script, passes)
    ensures |passes| == |script|
  {
  }

  /** The DC coefficient of every genuine block is known to some precision, if not to the last bit. */
  ghost predicate DcArrived(n: nat, image: seq<seq<seq<int>>>, genuine: seq<seq<bool>>, script: seq<ScanInfo>, now: seq<seq<seq<int>>>) {
    forall ci: nat, b: nat :: ci < n && Genuine(genuine, ci, b) ==>
      && LastAl(script, ci, 0) >= 0 && ci < |image| && b < |image[ci]| && image[ci][b] != []
      && ci < |now| && b < |now[ci]| && now[ci][b] != []
      && now[ci][b][0] <= image[ci][b][0] < now[ci][b][0] + Pow2(LastAl(script, ci, 0))
  }

  /** An accepted script leaves no component out. */
  lemma DcAlwaysArrives(n: nat, image: seq<seq<seq<int>>>, genuine: seq<seq<bool>>, script: seq<ScanInfo>, now: seq<seq<seq<int>>>)
    requires Acceptable(n, script) && IsProgressive(script) && Knows(n, image, genuine, script, now)
    ensures DcArrived(n, image, genuine, script, now)
  {
    hide LastAl, FloorTo, Zigzag, NaturalOrder, Pow2, ScansOk, ProgScanOk;
    forall ci: nat, b: nat | ci < n && Genuine(genuine, ci, b)
      ensures LastAl(script, ci, 0) >= 0 && KnowsBlock(image, script, now, ci, b)
      ensures now[ci][b][0] <= image[ci][b][0] < now[ci][b][0] + Pow2(LastAl(script, ci, 0))
    {
      assert KnowsBlock(image, script, now, ci, b);
      PointTransforms(image[ci][b][0], LastAl(script, ci, 0));
      FirstIsDc(image[ci][b]);
    }
  }

  lemma FirstIsDc(block: seq<int>)
    requires |block| == 64
    ensures Zigzag(block)[0] == block[0]
  {
  }

  /** A script that leaves nothing above Al = 0, as the recommended one does, restores the image. */
  lemma NothingLost(n: nat, image: seq<seq<seq<int>>>, store: seq<seq<array<int>>>, genuine: seq<seq<bool>>, script: seq<ScanInfo>)
    requires Shaped(n, image, store, genuine) && Knows(n, image, genuine, script, Stored(store))
    requires forall ci, k :: 0 <= ci < n && 0 <= k < DCTSIZE2 ==> LastAl(script, ci, k) == 0
    ensures forall ci: nat, b: nat :: ci < n && Genuine(genuine, ci, b) ==> store[ci][b][..] == image[ci][b]
  {
    hide Zigzag, Stored, LastAl, Separated, ShortCoefs, Precise;
    AllStored(store);
    forall ci: nat, b: nat | ci < n && Genuine(genuine, ci, b) ensures store[ci][b][..] == image[ci][b] {
      assert KnowsBlock(image, script, Stored(store), ci, b);
      var z := Zigzag(image[ci][b]);
      forall k | 0 <= k < 64 ensures PreciseBlock(script, ci, z)[k] == z[k] { ExactAtZero(script, ci, z, k); }
      ZigzagInjective(store[ci][b][..], image[ci][b]);
    }
  }

  /** With the script of `jpeg_simple_progression` in particular. */
  lemma RecommendedScriptRestores(n: nat, ycc: bool, image: seq<seq<seq<int>>>, store: seq<seq<array<int>>>, genuine: seq<seq<bool>>)
    requires 1 <= n <= MAX_COMPONENTS && Shaped(n, image, store, genuine)
    requires Knows(n, image, genuine, SimpleScript(n, ycc), Stored(store))
    ensures forall ci: nat, b: nat :: ci < n && Genuine(genuine, ci, b) ==> store[ci][b][..] == image[ci][b]
  {
    hide *;
    SimpleScriptSendsAll(n, ycc);
    NothingLost(n, image, store, genuine, SimpleScript(n, ycc));
  }
}
