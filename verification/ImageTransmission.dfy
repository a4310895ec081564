/** Progressive transmission of an image, with scans laid out as both coefficient controllers walk through them. */
module ImageTransmission {
  import opened Bits
  import opened Coefficients
  import opened Geometry
  import opened HuffTables
  import opened McuWalk
  import opened ProgCompress
  import opened ProgPasses
  import opened ProgScan
  import opened ProgTheorem
  import opened ScanLayout
  import opened Scans
  import opened Scripts
  import opened Segments
  import opened SeqRoundTrip
  import opened Statistics
  import opened Transmission

  /** The components of a scan. */
  function CompsOf(n: nat, s: ScanInfo): (comps: seq<nat>)
    requires CompsOk(n, s)
    ensures |comps| == |s.comps| && forall i :: 0 <= i < |comps| ==> comps[i] == s.comps[i] < n
  {
    seq(|s.comps|, i requires 0 <= i < |s.comps| => s.comps[i])
  }

  function GridOf(f: Frame, s: ScanInfo): (g: ScanGrid)
    requires f.Valid() && CompsOk(|f.samp|, s)
    ensures |g.mcuW| == |g.mcuH| == |s.comps|
  {
    Grid(f, CompsOf(|f.samp|, s))
  }

  /** The MCUs of the scan are those that `per_scan_setup` provides for, and come in the order of the walk. */
  ghost predicate Walks(f: Frame, s: ScanInfo, pass: Passage) {
    && f.Valid() && CompsOk(|f.samp|, s) && pass.plan.Valid() && |pass.plan.comps| == |s.comps|
    && pass.plan.membership == GridOf(f, s).membership && GridOf(f, s).perRow > 0
    && pass.walk == LayoutOf(f, CompsOf(|f.samp|, s), GridOf(f, s))
  }

  /** What a scan of the script needs besides. */
  ghost predicate Equipped(image: seq<seq<seq<int>>>, s: ScanInfo, pass: Passage) {
    && IsMarker(pass.marker) && AreBytes(pass.rest)
    && |pass.tables| == 2 * NUM_HUFF_TBLS && (forall h <- pass.tables :: h.WellTyped())
    && (RangesOk(s) && ProgressOf(s, pass.plan).Valid() && Within(image, pass.walk) && GoodMcus(pass.plan, McusOf(image, pass.walk)) ==>
          forall t: nat :: ProgSelected(ProgressOf(s, pass.plan), t) ==>
            CountsFit(ScanTokenList(ProgressOf(s, pass.plan), McusOf(image, pass.walk)), t))
  }

  ghost predicate Prepared(f: Frame, image: seq<seq<seq<int>>>, script: seq<ScanInfo>, passes: seq<Passage>) {
    |passes| == |script| && forall i :: 0 <= i < |script| ==> Walks(f, script[i], passes[i]) && Equipped(image, script[i], passes[i])
  }

  lemma SizesAgree(f: Frame, image: seq<seq<seq<int>>>, store: seq<seq<array<int>>>)
    requires f.Valid() && Shaped(|f.samp|, image, store, AllGenuine(f))
    ensures Sizes(image) == AllSizes(f)
  {
    hide StoredBlocks, GenuineNumber, ShortCoefs, Separated;
  }

  /** Such a scan is planned as transmission requires. */
  lemma FramePlans(f: Frame, image: seq<seq<seq<int>>>, store: seq<seq<array<int>>>, before: seq<ScanInfo>, s: ScanInfo, pass: Passage)
    requires f.Valid() && Shaped(|f.samp|, image, store, AllGenuine(f)) && ProgScanOk(|f.samp|, before, s)
    requires Walks(f, s, pass) && Equipped(image, s, pass)
    ensures PlannedAt(image, AllGenuine(f), s, pass)
  {
    hide Grid, GoodWalk, Shaped, LayoutOf, AllGenuine, AllSizes, LastAl, ScanTokenList, ProgSelected, CountsFit, Progress.Valid,
         ShortMcu, OrderOkFor;
    var comps, g := CompsOf(|f.samp|, s), GridOf(f, s);
    GridFacts(f, comps, g);
    LayoutIsGood(f, s, comps, g, pass.plan);
    SizesAgree(f, image, store);
    if |s.comps| == 1 { SingleBlock(f, s); }
    ScanValid(|f.samp|, before, s, pass.plan);
    WalkWithin(|f.samp|, image, store, AllGenuine(f), s, pass.plan, pass.walk);
    ImageGood(|f.samp|, image, store, AllGenuine(f), s, pass.plan, pass.walk);
  }

  lemma SingleBlock(f: Frame, s: ScanInfo)
    requires f.Valid() && CompsOk(|f.samp|, s) && |s.comps| == 1
    ensures GridOf(f, s).membership == [0]
  {
  }

  lemma AllPlanned(f: Frame, image: seq<seq<seq<int>>>, store: seq<seq<array<int>>>, script: seq<ScanInfo>, passes: seq<Passage>)
    requires f.Valid() && Shaped(|f.samp|, image, store, AllGenuine(f)) && Prepared(f, image, script, passes)
    requires Acceptable(|f.samp|, script) && IsProgressive(script)
    ensures Planned(image, AllGenuine(f), script, passes)
  {
    hide Shaped, ProgScanOk, Walks, Equipped, PlannedAt, Complete, ScansOk;
    forall i | 0 <= i < |script| ensures PlannedAt(image, AllGenuine(f), script[i], passes[i]) {
      ScansBefore(|f.samp|, script, i);
      FramePlans(f, image, store, script[..i], script[i], passes[i]);
    }
  }

  /** Block (`row`, `col`) of component `c` is known as precisely as the script has sent it. */
  ghost predicate KnownAt(f: Frame, image: seq<seq<seq<int>>>, script: seq<ScanInfo>, now: seq<seq<seq<int>>>, c: nat, row: nat, col: nat)
    requires f.maxH > 0 && c < |f.samp|
  {
    KnowsBlock(image, script, now, c, Number(f, c, row, col))
  }

  lemma KnownEverywhere(f: Frame, image: seq<seq<seq<int>>>, script: seq<ScanInfo>, now: seq<seq<seq<int>>>)
    requires f.Valid() && Knows(|f.samp|, image, AllGenuine(f), script, now)
    ensures forall c: nat, row: nat, col: nat :: c < |f.samp| && InImage(f, c, row, col) ==> KnownAt(f, image, script, now, c, row, col)
  {
    hide KnowsBlock, Stride, StoredRows, StoredBlocks, Number, Frame.WidthInBlocks, Frame.HeightInBlocks;
    forall c: nat, row: nat, col: nat | c < |f.samp| && InImage(f, c, row, col) ensures KnownAt(f, image, script, now, c, row, col) {
      StrideRange(f, c);
      PlaceTells(f, c, row, col);
      assert GenuineNumber(f, c, Number(f, c, row, col));
      assert Genuine(AllGenuine(f), c, Number(f, c, row, col));
    }
  }

  /** The DC coefficient of the block is known to the precision of the last scan that sent it. */
  ghost predicate DcKnownAt(f: Frame, image: seq<seq<seq<int>>>, script: seq<ScanInfo>, now: seq<seq<seq<int>>>, c: nat, row: nat, col: nat)
    requires f.maxH > 0 && c < |f.samp|
  {
    var b := Number(f, c, row, col);
    && LastAl(script, c, 0) >= 0 && c < |image| && b < |image[c]| && image[c][b] != []
    && c < |now| && b < |now[c]| && now[c][b] != []
    && now[c][b][0] <= image[c][b][0] < now[c][b][0] + Pow2(LastAl(script, c, 0))
  }

  lemma DcEverywhere(f: Frame, image: seq<seq<seq<int>>>, script: seq<ScanInfo>, now: seq<seq<seq<int>>>)
    requires f.Valid() && DcArrived(|f.samp|, image, AllGenuine(f), script, now)
    ensures forall c: nat, row: nat, col: nat :: c < |f.samp| && InImage(f, c, row, col) ==> DcKnownAt(f, image, script, now, c, row, col)
  {
    hide Stride, StoredRows, StoredBlocks, Number, Frame.WidthInBlocks, Frame.HeightInBlocks, LastAl, Pow2;
    forall c: nat, row: nat, col: nat | c < |f.samp| && InImage(f, c, row, col) ensures DcKnownAt(f, image, script, now, c, row, col) {
      StrideRange(f, c);
      PlaceTells(f, c, row, col);
      assert GenuineNumber(f, c, Number(f, c, row, col));
      assert Genuine(AllGenuine(f), c, Number(f, c, row, col));
    }
  }

  /**
   Progressive transmission of a whole image over any accepted script, the scans being laid out as the controllers on both sides walk
   through them: when all scans have arrived, every block within the image is known at the precision of the last scan that covered it.
   */
  method TransmitImage(f: Frame, image: seq<seq<seq<int>>>, store: seq<seq<array<int>>>, script: seq<ScanInfo>, passes: seq<Passage>)
    returns (o: Delivery, outs: seq<seq<nat>>, ghost xs: seq<ProgSource>)
    requires f.Valid() && Acceptable(|f.samp|, script) && IsProgressive(script) && Shaped(|f.samp|, image, store, AllGenuine(f))
    requires Prepared(f, image, script, passes) && Stored(store) == NothingYet(image)
    modifies ArraysOf(store)
    ensures |outs| == |xs| <= |script| == |passes|
    ensures forall i :: 0 <= i < |outs| ==> Carried(image, script[i], passes[i], outs[i], xs[i])
    ensures o.Arrived? ==>
              && |outs| == |script|
              && forall c: nat, row: nat, col: nat :: c < |f.samp| && InImage(f, c, row, col) ==>
                   KnownAt(f, image, script, Stored(store), c, row, col) && DcKnownAt(f, image, script, Stored(store), c, row, col)
    ensures o.Rejected? ==>
              && |outs| < |script| && (o.error == BadDctCoef || o.error == HuffClenOverflow)
              && (o.error == BadDctCoef ==> BeyondRange(image, script[|outs|], passes[|outs|]))
              && (o.error == HuffClenOverflow ==> Overflowing(image, script[|outs|], passes[|outs|]))
    ensures !o.Rejected? && (forall i :: 0 <= i < |outs| ==> AllBytes(passes[i], outs[i])) ==> o.Arrived?
  {
    hide Shaped, Planned, Stored, NothingYet, Carried, BeyondRange, Overflowing, AllBytes, Knows, KnownAt, DcArrived, DcKnownAt, InImage,
         Complete, ScansOk, Prepared, Separated;
    ShapedShape(|f.samp|, image, store, AllGenuine(f));
    AllPlanned(f, image, store, script, passes);
    o, outs, xs := TransmitScript(|f.samp|, image, store, AllGenuine(f), script, passes);
    if o.Arrived? {
      KnownEverywhere(f, image, script, Stored(store));
      DcEverywhere(f, image, script, Stored(store));
    }
  }
}
