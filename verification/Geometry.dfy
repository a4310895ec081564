/** Image dimensions in blocks and MCUs (`initial_setup`, `per_scan_setup`); both sides of the codec compute them alike. */
module Geometry {
  import opened Arith
  import opened HuffTables
  import opened Scans

  const DCTSIZE: nat := 8
  const MAX_SAMP_FACTOR := 4
  const JPEG_MAX_DIMENSION := 65500

  /** `jdiv_round_up`. */
  function DivRoundUp(a: nat, b: nat): (q: nat)
    requires b > 0
  {
    DivNonNeg(a + b - 1, b);
    (a + b - 1) / b
  }

  /** What rounding up means. */
  lemma RoundUpIs(a: nat, b: nat, q: nat)
    requires b > 0
    ensures q == DivRoundUp(a, b) <==> (q as int - 1) * b < a <= q * b
  {
    var d, r := (a + b - 1) / b, (a + b - 1) % b;
    MulDistrib(d - 1, 1, b);
    assert (d - 1) * b < a <= d * b;
    if (q as int - 1) * b < a <= q * b {
      if q < d { MulMono(q, d - 1, b); }
      if d < q { MulMono(d, q - 1, b); }
    }
  }

  /** Rounding up a quotient that has been rounded up. */
  lemma NestedRoundUp(a: nat, h: nat, d: nat)
    requires h > 0 && d > 0
    ensures DivRoundUp(DivRoundUp(a * h, d), h) == DivRoundUp(a, d)
  {
    MulNonNeg(a, h);
    var m, w := DivRoundUp(a, d), DivRoundUp(a * h, d);
    ScaledRoundUp(a, h, d);
    RoundUpIs(w, h, m);
  }

  lemma ScaledRoundUp(a: nat, h: nat, d: nat)
    requires h > 0 && d > 0
    ensures a * h >= 0
    ensures var m: int, w := DivRoundUp(a, d), DivRoundUp(a * h, d); (m - 1) * h < w <= m * h
  {
    MulNonNeg(a, h);
    var m: int, w: int := DivRoundUp(a, d), DivRoundUp(a * h, d);
    RoundUpIs(a, d, m);
    RoundUpIs(a * h, d, w);
    if w > m * h {
      MulMono(a, m * d, h);
      MulMono(m * h, w - 1, d);
      MulSwap(m, d, h);
    }
    if w <= (m - 1) * h {
      MulMono((m - 1) * d + 1, a, h);
      MulDistrib((m - 1) * d, 1, h);
      MulMono(w, (m - 1) * h, d);
      MulSwap(m - 1, d, h);
    }
  }

  lemma MulSwap(a: int, b: int, c: int)
    ensures a * b * c == a * c * b
  {
    MulAssoc(a, b, c);
    MulAssoc(a, c, b);
  }

  datatype Sampling = Sampling(h: nat, v: nat) {
    predicate Valid() { 1 <= h <= MAX_SAMP_FACTOR && 1 <= v <= MAX_SAMP_FACTOR }
  }

  /** An image: its size, and the sampling factors of its components with their maxima. */
  datatype Frame = Frame(width: nat, height: nat, samp: seq<Sampling>, maxH: nat, maxV: nat) {
    ghost predicate Valid() {
      && 1 <= width <= JPEG_MAX_DIMENSION && 1 <= height <= JPEG_MAX_DIMENSION
      && 1 <= maxH <= MAX_SAMP_FACTOR && 1 <= maxV <= MAX_SAMP_FACTOR
      && forall ci :: 0 <= ci < |samp| ==> samp[ci].Valid() && samp[ci].h <= maxH && samp[ci].v <= maxV
    }

    function WidthInBlocks(ci: nat): (w: nat)
      requires ci < |samp| && maxH > 0
    {
      MulNonNeg(width, samp[ci].h);
      DivRoundUp(width * samp[ci].h, maxH * DCTSIZE)
    }

    function HeightInBlocks(ci: nat): (h: nat)
      requires ci < |samp| && maxV > 0
    {
      MulNonNeg(height, samp[ci].v);
      DivRoundUp(height * samp[ci].v, maxV * DCTSIZE)
    }

    function TotalImcuRows(): (n: nat)
      requires maxV > 0
    {
      DivRoundUp(height, maxV * DCTSIZE)
    }

    function MCUsAcross(): (n: nat)
      requires maxH > 0
    {
      DivRoundUp(width, maxH * DCTSIZE)
    }
  }

  const BITS_IN_JSAMPLE := 8

  datatype SetupError = EmptyImage | ImageTooBig | WidthOverflow | BadPrecision | TooManyComponents | BadSampling | BadMcuSize

  datatype Setup<+T> = Made(value: T) | Failed(error: SetupError)

  /** `initial_setup`, with 64-bit long integers. */
  method InitialSetup(width: nat, height: nat, inputComponents: int, precision: int, samp: seq<Sampling>) returns (r: Setup<Frame>)
    ensures r.Made? <==> 1 <= width <= JPEG_MAX_DIMENSION && 1 <= height <= JPEG_MAX_DIMENSION
                         && 1 <= inputComponents && width * inputComponents < 0x1_0000_0000 && precision == BITS_IN_JSAMPLE
                         && 1 <= |samp| <= 10 && forall ci :: 0 <= ci < |samp| ==> samp[ci].Valid()
    ensures r.Made? ==> r.value.Valid() && r.value.width == width && r.value.height == height && r.value.samp == samp
    ensures r.Made? ==> exists ci :: 0 <= ci < |samp| && samp[ci].h == r.value.maxH
    ensures r.Made? ==> exists ci :: 0 <= ci < |samp| && samp[ci].v == r.value.maxV
  {
    if height <= 0 || width <= 0 || |samp| <= 0 || inputComponents <= 0 { return Failed(EmptyImage); }
    if height > JPEG_MAX_DIMENSION || width > JPEG_MAX_DIMENSION { return Failed(ImageTooBig); }
    var samplesPerRow: nat := width * inputComponents;
    if samplesPerRow % 0x1_0000_0000 != samplesPerRow { return Failed(WidthOverflow); }
    if precision != BITS_IN_JSAMPLE { return Failed(BadPrecision); }
    if |samp| > 10 { return Failed(TooManyComponents); }
    var maxH, maxV := 1, 1;
    var ci := 0;
    while ci < |samp|
      invariant 0 <= ci <= |samp| && 1 <= maxH && 1 <= maxV
      invariant forall i :: 0 <= i < ci ==> samp[i].Valid() && samp[i].h <= maxH && samp[i].v <= maxV
      invariant if ci == 0 then maxH == maxV == 1
                else (exists i :: 0 <= i < ci && samp[i].h == maxH) && exists i :: 0 <= i < ci && samp[i].v == maxV
    {
      var s := samp[ci];
      if s.h <= 0 || s.h > MAX_SAMP_FACTOR || s.v <= 0 || s.v > MAX_SAMP_FACTOR { return Failed(BadSampling); }
      if s.h > maxH { maxH := s.h; }
      if s.v > maxV { maxV := s.v; }
      ci := ci + 1;
    }
    r := Made(Frame(width, height, samp, maxH, maxV));
  }

  // ----- Blocks and samples -----

  /** The samples of a line or of a column of a component, and its blocks. */
  lemma BlocksOfSamples(a: nat, m: nat, size: nat)
    requires m > 0 && size > 0
    ensures DivRoundUp(a, m * size) == DivRoundUp(DivRoundUp(a, m), size)
  {
    MulNonNeg(m, size);
    if m * size == 0 { MulMono(1, m, size); }
    var q, w := DivRoundUp(a, m * size), DivRoundUp(a, m);
    RoundUpIs(a, m * size, q);
    RoundUpIs(a, m, w);
    MulAssoc(q, size, m);
    MulAssoc(q - 1, size, m);
    if w <= (q - 1) * size { MulMono(w, (q - 1) * size, m); }
    if w - 1 >= q * size { MulMono(q * size, w - 1, m); }
    RoundUpIs(w, size, q);
  }

  /** `downsampled_width` and `downsampled_height`: the samples of a component in each direction. */
  function DownsampledWidth(f: Frame, ci: nat): (w: nat)
    requires f.Valid() && ci < |f.samp|
  {
    MulNonNeg(f.width, f.samp[ci].h);
    DivRoundUp(f.width * f.samp[ci].h, f.maxH)
  }

  function DownsampledHeight(f: Frame, ci: nat): (h: nat)
    requires f.Valid() && ci < |f.samp|
  {
    MulNonNeg(f.height, f.samp[ci].v);
    DivRoundUp(f.height * f.samp[ci].v, f.maxV)
  }

  /** The samples of a component are those that its share of the image's dimensions calls for. */
  lemma SamplesAre(f: Frame, ci: nat)
    requires f.Valid() && ci < |f.samp|
    ensures (DownsampledWidth(f, ci) - 1) * f.maxH < f.width * f.samp[ci].h <= DownsampledWidth(f, ci) * f.maxH
    ensures (DownsampledHeight(f, ci) - 1) * f.maxV < f.height * f.samp[ci].v <= DownsampledHeight(f, ci) * f.maxV
  {
    MulNonNeg(f.width, f.samp[ci].h);
    MulNonNeg(f.height, f.samp[ci].v);
    RoundUpIs(f.width * f.samp[ci].h, f.maxH, DownsampledWidth(f, ci));
    RoundUpIs(f.height * f.samp[ci].v, f.maxV, DownsampledHeight(f, ci));
  }

  /** The blocks of a component cover its samples, and the last one in each direction is needed. */
  lemma BlocksCoverSamples(f: Frame, ci: nat)
    requires f.Valid() && ci < |f.samp|
    ensures (f.WidthInBlocks(ci) as int - 1) * 8 < DownsampledWidth(f, ci) <= f.WidthInBlocks(ci) * 8
    ensures (f.HeightInBlocks(ci) - 1) * 8 < DownsampledHeight(f, ci) <= f.HeightInBlocks(ci) * 8
  {
    MulNonNeg(f.width, f.samp[ci].h);
    MulNonNeg(f.height, f.samp[ci].v);
    BlocksOfSamples(f.width * f.samp[ci].h, f.maxH, DCTSIZE);
    BlocksOfSamples(f.height * f.samp[ci].v, f.maxV, DCTSIZE);
    RoundUpIs(DownsampledWidth(f, ci), DCTSIZE, f.WidthInBlocks(ci));
    RoundUpIs(DownsampledHeight(f, ci), DCTSIZE, f.HeightInBlocks(ci));
  }

  /** The MCUs of an interleaved scan cover the image, and the last column and the last row of them are needed. */
  lemma McusCoverImage(f: Frame)
    requires f.Valid()
    ensures (f.MCUsAcross() - 1) * (f.maxH * 8) < f.width <= f.MCUsAcross() * (f.maxH * 8)
    ensures (f.TotalImcuRows() - 1) * (f.maxV * 8) < f.height <= f.TotalImcuRows() * (f.maxV * 8)
  {
    RoundUpIs(f.width, f.maxH * DCTSIZE, f.MCUsAcross());
    RoundUpIs(f.height, f.maxV * DCTSIZE, f.TotalImcuRows());
  }

  /** Blocks fill the MCUs except in the last column and the last row of them. */
  lemma BlocksInMcus(f: Frame, ci: nat)
    requires f.Valid() && ci < |f.samp|
    ensures f.MCUsAcross() >= 1 && f.TotalImcuRows() >= 1
    ensures (f.MCUsAcross() - 1) * f.samp[ci].h < f.WidthInBlocks(ci) <= f.MCUsAcross() * f.samp[ci].h
    ensures (f.TotalImcuRows() - 1) * f.samp[ci].v < f.HeightInBlocks(ci) <= f.TotalImcuRows() * f.samp[ci].v
  {
    ScaledRoundUp(f.width, f.samp[ci].h, f.maxH * DCTSIZE);
    ScaledRoundUp(f.height, f.samp[ci].v, f.maxV * DCTSIZE);
    RoundUpIs(f.width, f.maxH * DCTSIZE, f.MCUsAcross());
    RoundUpIs(f.height, f.maxV * DCTSIZE, f.TotalImcuRows());
  }

  /** What is left over in the last MCU column or row: `last_col_width`, `last_row_height`. */
  function LastPart(blocks: nat, factor: nat): (r: nat)
    requires factor > 0
    ensures 1 <= r <= factor
  {
    if blocks % factor == 0 then factor else blocks % factor
  }

  lemma LastPartIs(blocks: nat, factor: nat, n: nat)
    requires factor > 0 && n > 0 && (n - 1) * factor < blocks <= n * factor
    ensures blocks == (n - 1) * factor + LastPart(blocks, factor)
  {
    MulDistrib(n - 1, 1, factor);
    var r := blocks - (n - 1) * factor;
    if r == factor { DivModUnique(n, 0, factor, blocks); } else { DivModUnique(n - 1, r, factor, blocks); }
  }

  function LastColWidth(f: Frame, ci: nat): (w: nat)
    requires f.Valid() && ci < |f.samp|
  {
    LastPart(f.WidthInBlocks(ci), f.samp[ci].h)
  }

  function LastRowHeight(f: Frame, ci: nat): (h: nat)
    requires f.Valid() && ci < |f.samp|
  {
    LastPart(f.HeightInBlocks(ci), f.samp[ci].v)
  }

  // ----- A scan -----

  /**
   The MCU grid of a scan, the size of an MCU in blocks of each of its components, and last_col_width and last_row_height of the
   components: the blocks of the image in the last MCU column and in the last MCU row; of a single component, the block rows in the
   last iMCU row.
   */
  datatype ScanGrid = ScanGrid(perRow: nat, rows: nat, mcuW: seq<nat>, mcuH: seq<nat>, lastCol: seq<nat>, lastRow: seq<nat>,
                               membership: seq<nat>)

  /** `n` entries for component `ci`. */
  function Repeat(ci: nat, n: nat): (s: seq<nat>)
    ensures |s| == n && forall i :: 0 <= i < n ==> s[i] == ci
  {
    seq(n, i => ci)
  }

  function BlocksOf(f: Frame, ci: nat): (n: nat)
    requires ci < |f.samp|
  {
    MulNonNeg(f.samp[ci].h, f.samp[ci].v);
    f.samp[ci].h * f.samp[ci].v
  }

  predicate CompsIn(f: Frame, comps: seq<nat>) { forall i :: 0 <= i < |comps| ==> comps[i] < |f.samp| }

  /** MCU_membership of the first `n` components of an interleaved scan. */
  function Membership(f: Frame, comps: seq<nat>, n: nat): (s: seq<nat>)
    requires CompsIn(f, comps) && n <= |comps|
    ensures forall i :: 0 <= i < |s| ==> s[i] < n
  {
    if n == 0 then [] else Membership(f, comps, n - 1) + Repeat(n - 1, BlocksOf(f, comps[n - 1]))
  }

  /** The grid that `per_scan_setup` sets up. */
  function Grid(f: Frame, comps: seq<nat>): (g: ScanGrid)
    requires f.Valid() && CompsIn(f, comps) && comps != []
    ensures |g.mcuW| == |g.mcuH| == |g.lastCol| == |g.lastRow| == |comps|
  {
    if |comps| == 1 then
      ScanGrid(f.WidthInBlocks(comps[0]), f.HeightInBlocks(comps[0]), [1], [1], [1], [LastRowHeight(f, comps[0])], [0])
    else
      ScanGrid(f.MCUsAcross(), f.TotalImcuRows(),
               seq(|comps|, i requires 0 <= i < |comps| => f.samp[comps[i]].h),
               seq(|comps|, i requires 0 <= i < |comps| => f.samp[comps[i]].v),
               seq(|comps|, i requires 0 <= i < |comps| => LastColWidth(f, comps[i])),
               seq(|comps|, i requires 0 <= i < |comps| => LastRowHeight(f, comps[i])),
               Membership(f, comps, |comps|))
  }

  lemma {:induction false} Repeated(ci: nat, n: nat, i: nat)
    ensures multiset(Repeat(ci, n))[i] == if i == ci then n else 0
  {
    if n > 0 {
      Repeated(ci, n - 1, i);
      assert Repeat(ci, n) == Repeat(ci, n - 1) + [ci];
    }
  }

  lemma {:induction false} MembersCounted(f: Frame, comps: seq<nat>, n: nat, i: nat)
    requires CompsIn(f, comps) && i < |comps| && n <= |comps|
    ensures multiset(Membership(f, comps, n))[i] == if i < n then BlocksOf(f, comps[i]) else 0
  {
    hide BlocksOf, Repeat;
    if n > 0 {
      MembersCounted(f, comps, n - 1, i);
      Repeated(n - 1, BlocksOf(f, comps[n - 1]), i);
    }
  }

  lemma {:induction false} MembersInOrder(f: Frame, comps: seq<nat>, n: nat, x: nat, y: nat)
    requires CompsIn(f, comps) && n <= |comps| && x <= y < |Membership(f, comps, n)|
    ensures Membership(f, comps, n)[x] <= Membership(f, comps, n)[y]
  {
    hide BlocksOf;
    if n > 0 && y < |Membership(f, comps, n - 1)| { MembersInOrder(f, comps, n - 1, x, y); }
  }

  /**
   What the grid means.  An MCU of a scan of one component is one block, and the blocks cover the component's samples.  An MCU of an
   interleaved scan has h times v blocks of each component, listed component by component, and the MCUs cover the image.
   */
  lemma GridMeans(f: Frame, comps: seq<nat>)
    requires f.Valid() && CompsIn(f, comps) && comps != []
    ensures var g := Grid(f, comps);
            if |comps| == 1 then
              && g.mcuW == g.mcuH == [1] && g.membership == [0]
              && (g.perRow - 1) * 8 < DownsampledWidth(f, comps[0]) <= g.perRow * 8
              && (g.rows - 1) * 8 < DownsampledHeight(f, comps[0]) <= g.rows * 8
            else
              && (g.perRow - 1) * (f.maxH * 8) < f.width <= g.perRow * (f.maxH * 8)
              && (g.rows - 1) * (f.maxV * 8) < f.height <= g.rows * (f.maxV * 8)
              && (forall i :: 0 <= i < |comps| ==> g.mcuW[i] == f.samp[comps[i]].h && g.mcuH[i] == f.samp[comps[i]].v)
              && (forall i :: 0 <= i < |comps| ==> multiset(g.membership)[i] == f.samp[comps[i]].h * f.samp[comps[i]].v)
              && (forall x, y :: 0 <= x <= y < |g.membership| ==> g.membership[x] <= g.membership[y])
  {
    hide DownsampledWidth, DownsampledHeight, Frame.WidthInBlocks, Frame.HeightInBlocks, Frame.MCUsAcross, Frame.TotalImcuRows, Membership;
    BlocksCoverSamples(f, comps[0]);
    McusCoverImage(f);
    if |comps| > 1 {
      var m := Membership(f, comps, |comps|);
      forall i | 0 <= i < |comps| ensures multiset(m)[i] == f.samp[comps[i]].h * f.samp[comps[i]].v {
        MembersCounted(f, comps, |comps|, i);
      }
      forall x, y | 0 <= x <= y < |m| ensures m[x] <= m[y] { MembersInOrder(f, comps, |comps|, x, y); }
    }
  }

  lemma {:induction false} MembershipGrows(f: Frame, comps: seq<nat>, n: nat, m: nat)
    requires CompsIn(f, comps) && n <= m <= |comps|
    ensures |Membership(f, comps, n)| <= |Membership(f, comps, m)|
    decreases m
  {
    if n < m { MembershipGrows(f, comps, n, m - 1); }
  }

  /** The entries of one component. */
  method EnterBlocks(before: seq<nat>, ci: nat, n: nat) returns (membership: seq<nat>)
    ensures membership == before + Repeat(ci, n)
  {
    membership := before;
    var mcublks := n;
    while mcublks > 0
      invariant 0 <= mcublks <= n && membership == before + Repeat(ci, n - mcublks)
    {
      assert Repeat(ci, n - mcublks + 1) == Repeat(ci, n - mcublks) + [ci];
      membership := membership + [ci];
      mcublks := mcublks - 1;
    }
  }

  lemma NoMembers(f: Frame, comps: seq<nat>)
    requires CompsIn(f, comps)
    ensures Membership(f, comps, 0) == []
  {
  }

  lemma MembershipNext(f: Frame, comps: seq<nat>, n: nat)
    requires CompsIn(f, comps) && n < |comps|
    ensures Membership(f, comps, n + 1) == Membership(f, comps, n) + Repeat(n, BlocksOf(f, comps[n]))
  {
  }

  lemma OneGrid(f: Frame, comps: seq<nat>)
    requires f.Valid() && CompsIn(f, comps) && |comps| == 1
    ensures Grid(f, comps)
         == ScanGrid(f.WidthInBlocks(comps[0]), f.HeightInBlocks(comps[0]), [1], [1], [1], [LastRowHeight(f, comps[0])], [0])
  {
  }

  lemma GridIs(f: Frame, comps: seq<nat>, mcuW: seq<nat>, mcuH: seq<nat>, lastCol: seq<nat>, lastRow: seq<nat>)
    requires f.Valid() && CompsIn(f, comps) && |comps| > 1 && |mcuW| == |mcuH| == |lastCol| == |lastRow| == |comps|
    requires forall i :: 0 <= i < |comps| ==> mcuW[i] == f.samp[comps[i]].h && mcuH[i] == f.samp[comps[i]].v
    requires forall i :: 0 <= i < |comps| ==> lastCol[i] == LastColWidth(f, comps[i]) && lastRow[i] == LastRowHeight(f, comps[i])
    ensures Grid(f, comps)
         == ScanGrid(f.MCUsAcross(), f.TotalImcuRows(), mcuW, mcuH, lastCol, lastRow, Membership(f, comps, |comps|))
  {
    hide Membership, Frame.MCUsAcross, Frame.TotalImcuRows, LastColWidth, LastRowHeight;
  }

  /** The computation of last_col_width and last_row_height. */
  method LastOf(blocks: nat, factor: nat) returns (tmp: nat)
    requires factor > 0
    ensures tmp == LastPart(blocks, factor)
  {
    tmp := blocks % factor;
    if tmp == 0 { tmp := factor; }
  }

  /** `per_scan_setup`. */
  method PerScanSetup(f: Frame, comps: seq<nat>) returns (r: Setup<ScanGrid>)
    requires f.Valid() && CompsIn(f, comps) && comps != []
    ensures r.Made? <==> |comps| == 1 || (|comps| <= MAX_COMPS_IN_SCAN && |Membership(f, comps, |comps|)| <= MAX_BLOCKS_IN_MCU)
    ensures r.Made? ==> r.value == Grid(f, comps)
  {
    hide LastPart, Frame.WidthInBlocks, Frame.HeightInBlocks, Grid, Membership;
    if |comps| == 1 {
      OneGrid(f, comps);
      var tmp := LastOf(f.HeightInBlocks(comps[0]), f.samp[comps[0]].v);
      return Made(ScanGrid(f.WidthInBlocks(comps[0]), f.HeightInBlocks(comps[0]), [1], [1], [1], [tmp], [0]));
    }
    if |comps| <= 0 || |comps| > MAX_COMPS_IN_SCAN { return Failed(TooManyComponents); }
    r := InterleavedSetup(f, comps);
  }

  /** Its second part, for interleaved scans. */
  method InterleavedSetup(f: Frame, comps: seq<nat>) returns (r: Setup<ScanGrid>)
    requires f.Valid() && CompsIn(f, comps) && |comps| > 1
    ensures r.Made? <==> |Membership(f, comps, |comps|)| <= MAX_BLOCKS_IN_MCU
    ensures r.Made? ==> r.value == Grid(f, comps)
  {
    hide BlocksOf, Repeat, Membership, Frame.WidthInBlocks, Frame.HeightInBlocks, Frame.MCUsAcross, Frame.TotalImcuRows, Grid, LastPart;
    NoMembers(f, comps);
    var mcuW, mcuH, lastCol, lastRow, membership := [], [], [], [], [];
    var ci := 0;
    while ci < |comps|
      invariant 0 <= ci <= |comps| && |mcuW| == |mcuH| == |lastCol| == |lastRow| == ci && membership == Membership(f, comps, ci)
      invariant forall i :: 0 <= i < ci ==> mcuW[i] == f.samp[comps[i]].h && mcuH[i] == f.samp[comps[i]].v
      invariant forall i :: 0 <= i < ci ==> lastCol[i] == LastColWidth(f, comps[i]) && lastRow[i] == LastRowHeight(f, comps[i])
      invariant |membership| <= MAX_BLOCKS_IN_MCU
    {
      MembershipGrows(f, comps, ci + 1, |comps|);
      MembershipNext(f, comps, ci);
      var s := f.samp[comps[ci]];
      mcuW, mcuH := mcuW + [s.h], mcuH + [s.v];
      var width := LastOf(f.WidthInBlocks(comps[ci]), s.h);
      var height := LastOf(f.HeightInBlocks(comps[ci]), s.v);
      lastCol, lastRow := lastCol + [width], lastRow + [height];
      var mcublks: nat := BlocksOf(f, comps[ci]);
      if |membership| + mcublks > MAX_BLOCKS_IN_MCU { return Failed(BadMcuSize); }
      membership := EnterBlocks(membership, ci, mcublks);
      ci := ci + 1;
    }
    r := Made(ScanGrid(f.MCUsAcross(), f.TotalImcuRows(), mcuW, mcuH, lastCol, lastRow, membership));
    GridIs(f, comps, mcuW, mcuH, lastCol, lastRow);
  }
}
