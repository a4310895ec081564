/** The walk of `McuWalk`, with blocks numbered as they are stored: a layout that progressive transmission can rely on. */
module ScanLayout {
  import opened Arith
  import opened Geometry
  import opened McuWalk
  import opened Scans
  import opened Scripts
  import opened Transmission

  /** The stored blocks of a component: whole MCUs, padding included. */
  function Stride(f: Frame, c: nat): (n: nat)
    requires f.maxH > 0 && c < |f.samp|
  {
    MulNonNeg(f.MCUsAcross(), f.samp[c].h);
    f.MCUsAcross() * f.samp[c].h
  }

  function StoredRows(f: Frame, c: nat): (n: nat)
    requires f.maxV > 0 && c < |f.samp|
  {
    MulNonNeg(f.TotalImcuRows(), f.samp[c].v);
    f.TotalImcuRows() * f.samp[c].v
  }

  function StoredBlocks(f: Frame, c: nat): (n: nat)
    requires f.maxH > 0 && f.maxV > 0 && c < |f.samp|
  {
    MulNonNeg(StoredRows(f, c), Stride(f, c));
    StoredRows(f, c) * Stride(f, c)
  }

  function Number(f: Frame, c: nat, row: nat, col: nat): (b: nat)
    requires f.maxH > 0 && c < |f.samp|
  {
    MulNonNeg(row, Stride(f, c));
    row * Stride(f, c) + col
  }

  /** Whether a stored block holds samples of the image. */
  predicate InImage(f: Frame, c: nat, row: nat, col: nat)
    requires f.maxH > 0 && f.maxV > 0 && c < |f.samp|
  {
    row < f.HeightInBlocks(c) && col < f.WidthInBlocks(c)
  }

  function GenuineBlocks(f: Frame, c: nat): (g: seq<bool>)
    requires f.Valid() && c < |f.samp|
    ensures |g| == StoredBlocks(f, c)
  {
    seq(StoredBlocks(f, c), b requires 0 <= b < StoredBlocks(f, c) => GenuineNumber(f, c, b))
  }

  predicate GenuineNumber(f: Frame, c: nat, b: nat)
    requires f.Valid() && c < |f.samp|
  {
    StrideRange(f, c);
    DivNonNeg(b, Stride(f, c));
    InImage(f, c, b / Stride(f, c), b % Stride(f, c))
  }

  lemma StrideRange(f: Frame, c: nat)
    requires f.Valid() && c < |f.samp|
    ensures 0 < f.WidthInBlocks(c) <= Stride(f, c) && 0 < f.HeightInBlocks(c) <= StoredRows(f, c)
  {
    BlocksInMcus(f, c);
    MulNonNeg(f.MCUsAcross() - 1, f.samp[c].h);
    MulNonNeg(f.TotalImcuRows() - 1, f.samp[c].v);
  }

  /** All components. */
  function AllGenuine(f: Frame): (g: seq<seq<bool>>)
    requires f.Valid()
    ensures |g| == |f.samp|
  {
    seq(|f.samp|, c requires 0 <= c < |f.samp| => GenuineBlocks(f, c))
  }

  function AllSizes(f: Frame): (s: seq<nat>)
    requires f.Valid()
    ensures |s| == |f.samp|
  {
    seq(|f.samp|, c requires 0 <= c < |f.samp| => StoredBlocks(f, c))
  }

  /** A visited block as it is stored. */
  function Place(f: Frame, comps: seq<nat>, e: Visit): (p: (nat, nat))
    requires f.maxH > 0 && CompsIn(f, comps) && e.ci < |comps|
  {
    (comps[e.ci], Number(f, comps[e.ci], e.row, e.col))
  }

  lemma GridFacts(f: Frame, comps: seq<nat>, g: ScanGrid)
    requires ForScan(f, comps, g)
    ensures |g.mcuW| == |g.mcuH| == |comps| && g.perRow > 0 && g.rows > 0
    ensures forall i :: 0 <= i < |comps| ==> GridAt(f, comps, g, i)
  {
    forall i | 0 <= i < |comps| ensures GridAt(f, comps, g, i) { StrideRange(f, comps[i]); }
    StrideRange(f, comps[0]);
    BlocksInMcus(f, comps[0]);
  }

  /** The grid covers the image in component `i`, and stays within what is stored; a single component has no padding. */
  ghost predicate GridAt(f: Frame, comps: seq<nat>, g: ScanGrid, i: nat)
    requires f.Valid() && CompsIn(f, comps) && i < |comps| == |g.mcuW| == |g.mcuH|
  {
    && g.mcuW[i] > 0 && g.mcuH[i] > 0
    && f.HeightInBlocks(comps[i]) <= g.rows * g.mcuH[i] <= StoredRows(f, comps[i])
    && f.WidthInBlocks(comps[i]) <= g.perRow * g.mcuW[i] <= Stride(f, comps[i])
    && (|comps| == 1 ==> g.rows * g.mcuH[i] == f.HeightInBlocks(comps[i]) && g.perRow * g.mcuW[i] == f.WidthInBlocks(comps[i]))
  }

  lemma VisitsInside(g: ScanGrid, t: nat, b: nat)
    requires |g.mcuW| == |g.mcuH| && g.perRow > 0 && t < Index(g, g.rows, 0) && b < |NthMcu(g, t)|
    ensures var e := NthMcu(g, t)[b]; e.ci < |g.mcuW| && e.row < g.rows * g.mcuH[e.ci] && e.col < g.perRow * g.mcuW[e.ci]
  {
    hide McuVisits;
    DivNonNeg(t, g.perRow);
    var r, c := t / g.perRow, t % g.perRow;
    McuCovers(g, r, c, |g.mcuW|);
    var e := NthMcu(g, t)[b];
    assert e in NthMcu(g, t);
    assert InMcu(g, r, c, e);
    if r >= g.rows { MulMono(g.rows, r, g.perRow); }
    MulBelow(r, g.rows, g.mcuH[e.ci]);
    MulBelow(c, g.perRow, g.mcuW[e.ci]);
  }

  lemma AllInside(g: ScanGrid, t: nat)
    requires |g.mcuW| == |g.mcuH| && g.perRow > 0 && t < Index(g, g.rows, 0)
    ensures forall b :: 0 <= b < |NthMcu(g, t)| ==> NthMcu(g, t)[b].ci < |g.mcuW|
  {
    hide NthMcu;
    forall b | 0 <= b < |NthMcu(g, t)| ensures NthMcu(g, t)[b].ci < |g.mcuW| { VisitsInside(g, t, b); }
  }

  /** The walk of a scan over the stored blocks. */
  function LayoutOf(f: Frame, comps: seq<nat>, g: ScanGrid): (walk: Walk)
    requires f.Valid() && CompsIn(f, comps) && |g.mcuW| == |g.mcuH| == |comps| && g.perRow > 0
    ensures |walk| == Index(g, g.rows, 0) && forall t :: 0 <= t < |walk| ==> walk[t] == McuPlaces(f, comps, g, t)
  {
    seq(Index(g, g.rows, 0), t requires 0 <= t < Index(g, g.rows, 0) => McuPlaces(f, comps, g, t))
  }

  function McuPlaces(f: Frame, comps: seq<nat>, g: ScanGrid, t: nat): (s: seq<(nat, nat)>)
    requires f.Valid() && CompsIn(f, comps) && |g.mcuW| == |g.mcuH| == |comps| && g.perRow > 0 && t < Index(g, g.rows, 0)
    ensures |s| == |NthMcu(g, t)|
    ensures forall b :: 0 <= b < |s| ==> NthMcu(g, t)[b].ci < |comps| && s[b] == Place(f, comps, NthMcu(g, t)[b])
  {
    AllInside(g, t);
    seq(|NthMcu(g, t)|, b requires 0 <= b < |NthMcu(g, t)| => Place(f, comps, NthMcu(g, t)[b]))
  }

  lemma PlaceTells(f: Frame, c: nat, row: nat, col: nat)
    requires f.Valid() && c < |f.samp| && col < Stride(f, c)
    ensures Number(f, c, row, col) / Stride(f, c) == row && Number(f, c, row, col) % Stride(f, c) == col
    ensures row < StoredRows(f, c) ==> Number(f, c, row, col) < StoredBlocks(f, c)
  {
    DivModUnique(row, col, Stride(f, c), Number(f, c, row, col));
    if row < StoredRows(f, c) { MulBelow(row, StoredRows(f, c), Stride(f, c)); }
  }

  /** The blocks of an MCU come in the order of the membership list. */
  lemma {:induction false} InMembershipOrder(f: Frame, comps: seq<nat>, g: ScanGrid, r: nat, c: nat, n: nat)
    requires ForScan(f, comps, g) && |comps| > 1 && n <= |comps|
    ensures |g.mcuW| == |g.mcuH| == |comps|
    ensures var v, m := McuVisits(g, r, c, n), Membership(f, comps, n);
            |v| == |m| && forall b :: 0 <= b < |v| ==> v[b].ci == m[b]
    decreases n
  {
    hide Frame.MCUsAcross, Frame.TotalImcuRows;
    if n > 0 {
      InMembershipOrder(f, comps, g, r, c, n - 1);
      MulNonNeg(r, g.mcuH[n - 1]);
      MulNonNeg(c, g.mcuW[n - 1]);
      var s := CompVisits(n - 1, r * g.mcuH[n - 1], c * g.mcuW[n - 1], g.mcuW[n - 1], g.mcuH[n - 1]);
      CompCovers(n - 1, r * g.mcuH[n - 1], c * g.mcuW[n - 1], g.mcuW[n - 1], g.mcuH[n - 1]);
      forall b | 0 <= b < |s| ensures s[b].ci == n - 1 { assert s[b] in s; }
    }
  }

  lemma McuOrder(f: Frame, comps: seq<nat>, g: ScanGrid, t: nat)
    requires ForScan(f, comps, g)
    ensures |g.mcuW| == |g.mcuH| == |comps| && g.perRow > 0
    ensures |NthMcu(g, t)| == |g.membership| && forall b :: 0 <= b < |g.membership| ==> NthMcu(g, t)[b].ci == g.membership[b]
  {
    GridFacts(f, comps, g);
    DivNonNeg(t, g.perRow);
    if |comps| > 1 {
      InMembershipOrder(f, comps, g, t / g.perRow, t % g.perRow, |comps|);
    } else {
      var v := NthMcu(g, t);
      McuCovers(g, t / g.perRow, t % g.perRow, 1);
      assert |McuVisits(g, t / g.perRow, t % g.perRow, 0)| == 0;
      assert v[0] in v;
    }
  }

  // ----- A good layout -----

  ghost predicate SameComps(s: ScanInfo, comps: seq<nat>) {
    |s.comps| == |comps| && forall i :: 0 <= i < |comps| ==> s.comps[i] == comps[i]
  }

  lemma VisitFits(f: Frame, s: ScanInfo, comps: seq<nat>, g: ScanGrid, plan: Plan, t: nat, b: nat)
    requires ForScan(f, comps, g) && SameComps(s, comps) && plan.membership == g.membership && (s.ss > 0 ==> |comps| == 1)
    requires |g.mcuW| == |g.mcuH| == |comps| && g.perRow > 0 && t < |LayoutOf(f, comps, g)| && b < |LayoutOf(f, comps, g)[t]|
    ensures |LayoutOf(f, comps, g)[t]| == |plan.membership|
    ensures Visits(s, plan, LayoutOf(f, comps, g), AllSizes(f), AllGenuine(f), t, b)
  {
    hide NthMcu, Grid, StoredBlocks, Stride, StoredRows, Number, Frame.WidthInBlocks, Frame.HeightInBlocks;
    McuOrder(f, comps, g, t);
    GridFacts(f, comps, g);
    VisitsInside(g, t, b);
    var e := NthMcu(g, t)[b];
    assert GridAt(f, comps, g, e.ci);
    PlaceTells(f, comps[e.ci], e.row, e.col);
  }

  lemma VisitsDiffer(f: Frame, n: nat, s: ScanInfo, comps: seq<nat>, g: ScanGrid, t: nat, b: nat, t': nat, b': nat)
    requires ForScan(f, comps, g) && SameComps(s, comps) && CompsOk(n, s) && |g.mcuW| == |g.mcuH| == |comps| && g.perRow > 0
    requires t < |LayoutOf(f, comps, g)| && t' < |LayoutOf(f, comps, g)| && (t, b) != (t', b')
    requires b < |LayoutOf(f, comps, g)[t]| && b' < |LayoutOf(f, comps, g)[t']|
    ensures LayoutOf(f, comps, g)[t][b] != LayoutOf(f, comps, g)[t'][b']
  {
    hide NthMcu, Grid, StoredBlocks, Stride, StoredRows, Number, Frame.WidthInBlocks, Frame.HeightInBlocks;
    GridFacts(f, comps, g);
    VisitsInside(g, t, b);
    VisitsInside(g, t', b');
    MetOnce(g, t, b, t', b');
    var e, e' := NthMcu(g, t)[b], NthMcu(g, t')[b'];
    assert GridAt(f, comps, g, e.ci) && GridAt(f, comps, g, e'.ci);
    if e.ci < e'.ci { Increasing(s, n, e.ci, e'.ci); }
    if e'.ci < e.ci { Increasing(s, n, e'.ci, e.ci); }
    PlaceTells(f, comps[e.ci], e.row, e.col);
    PlaceTells(f, comps[e'.ci], e'.row, e'.col);
  }

  lemma GenuineReached(f: Frame, s: ScanInfo, comps: seq<nat>, g: ScanGrid, ci: nat, b: nat)
    requires ForScan(f, comps, g) && SameComps(s, comps) && |g.mcuW| == |g.mcuH| == |comps| && g.perRow > 0
    requires ci in s.comps && Genuine(AllGenuine(f), ci, b)
    ensures Reached(LayoutOf(f, comps, g), ci, b)
  {
    hide NthMcu, Grid, Frame.WidthInBlocks, Frame.HeightInBlocks, StoredBlocks, Stride, StoredRows, Number, GenuineNumber,
         AllGenuine, Genuine, McuPlaces;
    GridFacts(f, comps, g);
    var i :| 0 <= i < |s.comps| && s.comps[i] == ci;
    assert GridAt(f, comps, g, i);
    var row, col := GenuinePlace(f, ci, b);
    var e := Visit(i, row, col);
    var t, k := Met(g, e);
    assert LayoutOf(f, comps, g)[t][k] == Place(f, comps, e);
  }

  /** Row and column of a genuine block. */
  lemma GenuinePlace(f: Frame, ci: nat, b: nat) returns (row: nat, col: nat)
    requires f.Valid() && ci < |f.samp| && Genuine(AllGenuine(f), ci, b)
    ensures InImage(f, ci, row, col) && Number(f, ci, row, col) == b
  {
    hide Stride, Frame.WidthInBlocks, Frame.HeightInBlocks;
    StrideRange(f, ci);
    assert GenuineNumber(f, ci, b);
    DivNonNeg(b, Stride(f, ci));
    row, col := b / Stride(f, ci), b % Stride(f, ci);
  }

  lemma GridCovers(f: Frame, comps: seq<nat>, g: ScanGrid)
    requires ForScan(f, comps, g)
    ensures forall i :: 0 <= i < |comps| ==> i in g.membership
  {
    hide Frame.WidthInBlocks, Frame.HeightInBlocks, Frame.MCUsAcross, Frame.TotalImcuRows;
    if |comps| > 1 { MembershipCovers(f, comps, |comps|); }
  }

  lemma {:induction false} MembershipCovers(f: Frame, comps: seq<nat>, n: nat)
    requires f.Valid() && CompsIn(f, comps) && n <= |comps|
    ensures forall i :: 0 <= i < n ==> i in Membership(f, comps, n)
    decreases n
  {
    if n > 0 {
      MembershipCovers(f, comps, n - 1);
      var c := comps[n - 1];
      MulMono(1, f.samp[c].h, f.samp[c].v);
      var last := Repeat(n - 1, BlocksOf(f, c));
      assert last[0] == n - 1;
      assert last[0] in last;
    }
  }

  /** What the controllers walk through is a layout in which every genuine block of the scan's components comes exactly once. */
  lemma LayoutIsGood(f: Frame, s: ScanInfo, comps: seq<nat>, g: ScanGrid, plan: Plan)
    requires ForScan(f, comps, g) && SameComps(s, comps) && CompsOk(|f.samp|, s) && plan.membership == g.membership
    requires s.ss > 0 ==> |comps| == 1
    ensures |g.mcuW| == |g.mcuH| == |comps| && g.perRow > 0
    ensures GoodWalk(s, plan, LayoutOf(f, comps, g), AllSizes(f), AllGenuine(f))
    ensures forall i :: 0 <= i < |comps| ==> i in plan.membership
  {
    hide NthMcu, Grid, Visits, Reached, AllSizes, AllGenuine, Genuine, McuPlaces;
    GridFacts(f, comps, g);
    GridCovers(f, comps, g);
    var walk := LayoutOf(f, comps, g);
    MulMono(1, g.rows, g.perRow);
    forall t | 0 <= t < |walk| ensures |walk[t]| == |plan.membership| {
      McuOrder(f, comps, g, t);
    }
    forall t, b | 0 <= t < |walk| && 0 <= b < |walk[t]| ensures Visits(s, plan, walk, AllSizes(f), AllGenuine(f), t, b) {
      VisitFits(f, s, comps, g, plan, t, b);
    }
    forall t, b, t', b' | 0 <= t < |walk| && 0 <= b < |walk[t]| && 0 <= t' < |walk| && 0 <= b' < |walk[t']| && (t, b) != (t', b')
      ensures walk[t][b] != walk[t'][b']
    {
      VisitsDiffer(f, |f.samp|, s, comps, g, t, b, t', b');
    }
    forall ci: nat, b: nat | ci in s.comps && Genuine(AllGenuine(f), ci, b) ensures Reached(walk, ci, b) {
      GenuineReached(f, s, comps, g, ci, b);
    }
  }
}
