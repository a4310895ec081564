/**
 The order in which `compress_output` and `consume_data` go through the blocks of a scan, one iMCU row per call and with
 suspensions anywhere: the same on both sides; every block of the image is met exactly once; and padding is met in interleaved scans
 only, exactly beyond last_col_width in the last MCU column and beyond last_row_height in the last MCU row.
 */
module McuWalk {
  import opened Arith
  import opened Geometry
  import opened HuffTables
  import opened Scans
  import Seqs

  /** A block: component of the scan, block row and block column. */
  datatype Visit = Visit(ci: nat, row: nat, col: nat)

  /** The blocks of one row of an MCU in one component. */
  function RowVisits(ci: nat, row: nat, col: nat, w: nat): (s: seq<Visit>)
    ensures |s| == w && forall x :: 0 <= x < w ==> s[x] == Visit(ci, row, col + x)
  {
    seq(w, x requires 0 <= x < w => Visit(ci, row, col + x))
  }

  /** The first `h` rows of an MCU in one component. */
  function CompVisits(ci: nat, row: nat, col: nat, w: nat, h: nat): (s: seq<Visit>)
    ensures |s| == w * h
    decreases h
  {
    if h == 0 then [] else
      MulDistrib(h - 1, 1, w);
      CompVisits(ci, row, col, w, h - 1) + RowVisits(ci, row + h - 1, col, w)
  }

  /** The blocks of the MCU at MCU row `r` and MCU column `c`, as far as the first `n` components go. */
  function McuVisits(g: ScanGrid, r: nat, c: nat, n: nat): (s: seq<Visit>)
    requires n <= |g.mcuW| == |g.mcuH|
  {
    if n == 0 then [] else
      MulNonNeg(r, g.mcuH[n - 1]);
      MulNonNeg(c, g.mcuW[n - 1]);
      McuVisits(g, r, c, n - 1) + CompVisits(n - 1, r * g.mcuH[n - 1], c * g.mcuW[n - 1], g.mcuW[n - 1], g.mcuH[n - 1])
  }

  /** The t-th MCU of a scan. */
  function NthMcu(g: ScanGrid, t: nat): (s: seq<Visit>)
    requires |g.mcuW| == |g.mcuH| && g.perRow > 0
  {
    DivNonNeg(t, g.perRow);
    McuVisits(g, t / g.perRow, t % g.perRow, |g.mcuW|)
  }

  /** The first `n` MCUs. */
  function Walked(g: ScanGrid, n: nat): (walk: seq<seq<Visit>>)
    requires |g.mcuW| == |g.mcuH| && g.perRow > 0
    ensures |walk| == n && forall t :: 0 <= t < n ==> walk[t] == NthMcu(g, t)
  {
    seq(n, t requires 0 <= t < n => NthMcu(g, t))
  }

  /** The number of the MCU at row `r`, column `c`. */
  function Index(g: ScanGrid, r: nat, c: nat): (t: nat) {
    MulNonNeg(r, g.perRow);
    r * g.perRow + c
  }

  lemma IndexTells(g: ScanGrid, r: nat, c: nat)
    requires c < g.perRow && |g.mcuW| == |g.mcuH|
    ensures NthMcu(g, Index(g, r, c)) == McuVisits(g, r, c, |g.mcuW|)
  {
    DivModUnique(r, c, g.perRow, Index(g, r, c));
  }

  lemma NextRow(g: ScanGrid, r: nat)
    ensures Index(g, r + 1, 0) == Index(g, r, g.perRow)
  {
    MulDistrib(r, 1, g.perRow);
  }

  lemma WalkedNext(g: ScanGrid, n: nat)
    requires |g.mcuW| == |g.mcuH| && g.perRow > 0
    ensures Walked(g, n + 1) == Walked(g, n) + [NthMcu(g, n)]
  {
    hide NthMcu;
  }

  // ----- iMCU rows -----

  ghost predicate ForScan(f: Frame, comps: seq<nat>, g: ScanGrid) {
    f.Valid() && CompsIn(f, comps) && comps != [] && g == Grid(f, comps)
  }

  /** The MCU rows of iMCU row `k`. */
  ghost function RowsIn(f: Frame, comps: seq<nat>, k: nat): (n: nat)
    requires f.Valid() && CompsIn(f, comps) && comps != []
  {
    if |comps| > 1 then 1
    else if k < f.TotalImcuRows() - 1 then f.samp[comps[0]].v
    else LastRowHeight(f, comps[0])
  }

  /** The MCU row that iMCU row `k` starts with. */
  ghost function FirstRow(f: Frame, comps: seq<nat>, k: nat): (r: nat)
    requires f.Valid() && CompsIn(f, comps) && comps != []
  {
    MulNonNeg(k, f.samp[comps[0]].v);
    if |comps| > 1 then k else k * f.samp[comps[0]].v
  }

  /** How many MCUs come before the one in column `ctr` of the `vert`-th MCU row of iMCU row `k`. */
  ghost function Passed(f: Frame, comps: seq<nat>, g: ScanGrid, k: nat, vert: nat, ctr: nat): (n: nat)
    requires f.Valid() && CompsIn(f, comps) && comps != []
  {
    Index(g, FirstRow(f, comps, k) + vert, ctr)
  }

  lemma RowsAddUp(f: Frame, comps: seq<nat>, g: ScanGrid, k: nat)
    requires ForScan(f, comps, g) && k < f.TotalImcuRows()
    ensures RowsIn(f, comps, k) > 0
    ensures FirstRow(f, comps, k) + RowsIn(f, comps, k) == if k + 1 < f.TotalImcuRows() then FirstRow(f, comps, k + 1) else g.rows
  {
    var c := comps[0];
    BlocksInMcus(f, c);
    MulDistrib(k, 1, f.samp[c].v);
    LastPartIs(f.HeightInBlocks(c), f.samp[c].v, f.TotalImcuRows());
  }

  /** The end of an iMCU row is the beginning of the next, or of nothing. */
  lemma RowsPassed(f: Frame, comps: seq<nat>, g: ScanGrid, k: nat)
    requires ForScan(f, comps, g) && k < f.TotalImcuRows()
    ensures Passed(f, comps, g, k, RowsIn(f, comps, k), 0)
         == if k + 1 < f.TotalImcuRows() then Passed(f, comps, g, k + 1, 0, 0) else Index(g, g.rows, 0)
  {
    hide Grid, RowsIn, FirstRow, Frame.TotalImcuRows;
    RowsAddUp(f, comps, g, k);
  }

  lemma GridShape(f: Frame, comps: seq<nat>, g: ScanGrid)
    requires ForScan(f, comps, g)
    ensures |g.mcuW| == |g.mcuH| == |g.lastRow| == |comps| && g.perRow > 0 && f.TotalImcuRows() > 0
    ensures |comps| == 1 ==> g.lastRow[0] == LastRowHeight(f, comps[0])
    ensures Passed(f, comps, g, 0, 0, 0) == 0
  {
    BlocksInMcus(f, comps[0]);
    MulNonNeg(f.MCUsAcross() - 1, f.samp[comps[0]].h);
  }

  /** Where block row `yindex` of an MCU lies. */
  lemma RowOfMcu(f: Frame, comps: seq<nat>, g: ScanGrid, k: nat, ci: nat, yoffset: nat)
    requires ForScan(f, comps, g) && ci < |comps| && yoffset < RowsIn(f, comps, k)
    ensures |g.mcuH| == |comps| && k * f.samp[comps[ci]].v + yoffset == (FirstRow(f, comps, k) + yoffset) * g.mcuH[ci]
  {
  }

  /** The list of the blocks of an MCU, as both controllers construct it. */
  method CollectBlocks(f: Frame, comps: seq<nat>, g: ScanGrid, imcuRow: nat, yoffset: nat, mcuColNum: nat) returns (mcuBuffer: seq<Visit>)
    requires ForScan(f, comps, g) && yoffset < RowsIn(f, comps, imcuRow)
    ensures |g.mcuW| == |g.mcuH| == |comps|
    ensures mcuBuffer == McuVisits(g, FirstRow(f, comps, imcuRow) + yoffset, mcuColNum, |comps|)
  {
    hide Grid, FirstRow, RowsIn;
    GridShape(f, comps, g);
    mcuBuffer := [];
    var ci := 0;
    while ci < |comps|
      invariant 0 <= ci <= |comps| && mcuBuffer == McuVisits(g, FirstRow(f, comps, imcuRow) + yoffset, mcuColNum, ci)
    {
      RowOfMcu(f, comps, g, imcuRow, ci, yoffset);
      MulNonNeg(mcuColNum, g.mcuW[ci]);
      MulNonNeg(imcuRow, f.samp[comps[ci]].v);
      var startCol: nat, firstRow: nat := mcuColNum * g.mcuW[ci], imcuRow * f.samp[comps[ci]].v + yoffset;
      var part := CollectComponent(ci, firstRow, startCol, g.mcuW[ci], g.mcuH[ci]);
      mcuBuffer := mcuBuffer + part;
      ci := ci + 1;
    }
  }

  /** The blocks of one component of an MCU. */
  method CollectComponent(ci: nat, firstRow: nat, startCol: nat, w: nat, h: nat) returns (part: seq<Visit>)
    ensures part == CompVisits(ci, firstRow, startCol, w, h)
  {
    part := [];
    var yindex := 0;
    while yindex < h
      invariant 0 <= yindex <= h && part == CompVisits(ci, firstRow, startCol, w, yindex)
    {
      ghost var before := part;
      var xindex := 0;
      while xindex < w
        invariant 0 <= xindex <= w && part == before + RowVisits(ci, firstRow + yindex, startCol, xindex)
      {
        assert RowVisits(ci, firstRow + yindex, startCol, xindex + 1)
            == RowVisits(ci, firstRow + yindex, startCol, xindex) + [Visit(ci, firstRow + yindex, startCol + xindex)];
        part := part + [Visit(ci, firstRow + yindex, startCol + xindex)];
        xindex := xindex + 1;
      }
      yindex := yindex + 1;
    }
  }

  // ----- The coefficient controllers -----

  /** The MCU rows of iMCU row `k`, as start_iMCU_row determines them. */
  method RowsOf(f: Frame, comps: seq<nat>, g: ScanGrid, k: nat) returns (rows: nat)
    requires ForScan(f, comps, g)
    ensures rows == RowsIn(f, comps, k)
  {
    hide Grid, Frame.TotalImcuRows;
    GridShape(f, comps, g);
    if |comps| > 1 {
      rows := 1;
    } else if k < f.TotalImcuRows() - 1 {
      rows := f.samp[comps[0]].v;
    } else {
      rows := g.lastRow[0];
    }
  }

  /** Where a controller has got to in an iMCU row: the fields that both coefficient controllers have in common. */
  class McuCursor {
    const f: Frame
    const comps: seq<nat>
    const g: ScanGrid
    var mcuCtr: nat
    var mcuVertOffset: nat
    var mcuRowsPerImcuRow: nat
    ghost var log: seq<seq<Visit>>      // the MCUs that the entropy coder has dealt with

    /** In iMCU row `k`, or behind the last one. */
    ghost predicate Valid(k: nat)
      reads this
    {
      && ForScan(f, comps, g) && g.perRow > 0 && k <= f.TotalImcuRows()
      && if k == f.TotalImcuRows() then log == Walked(g, Index(g, g.rows, 0))
         else
           && mcuRowsPerImcuRow == RowsIn(f, comps, k) && mcuVertOffset < mcuRowsPerImcuRow && mcuCtr < g.perRow
           && log == Walked(g, Passed(f, comps, g, k, mcuVertOffset, mcuCtr))
    }

    constructor (f: Frame, comps: seq<nat>, g: ScanGrid)
      requires ForScan(f, comps, g)
      ensures Valid(0) && this.f == f && this.comps == comps && this.g == g && log == []
    {
      this.f, this.comps, this.g, log := f, comps, g, [];
      new;
      hide Grid, Frame.TotalImcuRows, RowsIn, Passed;
      GridShape(f, comps, g);
      StartImcuRow(0);
      RowsAddUp(f, comps, g, 0);
      assert Walked(g, 0) == [];
    }

    /** `start_iMCU_row`. */
    method StartImcuRow(k: nat)
      requires ForScan(f, comps, g)
      modifies this`mcuRowsPerImcuRow, this`mcuCtr, this`mcuVertOffset
      ensures mcuRowsPerImcuRow == RowsIn(f, comps, k) && mcuCtr == 0 && mcuVertOffset == 0
    {
      hide Grid, RowsIn;
      mcuRowsPerImcuRow := RowsOf(f, comps, g, k);
      mcuCtr, mcuVertOffset := 0, 0;
    }

    /** One row of MCUs; `accepts` tells how many MCUs the entropy coder deals with before it suspends. */
    method ProcessMcuRow(k: nat, yoffset: nat, accepts: nat) returns (done: bool, left: nat)
      requires ForScan(f, comps, g) && g.perRow > 0 && yoffset < RowsIn(f, comps, k) && mcuCtr < g.perRow
      requires log == Walked(g, Passed(f, comps, g, k, yoffset, mcuCtr))
      modifies this`log, this`mcuCtr, this`mcuVertOffset
      ensures left <= accepts && |log| == |old(log)| + (accepts - left) && mcuCtr < g.perRow
      ensures done ==> log == Walked(g, Passed(f, comps, g, k, yoffset + 1, 0)) && mcuCtr == 0 && mcuVertOffset == old(mcuVertOffset)
      ensures !done ==> left == 0 && mcuVertOffset == yoffset && log == Walked(g, Passed(f, comps, g, k, yoffset, mcuCtr))
    {
      hide Grid, FirstRow, RowsIn, Walked, NthMcu;
      GridShape(f, comps, g);
      ghost var r := FirstRow(f, comps, k) + yoffset;
      left := accepts;
      var mcuColNum := mcuCtr;
      while mcuColNum < g.perRow
        modifies this`log, this`mcuCtr, this`mcuVertOffset
        invariant 0 <= mcuColNum <= g.perRow && left <= accepts && |log| == |old(log)| + (accepts - left)
        invariant log == Walked(g, Index(g, r, mcuColNum)) && mcuVertOffset == old(mcuVertOffset)
      {
        var mcuBuffer := CollectBlocks(f, comps, g, k, yoffset, mcuColNum);
        if left == 0 {
          mcuVertOffset, mcuCtr := yoffset, mcuColNum;
          return false, left;
        }
        IndexTells(g, r, mcuColNum);
        WalkedNext(g, Index(g, r, mcuColNum));
        log, left := log + [mcuBuffer], left - 1;
        mcuColNum := mcuColNum + 1;
      }
      NextRow(g, r);
      mcuCtr, done := 0, true;
    }

    /** The MCU rows of iMCU row `k`, from where the last call stopped. */
    method ProcessRows(k: nat, accepts: nat) returns (done: bool)
      requires Valid(k) && k < f.TotalImcuRows()
      modifies this`log, this`mcuCtr, this`mcuVertOffset
      ensures done ==> log == Walked(g, Passed(f, comps, g, k, RowsIn(f, comps, k), 0))
      ensures !done ==> Valid(k) && |log| == |old(log)| + accepts
    {
      hide Grid, FirstRow, RowsIn, Walked, NthMcu, Frame.TotalImcuRows, Passed;
      var left: nat, yoffset: nat := accepts, mcuVertOffset;
      while yoffset < mcuRowsPerImcuRow
        modifies this`log, this`mcuCtr, this`mcuVertOffset
        invariant yoffset <= mcuRowsPerImcuRow && mcuCtr < g.perRow && (yoffset == mcuRowsPerImcuRow ==> mcuCtr == 0)
        invariant left <= accepts && |log| == |old(log)| + (accepts - left)
        invariant log == Walked(g, Passed(f, comps, g, k, yoffset, mcuCtr))
      {
        done, left := ProcessMcuRow(k, yoffset, left);
        if !done { return; }
        yoffset := yoffset + 1;
      }
      done := true;
    }

    /** Behind the last MCU of an iMCU row: what the next one begins with has been set, if there is one. */
    lemma RowFinished(k: nat)
      requires ForScan(f, comps, g) && g.perRow > 0 && k < f.TotalImcuRows()
      requires log == Walked(g, Passed(f, comps, g, k, RowsIn(f, comps, k), 0))
      requires k + 1 < f.TotalImcuRows() ==> mcuRowsPerImcuRow == RowsIn(f, comps, k + 1) && mcuCtr == 0 && mcuVertOffset == 0
      ensures Valid(k + 1)
    {
      hide Grid, RowsIn, Walked, NthMcu, Frame.TotalImcuRows, Passed;
      RowsPassed(f, comps, g, k);
      if k + 1 < f.TotalImcuRows() { RowsAddUp(f, comps, g, k + 1); }
    }
  }

  /** The compressor's side. */
  class CompressController {
    const at: McuCursor
    var imcuRowNum: nat

    ghost predicate Valid()
      reads this, at
    {
      at.Valid(imcuRowNum)
    }

    constructor (f: Frame, comps: seq<nat>, g: ScanGrid)
      requires ForScan(f, comps, g)
      ensures Valid() && fresh(at) && at.f == f && at.comps == comps && at.g == g && at.log == [] && imcuRowNum == 0
    {
      at := new McuCursor(f, comps, g);
      imcuRowNum := 0;
    }

    /**
     `compress_output`: one iMCU row.  Wherever the entropy encoder suspends, the next call goes on there; the MCUs come in the order
     of the walk, each once.
     */
    method CompressOutput(accepts: nat) returns (completed: bool)
      requires Valid() && imcuRowNum < at.f.TotalImcuRows()
      modifies this`imcuRowNum, at
      ensures Valid() && imcuRowNum == old(imcuRowNum) + (if completed then 1 else 0)
      ensures !completed ==> |at.log| == |old(at.log)| + accepts
    {
      hide Grid, RowsIn, Walked, NthMcu, Frame.TotalImcuRows, Passed;
      completed := at.ProcessRows(imcuRowNum, accepts);
      if completed {
        imcuRowNum := imcuRowNum + 1;
        at.StartImcuRow(imcuRowNum);
        at.RowFinished(imcuRowNum - 1);
      }
    }
  }

  datatype InputStatus = InputSuspended | RowCompleted | ScanCompleted

  /** The decompressor's side. */
  class DecompressController {
    const at: McuCursor
    var inputImcuRow: nat

    ghost predicate Valid()
      reads this, at
    {
      at.Valid(inputImcuRow)
    }

    constructor (f: Frame, comps: seq<nat>, g: ScanGrid)
      requires ForScan(f, comps, g)
      ensures Valid() && fresh(at) && at.f == f && at.comps == comps && at.g == g && at.log == [] && inputImcuRow == 0
    {
      at := new McuCursor(f, comps, g);
      inputImcuRow := 0;
    }

    /**
     `consume_data`, reading the whole of the image: one iMCU row.  Wherever the entropy decoder suspends, the next call goes on
     there; the MCUs come in the order of the walk, each once, and the end of the scan is reported when the last one has come.
     */
    method ConsumeData(accepts: nat) returns (status: InputStatus)
      requires Valid() && inputImcuRow < at.f.TotalImcuRows()
      modifies this`inputImcuRow, at
      ensures Valid() && inputImcuRow == old(inputImcuRow) + (if status.InputSuspended? then 0 else 1)
      ensures status.InputSuspended? ==> |at.log| == |old(at.log)| + accepts
      ensures status.ScanCompleted? <==> inputImcuRow == at.f.TotalImcuRows()
    {
      hide Grid, RowsIn, Walked, NthMcu, Frame.TotalImcuRows, Passed;
      var done := at.ProcessRows(inputImcuRow, accepts);
      if !done { return InputSuspended; }
      inputImcuRow := inputImcuRow + 1;
      status := ScanCompleted;
      if inputImcuRow < at.f.TotalImcuRows() {
        at.StartImcuRow(inputImcuRow);
        status := RowCompleted;
      }
      at.RowFinished(inputImcuRow - 1);
    }
  }

  /**
   Both sides go the same way: at any time one of the logs is the beginning of the other, and when both are through with the scan they
   have dealt with the same MCUs.
   */
  lemma SameWay(c: CompressController, d: DecompressController)
    requires c.Valid() && d.Valid() && c.at.f == d.at.f && c.at.comps == d.at.comps
    ensures c.at.log <= d.at.log || d.at.log <= c.at.log
    ensures c.imcuRowNum == c.at.f.TotalImcuRows() && d.inputImcuRow == d.at.f.TotalImcuRows() ==> c.at.log == d.at.log
  {
    hide Grid, RowsIn, NthMcu, Frame.TotalImcuRows, Passed, Walked, Index;
    var a, b := c.at.log, d.at.log;
    WalkedPrefix(c.at.g, |a|, |b|);
    WalkedPrefix(c.at.g, |b|, |a|);
    assert a == Walked(c.at.g, |a|) && b == Walked(c.at.g, |b|);
  }

  lemma WalkedPrefix(g: ScanGrid, n: nat, m: nat)
    requires |g.mcuW| == |g.mcuH| && g.perRow > 0
    ensures n <= m ==> Walked(g, n) <= Walked(g, m)
  {
    hide NthMcu;
  }

  // ----- What the walk covers -----

  predicate Unique(s: seq<Visit>) { forall i, j :: 0 <= i < j < |s| ==> s[i] != s[j] }

  lemma UniqueJoin(a: seq<Visit>, b: seq<Visit>)
    requires Unique(a) && Unique(b) && forall i, j :: 0 <= i < |a| && 0 <= j < |b| ==> a[i] != b[j]
    ensures Unique(a + b)
  {
  }

  /** The blocks of one component in an MCU: exactly those of a rectangle, each once. */
  lemma {:induction false} CompCovers(ci: nat, row: nat, col: nat, w: nat, h: nat)
    ensures Unique(CompVisits(ci, row, col, w, h))
    ensures forall e :: e in CompVisits(ci, row, col, w, h) <==> e.ci == ci && row <= e.row < row + h && col <= e.col < col + w
    decreases h
  {
    if h > 0 {
      CompCovers(ci, row, col, w, h - 1);
      var a, b := CompVisits(ci, row, col, w, h - 1), RowVisits(ci, row + h - 1, col, w);
      RowCovers(ci, row + h - 1, col, w);
      forall i, j | 0 <= i < |a| && 0 <= j < |b| ensures a[i] != b[j] { assert a[i] in a && b[j] in b; }
      UniqueJoin(a, b);
    }
  }

  lemma RowCovers(ci: nat, row: nat, col: nat, w: nat)
    ensures Unique(RowVisits(ci, row, col, w))
    ensures forall e :: e in RowVisits(ci, row, col, w) <==> e.ci == ci && e.row == row && col <= e.col < col + w
  {
    var s := RowVisits(ci, row, col, w);
    forall e: Visit | e.ci == ci && e.row == row && col <= e.col < col + w ensures e in s { assert s[e.col - col] == e; }
  }

  /** The rectangle of an MCU in one component. */
  predicate InMcu(g: ScanGrid, r: nat, c: nat, e: Visit)
    requires |g.mcuW| == |g.mcuH|
  {
    && e.ci < |g.mcuW|
    && r * g.mcuH[e.ci] <= e.row < r * g.mcuH[e.ci] + g.mcuH[e.ci]
    && c * g.mcuW[e.ci] <= e.col < c * g.mcuW[e.ci] + g.mcuW[e.ci]
  }

  /** The blocks of an MCU: exactly those of its rectangles, each once. */
  lemma {:induction false} McuCovers(g: ScanGrid, r: nat, c: nat, n: nat)
    requires n <= |g.mcuW| == |g.mcuH|
    ensures Unique(McuVisits(g, r, c, n))
    ensures forall e :: e in McuVisits(g, r, c, n) <==> e.ci < n && InMcu(g, r, c, e)
    decreases n
  {
    if n > 0 {
      McuCovers(g, r, c, n - 1);
      MulNonNeg(r, g.mcuH[n - 1]);
      MulNonNeg(c, g.mcuW[n - 1]);
      var a, b := McuVisits(g, r, c, n - 1), CompVisits(n - 1, r * g.mcuH[n - 1], c * g.mcuW[n - 1], g.mcuW[n - 1], g.mcuH[n - 1]);
      CompCovers(n - 1, r * g.mcuH[n - 1], c * g.mcuW[n - 1], g.mcuW[n - 1], g.mcuH[n - 1]);
      forall i, j | 0 <= i < |a| && 0 <= j < |b| ensures a[i] != b[j] { assert a[i] in a && b[j] in b; }
      UniqueJoin(a, b);
    }
  }

  /** A rectangle belongs to one MCU only. */
  lemma OneMcu(g: ScanGrid, r: nat, c: nat, r': nat, c': nat, e: Visit)
    requires |g.mcuW| == |g.mcuH| && InMcu(g, r, c, e) && InMcu(g, r', c', e)
    ensures r == r' && c == c'
  {
    var w, h := g.mcuW[e.ci], g.mcuH[e.ci];
    DivModUnique(r, e.row - r * h, h, e.row);
    DivModUnique(r', e.row - r' * h, h, e.row);
    DivModUnique(c, e.col - c * w, w, e.col);
    DivModUnique(c', e.col - c' * w, w, e.col);
  }

  /** A block of the t-th MCU lies in its rectangle. */
  lemma NthInMcu(g: ScanGrid, t: nat, b: nat)
    requires |g.mcuW| == |g.mcuH| && g.perRow > 0 && b < |NthMcu(g, t)|
    ensures t / g.perRow >= 0 && InMcu(g, t / g.perRow, t % g.perRow, NthMcu(g, t)[b]) && Unique(NthMcu(g, t))
  {
    hide McuVisits, InMcu, Unique;
    DivNonNeg(t, g.perRow);
    McuCovers(g, t / g.perRow, t % g.perRow, |g.mcuW|);
    assert NthMcu(g, t)[b] in NthMcu(g, t);
  }

  /** No block is met twice. */
  lemma MetOnce(g: ScanGrid, t: nat, b: nat, t': nat, b': nat)
    requires |g.mcuW| == |g.mcuH| && g.perRow > 0 && b < |NthMcu(g, t)| && b' < |NthMcu(g, t')| && (t, b) != (t', b')
    ensures NthMcu(g, t)[b] != NthMcu(g, t')[b']
  {
    hide NthMcu, InMcu;
    NthInMcu(g, t, b);
    NthInMcu(g, t', b');
    if NthMcu(g, t)[b] == NthMcu(g, t')[b'] {
      OneMcu(g, t / g.perRow, t % g.perRow, t' / g.perRow, t' % g.perRow, NthMcu(g, t)[b]);
      SameNumber(t, t', g.perRow);
    }
  }

  lemma SameNumber(t: nat, t': nat, p: nat)
    requires p > 0 && t / p == t' / p && t % p == t' % p
    ensures t == t'
  {
  }

  /** Every block within the MCU grid is met. */
  lemma Met(g: ScanGrid, e: Visit) returns (t: nat, b: nat)
    requires |g.mcuW| == |g.mcuH| && g.perRow > 0 && e.ci < |g.mcuW| && g.mcuW[e.ci] > 0 && g.mcuH[e.ci] > 0
    requires e.row < g.rows * g.mcuH[e.ci] && e.col < g.perRow * g.mcuW[e.ci]
    ensures t < Index(g, g.rows, 0) && b < |NthMcu(g, t)| && NthMcu(g, t)[b] == e
  {
    var r, c := Quotient(e.row, g.mcuH[e.ci], g.rows), Quotient(e.col, g.mcuW[e.ci], g.perRow);
    assert InMcu(g, r, c, e);
    McuCovers(g, r, c, |g.mcuW|);
    IndexTells(g, r, c);
    t := Index(g, r, c);
    assert e in NthMcu(g, t);
    b :| 0 <= b < |NthMcu(g, t)| && NthMcu(g, t)[b] == e;
    MulBelow(r, g.rows, g.perRow);
  }

  function Quotient(a: nat, d: nat, n: nat): (q: nat)
    requires d > 0 && a < n * d
    ensures q < n && q * d <= a < q * d + d
  {
    DivNonNeg(a, d);
    var q := a / d;
    assert q < n by { if q >= n { MulMono(n, q, d); } }
    q
  }

  // ----- The order within an MCU -----

  /** The blocks of the first `n` components of an MCU. */
  function BlocksBefore(g: ScanGrid, n: nat): (k: nat)
    requires n <= |g.mcuW| == |g.mcuH|
  {
    if n == 0 then 0 else
      MulNonNeg(g.mcuW[n - 1], g.mcuH[n - 1]);
      BlocksBefore(g, n - 1) + g.mcuW[n - 1] * g.mcuH[n - 1]
  }

  lemma {:induction false} CompOrder(ci: nat, row: nat, col: nat, w: nat, h: nat, y: nat, x: nat)
    requires y < h && x < w
    ensures 0 <= y * w + x < |CompVisits(ci, row, col, w, h)| && CompVisits(ci, row, col, w, h)[y * w + x] == Visit(ci, row + y, col + x)
    decreases h
  {
    hide RowVisits;
    MulNonNeg(y, w);
    MulDistrib(h - 1, 1, w);
    if y < h - 1 {
      CompOrder(ci, row, col, w, h - 1, y, x);
    } else {
      RowOrder(ci, row + y, col, w, x);
    }
  }

  lemma RowOrder(ci: nat, row: nat, col: nat, w: nat, x: nat)
    requires x < w
    ensures |RowVisits(ci, row, col, w)| == w && RowVisits(ci, row, col, w)[x] == Visit(ci, row, col + x)
  {
  }

  /**
   Section A.2.3 of ITU-T T.81: an MCU has the blocks of one component after the other, of each component from left to right and from
   top to bottom.
   */
  lemma {:induction false} McuOrder(g: ScanGrid, r: nat, c: nat, n: nat, k: nat, y: nat, x: nat)
    requires k < n <= |g.mcuW| == |g.mcuH| && y < g.mcuH[k] && x < g.mcuW[k]
    ensures |McuVisits(g, r, c, n)| == BlocksBefore(g, n)
    ensures var i := BlocksBefore(g, k) + (y * g.mcuW[k] + x);
            0 <= i < |McuVisits(g, r, c, n)| && McuVisits(g, r, c, n)[i] == Visit(k, r * g.mcuH[k] + y, c * g.mcuW[k] + x)
    decreases n
  {
    hide CompVisits;
    MulNonNeg(r, g.mcuH[n - 1]);
    MulNonNeg(c, g.mcuW[n - 1]);
    VisitCount(g, r, c, n);
    VisitCount(g, r, c, n - 1);
    MulNonNeg(y, g.mcuW[k]);
    if k < n - 1 {
      McuOrder(g, r, c, n - 1, k, y, x);
    } else {
      CompOrder(k, r * g.mcuH[k], c * g.mcuW[k], g.mcuW[k], g.mcuH[k], y, x);
    }
  }

  lemma {:induction false} VisitCount(g: ScanGrid, r: nat, c: nat, n: nat)
    requires n <= |g.mcuW| == |g.mcuH|
    ensures |McuVisits(g, r, c, n)| == BlocksBefore(g, n)
    decreases n
  {
    hide CompVisits;
    if n > 0 {
      MulNonNeg(r, g.mcuH[n - 1]);
      MulNonNeg(c, g.mcuW[n - 1]);
      VisitCount(g, r, c, n - 1);
    }
  }

  // ----- Padding -----

  /** A block of an interleaved scan lies to the right of the image exactly if its MCU is in the last column, beyond last_col_width. */
  lemma PaddingColumns(f: Frame, comps: seq<nat>, g: ScanGrid, t: nat, b: nat)
    requires ForScan(f, comps, g) && |comps| > 1
    ensures |g.mcuW| == |g.mcuH| == |g.lastCol| == |comps| && g.perRow > 0
    ensures b < |NthMcu(g, t)| ==>
              var e, c := NthMcu(g, t)[b], t % g.perRow;
              e.ci < |comps| && (e.col >= f.WidthInBlocks(comps[e.ci]) <==> c == g.perRow - 1 && e.col - c * g.mcuW[e.ci] >= g.lastCol[e.ci])
  {
    hide McuVisits, Frame.WidthInBlocks, Frame.MCUsAcross, Frame.TotalImcuRows, Membership, NthMcu, LastPart;
    GridShape(f, comps, g);
    if b < |NthMcu(g, t)| {
      NthInMcu(g, t, b);
      var e := NthMcu(g, t)[b];
      BlocksInMcus(f, comps[e.ci]);
      BeyondLast(f.WidthInBlocks(comps[e.ci]), g.mcuW[e.ci], g.perRow, t % g.perRow, e.col);
    }
  }

  /** It lies below the image exactly if its MCU is in the last row, beyond last_row_height. */
  lemma PaddingRows(f: Frame, comps: seq<nat>, g: ScanGrid, t: nat, b: nat)
    requires ForScan(f, comps, g) && |comps| > 1
    ensures |g.mcuW| == |g.mcuH| == |g.lastRow| == |comps| && g.perRow > 0 && t / g.perRow >= 0
    ensures t < Index(g, g.rows, 0) && b < |NthMcu(g, t)| ==>
              var e, r := NthMcu(g, t)[b], t / g.perRow;
              e.ci < |comps| && (e.row >= f.HeightInBlocks(comps[e.ci]) <==> r == g.rows - 1 && e.row - r * g.mcuH[e.ci] >= g.lastRow[e.ci])
  {
    hide McuVisits, Frame.HeightInBlocks, Frame.MCUsAcross, Frame.TotalImcuRows, Membership, NthMcu, LastPart, Index;
    GridShape(f, comps, g);
    DivNonNeg(t, g.perRow);
    if t < Index(g, g.rows, 0) && b < |NthMcu(g, t)| {
      RowInGrid(g, t);
      NthInMcu(g, t, b);
      var e := NthMcu(g, t)[b];
      BlocksInMcus(f, comps[e.ci]);
      BeyondLast(f.HeightInBlocks(comps[e.ci]), g.mcuH[e.ci], g.rows, t / g.perRow, e.row);
    }
  }

  lemma RowInGrid(g: ScanGrid, t: nat)
    requires g.perRow > 0 && t < Index(g, g.rows, 0)
    ensures 0 <= t / g.perRow < g.rows
  {
    DivNonNeg(t, g.perRow);
    if t / g.perRow >= g.rows { MulMono(g.rows, t / g.perRow, g.perRow); }
  }

  /** A scan of a single component has no padding. */
  lemma NoPadding(f: Frame, comps: seq<nat>, g: ScanGrid, t: nat, b: nat)
    requires ForScan(f, comps, g) && |comps| == 1
    ensures |g.mcuW| == |g.mcuH| == 1 && g.perRow > 0
    ensures t < Index(g, g.rows, 0) && b < |NthMcu(g, t)| ==>
              var e := NthMcu(g, t)[b];
              e.ci == 0 && e.col < f.WidthInBlocks(comps[0]) && e.row < f.HeightInBlocks(comps[0])
  {
    hide McuVisits, Frame.WidthInBlocks, Frame.HeightInBlocks, Frame.MCUsAcross, Frame.TotalImcuRows, LastRowHeight, NthMcu, Index;
    GridShape(f, comps, g);
    DivNonNeg(t, g.perRow);
    if t < Index(g, g.rows, 0) && b < |NthMcu(g, t)| {
      RowInGrid(g, t);
      NthInMcu(g, t, b);
    }
  }

  /** In one direction: `blocks` blocks fill `n` MCUs of `w` blocks except for the last. */
  lemma BeyondLast(blocks: nat, w: nat, n: nat, c: nat, x: nat)
    requires w > 0 && 0 < n && (n - 1) * w < blocks <= n * w && c < n && c * w <= x < c * w + w
    ensures x >= blocks <==> c == n - 1 && x - c * w >= LastPart(blocks, w)
  {
    LastPartIs(blocks, w, n);
    if c < n - 1 {
      MulMono(c + 1, n - 1, w);
      MulDistrib(c, 1, w);
    }
  }
}
