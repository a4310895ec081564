/**
 The "funny" pointer lists of the decompressor's main controller, for one component: two lists over a workspace of M+2 row
 groups, in which the last two row groups of one iMCU row survive the reading of the next.
 */
module FunnyPointers {
  import opened Arith

  /** A row of samples. */
  type Row = seq<int>

  /**
   One component: rows in a row group (`rg`) and in an iMCU row (`ih` = M * rg, M at least 2), the number of real rows, and
   all rows that will be delivered, padding included.
   */
  datatype Comp = Comp(rg: nat, ih: nat, height: nat, rows: seq<Row>) {
    ghost predicate Valid(n: nat) {
      && 1 <= rg && 2 * rg <= ih && 1 <= n && |rows| == n * ih && (n - 1) * ih < height <= n * ih
    }

    /** Row `q` of the image; beyond its edges the first or the last one. */
    function Clamped(q: int): (v: Row)
      requires 0 < height <= |rows|
    {
      if q < 0 then rows[0] else if q < height then rows[q] else rows[height - 1]
    }

    /** A row group and the row before and after it, as the upsampler must see them; `o` is its first row. */
    ghost function Expected(o: nat): (v: seq<Row>)
      requires 0 < height <= |rows|
      ensures |v| == rg + 2 && forall t :: 0 <= t < |v| ==> v[t] == Clamped(o + t - 1)
    {
      seq(rg + 2, t requires 0 <= t < rg + 2 => Clamped(o + t - 1))
    }
  }

  /** Where position `j` of a list points in its normal state: the second list swaps the last four row groups. */
  function Phys(which: nat, c: Comp, j: nat): (p: nat)
    requires 2 * c.rg <= c.ih && j < c.ih + 2 * c.rg
    ensures p < c.ih + 2 * c.rg
  {
    if which == 0 || j < c.ih - 2 * c.rg then j
    else if j < c.ih then j + 2 * c.rg
    else j - 2 * c.rg
  }

  /** A list has one row group before position 0, which is found at index `rg`. */
  ghost predicate IsList(which: nat, c: Comp, x: seq<nat>) {
    && 2 * c.rg <= c.ih && |x| == c.ih + 4 * c.rg
    && forall q :: c.rg <= q < c.ih + 3 * c.rg ==> x[q] == Phys(which, c, q - c.rg)
  }

  /** The rows above the list: the first row while the first iMCU row is processed, then the last one of the row before. */
  ghost predicate Above(which: nat, c: Comp, x: seq<nat>, k: nat)
    requires 2 * c.rg <= c.ih && |x| == c.ih + 4 * c.rg
  {
    forall q :: 0 <= q < c.rg ==> x[q] == if k == 0 then Phys(which, c, 0) else Phys(which, c, c.ih + c.rg + q)
  }

  /** The pointers before and after wrap around. */
  ghost predicate Wrapped(which: nat, c: Comp, x: seq<nat>) {
    && IsList(which, c, x)
    && (forall q :: 0 <= q < c.rg ==> x[q] == Phys(which, c, c.ih + c.rg + q))
    && (forall q :: c.ih + 3 * c.rg <= q < c.ih + 4 * c.rg ==> x[q] == Phys(which, c, q - (c.ih + 3 * c.rg)))
  }

  /** From position `left` on, two row groups of pointers duplicate the one before. */
  ghost predicate AtBottom(which: nat, c: Comp, x: seq<nat>, left: nat) {
    && 2 * c.rg <= c.ih && |x| == c.ih + 4 * c.rg && 1 <= left <= c.ih
    && (forall q :: c.rg <= q < c.ih + 3 * c.rg ==>
          x[q] == if c.rg + left <= q < c.rg + left + 2 * c.rg then Phys(which, c, left - 1) else Phys(which, c, q - c.rg))
  }

  /** The row that position `j` shows while iMCU row `k` is in the workspace: behind it the last two row groups before it. */
  function RowOf(c: Comp, k: nat, j: nat): (r: int) { if j < c.ih then k * c.ih + j else k * c.ih - 2 * c.rg + (j - c.ih) }

  ghost predicate Holds(which: nat, c: Comp, buf: seq<Row>, k: nat) {
    && 2 * c.rg <= c.ih && |buf| == c.ih + 2 * c.rg
    && forall j :: 0 <= j < c.ih + 2 * c.rg && (j < c.ih || k > 0) ==>
         0 <= RowOf(c, k, j) < |c.rows| && (RowOf(c, k, j) < c.height ==> buf[Phys(which, c, j)] == c.rows[RowOf(c, k, j)])
  }

  /** The pointers of the row group that starts at position `o`, and of the rows next to it, lead into the workspace. */
  ghost predicate Points(c: Comp, x: seq<nat>, size: nat, o: nat) {
    && 1 <= c.rg && |x| == c.ih + 4 * c.rg && o + c.rg < c.ih + 3 * c.rg
    && forall q :: c.rg + o - 1 <= q < c.rg + o + c.rg + 1 ==> x[q] < size
  }

  /** The rows there. */
  ghost function View(c: Comp, x: seq<nat>, buf: seq<Row>, o: nat): (v: seq<Row>)
    requires Points(c, x, |buf|, o)
    ensures |v| == c.rg + 2 && forall t :: 0 <= t < |v| ==> v[t] == buf[x[c.rg + o + t - 1]]
  {
    seq(c.rg + 2, t requires 0 <= t < c.rg + 2 => buf[x[c.rg + o + t - 1]])
  }

  // ----- Setting the pointers -----

  /** Copies the workspace pointers as they are. */
  method CopyPointers(c: Comp, x0: array<nat>, x1: array<nat>)
    requires 1 <= c.rg && 2 * c.rg <= c.ih && x0.Length == x1.Length == c.ih + 4 * c.rg && x0 != x1
    modifies x0, x1
    ensures forall q :: c.rg <= q < c.ih + 3 * c.rg ==> x0[q] == q - c.rg && x1[q] == q - c.rg
  {
    var rg := c.rg;
    var i := 0;
    while i < c.ih + 2 * rg
      invariant 0 <= i <= c.ih + 2 * rg
      invariant forall q :: rg <= q < rg + i ==> x0[q] == q - rg && x1[q] == q - rg
    {
      x0[rg + i], x1[rg + i] := i, i;
      i := i + 1;
    }
  }

  /** Puts the last four row groups of the second list in swapped order. */
  method SwapLastGroups(c: Comp, x1: array<nat>)
    requires 1 <= c.rg && 2 * c.rg <= c.ih && x1.Length == c.ih + 4 * c.rg
    requires forall q :: c.rg <= q < c.ih + 3 * c.rg ==> x1[q] == q - c.rg
    modifies x1
    ensures IsList(1, c, x1[..])
  {
    var rg, ih := c.rg, c.ih;
    var i := 0;
    while i < 2 * rg
      invariant 0 <= i <= 2 * rg
      invariant forall q :: rg <= q < ih + 3 * rg ==>
                  x1[q] == if ih - rg <= q < ih - rg + i then q + rg
                           else if ih + rg <= q < ih + rg + i then q - 3 * rg else q - rg
    {
      x1[rg + (ih - 2 * rg) + i] := ih + i;
      x1[rg + ih + i] := ih - 2 * rg + i;
      i := i + 1;
    }
  }

  /** `make_funny_pointers` for one component. */
  method MakeFunny(c: Comp, x0: array<nat>, x1: array<nat>)
    requires 1 <= c.rg && 2 * c.rg <= c.ih && x0.Length == x1.Length == c.ih + 4 * c.rg && x0 != x1
    modifies x0, x1
    ensures IsList(0, c, x0[..]) && Above(0, c, x0[..], 0) && IsList(1, c, x1[..])
  {
    CopyPointers(c, x0, x1);
    SwapLastGroups(c, x1);
    ghost var list1 := x1[..];
    var i := 0;
    while i < c.rg
      invariant 0 <= i <= c.rg && x1[..] == list1
      invariant forall q :: c.rg <= q < c.ih + 3 * c.rg ==> x0[q] == q - c.rg
      invariant forall q :: 0 <= q < i ==> x0[q] == 0
    {
      x0[i] := x0[c.rg];
      i := i + 1;
    }
  }

  /** The first `n` pointers at either end wrap around. */
  ghost predicate WrappedSoFar(which: nat, c: Comp, x: seq<nat>, n: nat) {
    && IsList(which, c, x) && n <= c.rg
    && (forall q :: 0 <= q < n ==> x[q] == Phys(which, c, c.ih + c.rg + q))
    && (forall q :: c.ih + 3 * c.rg <= q < c.ih + 3 * c.rg + n ==> x[q] == Phys(which, c, q - (c.ih + 3 * c.rg)))
  }

  lemma WrapOne(which: nat, c: Comp, x: seq<nat>, i: nat)
    requires WrappedSoFar(which, c, x, i) && i < c.rg
    ensures var a, b := x[c.rg + (c.ih + c.rg) + i], x[c.rg + i];
            WrappedSoFar(which, c, x[i := a][c.rg + (c.ih + 2 * c.rg) + i := b], i + 1)
  {
    hide Phys;
  }

  /** `set_wraparound_pointers` for one component.  It is also called, to no purpose, when there is only one iMCU row. */
  method SetWraparound(c: Comp, x0: array<nat>, x1: array<nat>)
    requires 1 <= c.rg && 2 * c.rg <= c.ih && x0.Length == x1.Length == c.ih + 4 * c.rg && x0 != x1
    modifies x0, x1
    ensures old(IsList(0, c, x0[..]) && IsList(1, c, x1[..])) ==> Wrapped(0, c, x0[..]) && Wrapped(1, c, x1[..])
  {
    hide WrappedSoFar, IsList, Wrapped;
    var rg, ih := c.rg, c.ih;
    ghost var normal := IsList(0, c, x0[..]) && IsList(1, c, x1[..]);
    var i := 0;
    if normal {
      NothingWrapped(0, c, x0[..]);
      NothingWrapped(1, c, x1[..]);
    }
    while i < rg
      invariant 0 <= i <= rg
      invariant normal ==> WrappedSoFar(0, c, x0[..], i) && WrappedSoFar(1, c, x1[..], i)
    {
      ghost var was0, was1 := x0[..], x1[..];
      if normal {
        WrapOne(0, c, was0, i);
        WrapOne(1, c, was1, i);
      }
      x0[i] := x0[rg + (ih + rg) + i];
      x1[i] := x1[rg + (ih + rg) + i];
      x0[rg + (ih + 2 * rg) + i] := x0[rg + i];
      x1[rg + (ih + 2 * rg) + i] := x1[rg + i];
      assert x0[..] == was0[i := was0[rg + (ih + rg) + i]][rg + (ih + 2 * rg) + i := was0[rg + i]];
      assert x1[..] == was1[i := was1[rg + (ih + rg) + i]][rg + (ih + 2 * rg) + i := was1[rg + i]];
      i := i + 1;
    }
    if normal {
      AllWrapped(0, c, x0[..]);
      AllWrapped(1, c, x1[..]);
    }
  }

  lemma NothingWrapped(which: nat, c: Comp, x: seq<nat>)
    requires IsList(which, c, x)
    ensures WrappedSoFar(which, c, x, 0) && 2 * c.rg <= c.ih && |x| == c.ih + 4 * c.rg
  {
  }

  lemma AllWrapped(which: nat, c: Comp, x: seq<nat>)
    requires WrappedSoFar(which, c, x, c.rg)
    ensures Wrapped(which, c, x)
  {
    hide Phys;
  }

  /** `set_bottom_pointers` for one component: the last real row is repeated; the rows before it keep their pointers. */
  method SetBottom(which: nat, c: Comp, x: array<nat>, left: nat)
    requires 1 <= c.rg && IsList(which, c, x[..]) && 1 <= left <= c.ih
    modifies x
    ensures AtBottom(which, c, x[..], left)
    ensures x[..c.rg] == old(x[..c.rg])
  {
    hide Phys;
    var rg := c.rg;
    var i := 0;
    while i < 2 * rg
      invariant 0 <= i <= 2 * rg
      invariant forall q :: rg <= q < c.ih + 3 * rg ==>
                  x[q] == if rg + left <= q < rg + left + i then Phys(which, c, left - 1) else Phys(which, c, q - rg)
      invariant x[..rg] == old(x[..rg])
    {
      x[rg + left + i] := x[rg + left - 1];
      i := i + 1;
    }
  }

  /** Rows left in the last iMCU row, as `set_bottom_pointers` counts them. */
  function RowsLeft(c: Comp): (left: nat)
    requires 0 < c.ih
    ensures 1 <= left <= c.ih
  {
    if c.height % c.ih == 0 then c.ih else c.height % c.ih
  }

  lemma RowsLeftIs(c: Comp, n: nat)
    requires c.Valid(n)
    ensures c.height == (n - 1) * c.ih + RowsLeft(c)
  {
    MulDistrib(n - 1, 1, c.ih);
    var r := c.height - (n - 1) * c.ih;
    if r < c.ih { DivModUnique(n - 1, r, c.ih, c.height); } else { DivModUnique(n, 0, c.ih, c.height); }
  }

  // ----- Reading an iMCU row -----

  /** The last two row groups as one list sees them are the spare ones of the other. */
  lemma PhysSpare(c: Comp, which: nat, j: nat)
    requires 2 * c.rg <= c.ih <= j < c.ih + 2 * c.rg && which < 2
    ensures Phys(which, c, j) == Phys(1 - which, c, j - 2 * c.rg)
  {
  }

  /** All rows of iMCU row `k` that belong to the image are among its first `written` rows. */
  predicate Enough(c: Comp, k: nat, written: nat) { written <= c.ih && (written == c.ih || k * c.ih + written >= c.height) }

  /**
   What the coefficient controller does with the list it is given.  Of the last iMCU row it may leave out rows that are only padding;
   they stay as they were.
   */
  method Receive(which: nat, c: Comp, x: array<nat>, buf: array<Row>, k: nat, written: nat)
    requires 1 <= c.rg && IsList(which, c, x[..]) && buf.Length == c.ih + 2 * c.rg && k * c.ih + c.ih <= |c.rows|
    requires which < 2 && (k > 0 ==> Holds(1 - which, c, buf[..], k - 1)) && Enough(c, k, written)
    modifies buf
    ensures Holds(which, c, buf[..], k)
  {
    MulNonNeg(k, c.ih);
    ghost var was := buf[..];
    var j := 0;
    while j < written
      invariant 0 <= j <= written
      invariant forall i :: 0 <= i < c.ih + 2 * c.rg ==>
                  buf[Phys(which, c, i)] == if i < j then c.rows[k * c.ih + i] else was[Phys(which, c, i)]
    {
      assert x[c.rg + j] == Phys(which, c, j);
      buf[x[c.rg + j]] := c.rows[k * c.ih + j];
      j := j + 1;
    }
    ReceivedHolds(which, c, was, buf[..], k, written);
  }

  /** The row groups kept from the iMCU row before are found where the other list expects them. */
  lemma ReceivedHolds(which: nat, c: Comp, was: seq<Row>, buf: seq<Row>, k: nat, written: nat)
    requires 2 * c.rg <= c.ih && |was| == |buf| == c.ih + 2 * c.rg && 0 <= k * c.ih && k * c.ih + c.ih <= |c.rows|
    requires Enough(c, k, written)
    requires forall i :: 0 <= i < c.ih + 2 * c.rg ==>
               buf[Phys(which, c, i)] == if i < written then c.rows[k * c.ih + i] else was[Phys(which, c, i)]
    requires k > 0 ==> which < 2 && Holds(1 - which, c, was, k - 1)
    ensures Holds(which, c, buf, k)
  {
    hide Phys;
    forall j | 0 <= j < c.ih + 2 * c.rg && (j < c.ih || k > 0)
      ensures 0 <= RowOf(c, k, j) < |c.rows|
      ensures RowOf(c, k, j) < c.height ==> buf[Phys(which, c, j)] == c.rows[RowOf(c, k, j)]
    {
      if j >= c.ih {
        MulDistrib(k - 1, 1, c.ih);
        PhysSpare(c, which, j);
        assert RowOf(c, k - 1, j - 2 * c.rg) == RowOf(c, k, j);
      }
    }
  }

  // ----- What the postprocessor sees -----

  /** Both lists as `make_funny_pointers` leaves them. */
  ghost predicate Funny(c: Comp, x0: seq<nat>, x1: seq<nat>) { IsList(0, c, x0) && Above(0, c, x0, 0) && IsList(1, c, x1) }

  /** A list in order, with the right rows above iMCU row `k`. */
  ghost predicate InOrder(which: nat, c: Comp, x: seq<nat>, k: nat) { IsList(which, c, x) && Above(which, c, x, k) }

  /** A list prepared for the last of `n` iMCU rows. */
  ghost predicate AtEnd(which: nat, c: Comp, x: seq<nat>, n: nat) {
    c.Valid(n) && AtBottom(which, c, x, RowsLeft(c)) && Above(which, c, x, n - 1)
  }

  lemma ReachesEnd(which: nat, c: Comp, was: seq<nat>, x: seq<nat>, n: nat)
    requires c.Valid(n) && InOrder(which, c, was, n - 1) && AtBottom(which, c, x, RowsLeft(c)) && x[..c.rg] == was[..c.rg]
    ensures AtEnd(which, c, x, n)
  {
    hide Phys;
    forall q | 0 <= q < c.rg ensures x[q] == was[q] { assert x[q] == x[..c.rg][q] && was[q] == was[..c.rg][q]; }
  }

  lemma WrappedInOrder(which: nat, c: Comp, x: seq<nat>, k: nat)
    requires Wrapped(which, c, x) && k > 0
    ensures InOrder(which, c, x, k)
  {
    hide Phys;
  }

  lemma RowsBelow(c: Comp, n: nat, k: nat)
    requires c.Valid(n) && k + 1 < n
    ensures k * c.ih + c.ih < c.height <= |c.rows|
  {
    MulMono(k + 1, n - 1, c.ih);
    MulDistrib(k, 1, c.ih);
  }

  /** A row group within an iMCU row that is not the last one. */
  lemma ViewMiddle(which: nat, c: Comp, n: nat, x: seq<nat>, buf: seq<Row>, k: nat, o: nat)
    requires c.Valid(n) && k + 1 < n && IsList(which, c, x) && Holds(which, c, buf, k) && Above(which, c, x, k)
    requires o + 2 * c.rg <= c.ih
    ensures k * c.ih + o >= 0 && Points(c, x, |buf|, o) && View(c, x, buf, o) == c.Expected(k * c.ih + o)
  {
    hide Phys;
    MulNonNeg(k, c.ih);
    RowsBelow(c, n, k);
    if k > 0 { MulMono(1, k, c.ih); }
    var v := View(c, x, buf, o);
    forall t | 0 <= t < c.rg + 2 ensures v[t] == c.Clamped(k * c.ih + o + t - 1) {
      var q := c.rg + o + t - 1;
      if q >= c.rg {
        assert x[q] == Phys(which, c, q - c.rg);
        assert RowOf(c, k, q - c.rg) == k * c.ih + o + t - 1;
      } else if k == 0 {
        assert x[q] == Phys(which, c, 0) && RowOf(c, k, 0) == 0;
      } else {
        assert x[q] == Phys(which, c, c.ih + c.rg + q) && RowOf(c, k, c.ih + c.rg + q) == k * c.ih - 1;
      }
    }
  }

  /** A row group within the last iMCU row, the pointers beyond the last real row set. */
  lemma ViewBottom(which: nat, c: Comp, n: nat, x: seq<nat>, buf: seq<Row>, o: nat)
    requires c.Valid(n) && AtBottom(which, c, x, RowsLeft(c)) && Holds(which, c, buf, n - 1) && Above(which, c, x, n - 1)
    requires o < RowsLeft(c) && o + c.rg <= c.ih
    ensures (n - 1) * c.ih + o >= 0 && Points(c, x, |buf|, o) && View(c, x, buf, o) == c.Expected((n - 1) * c.ih + o)
  {
    hide Phys;
    var k: nat, left := n - 1, RowsLeft(c);
    MulNonNeg(k, c.ih);
    RowsLeftIs(c, n);
    if k > 0 { MulMono(1, k, c.ih); }
    var v := View(c, x, buf, o);
    forall t | 0 <= t < c.rg + 2 ensures v[t] == c.Clamped(k * c.ih + o + t - 1) { BottomRow(which, c, n, x, buf, o, t); }
  }

  lemma BottomRow(which: nat, c: Comp, n: nat, x: seq<nat>, buf: seq<Row>, o: nat, t: nat)
    requires c.Valid(n) && AtBottom(which, c, x, RowsLeft(c)) && Holds(which, c, buf, n - 1) && Above(which, c, x, n - 1)
    requires o < RowsLeft(c) && o + c.rg <= c.ih && t < c.rg + 2 && 0 <= (n - 1) * c.ih
    ensures c.rg + o + t >= 1 && c.rg + o + t - 1 < |x| && x[c.rg + o + t - 1] < |buf|
    ensures buf[x[c.rg + o + t - 1]] == c.Clamped((n - 1) * c.ih + o + t - 1)
  {
    hide Phys;
    var k: nat, left, q := n - 1, RowsLeft(c), c.rg + o + t - 1;
    RowsLeftIs(c, n);
    if q >= c.rg {
      var j := if q < c.rg + left then q - c.rg else left - 1;
      assert x[q] == Phys(which, c, j) && RowOf(c, k, j) == k * c.ih + j;
    } else if k == 0 {
      assert x[q] == Phys(which, c, 0) && RowOf(c, k, 0) == 0;
    } else {
      MulMono(1, k, c.ih);
      assert x[q] == Phys(which, c, c.ih + c.rg + q) && RowOf(c, k, c.ih + c.rg + q) == k * c.ih - 1;
    }
  }

  /** The last row group of the iMCU row before, seen from the list that the next one has been read into. */
  lemma ViewPostponed(which: nat, c: Comp, n: nat, x: seq<nat>, buf: seq<Row>, k: nat)
    requires c.Valid(n) && 0 < k < n && Wrapped(which, c, x) && Holds(which, c, buf, k)
    ensures k * c.ih - c.rg >= 0 && Points(c, x, |buf|, c.ih + c.rg) && View(c, x, buf, c.ih + c.rg) == c.Expected(k * c.ih - c.rg)
  {
    hide Phys;
    MulMono(1, k, c.ih);
    RowsBelow(c, n, k - 1);
    MulDistrib(k - 1, 1, c.ih);
    var v := View(c, x, buf, c.ih + c.rg);
    forall t | 0 <= t < c.rg + 2 ensures v[t] == c.Clamped(k * c.ih - c.rg + t - 1) {
      var q := c.rg + (c.ih + c.rg) + t - 1;
      if t == c.rg + 1 {
        assert x[q] == Phys(which, c, 0) && RowOf(c, k, 0) == k * c.ih;
      } else {
        assert x[q] == Phys(which, c, q - c.rg) && RowOf(c, k, q - c.rg) == k * c.ih - c.rg + t - 1;
      }
    }
  }

  // ----- Row groups by number -----

  /** Row groups of the last iMCU row that are not just padding. */
  function GroupsLeft(c: Comp): (g: nat)
    requires 0 < c.ih && 0 < c.rg
    ensures 0 < g
  {
    DivNonNeg(RowsLeft(c) - 1, c.rg);
    (RowsLeft(c) - 1) / c.rg + 1
  }

  /** Row group `g` of the image. */
  ghost function Group(c: Comp, g: nat): (v: seq<Row>)
    requires 0 < c.height <= |c.rows|
  {
    MulNonNeg(g, c.rg);
    c.Expected(g * c.rg)
  }

  lemma GroupStart(c: Comp, m: nat, k: nat, r: nat)
    requires c.ih == m * c.rg
    ensures (k * m + r) * c.rg == k * c.ih + r * c.rg
  {
    MulDistrib(k * m, r, c.rg);
    MulAssoc(k, m, c.rg);
  }

  ghost predicate Offers(c: Comp, n: nat, x: seq<nat>, buf: seq<Row>, r: nat, g: nat)
    requires c.Valid(n)
  {
    MulNonNeg(r, c.rg);
    Points(c, x, |buf|, r * c.rg) && View(c, x, buf, r * c.rg) == Group(c, g)
  }

  lemma OffersMiddle(which: nat, c: Comp, n: nat, m: nat, x: seq<nat>, buf: seq<Row>, k: nat, r: nat)
    requires c.Valid(n) && c.ih == m * c.rg && k + 1 < n && IsList(which, c, x) && Holds(which, c, buf, k) && Above(which, c, x, k)
    requires r + 2 <= m
    ensures Offers(c, n, x, buf, r, k * m + r)
  {
    hide IsList, Holds, Above, View, Points;
    MulNonNeg(k, m);
    MulNonNeg(r, c.rg);
    MulMono(r + 2, m, c.rg);
    MulDistrib(r, 2, c.rg);
    GroupStart(c, m, k, r);
    ViewMiddle(which, c, n, x, buf, k, r * c.rg);
  }

  lemma BottomPlace(c: Comp, m: nat, r: nat)
    requires 0 < c.rg && 0 < c.ih == m * c.rg && r < GroupsLeft(c)
    ensures 0 <= r * c.rg < RowsLeft(c) && r * c.rg + c.rg <= c.ih
  {
    hide RowsLeft;
    var left := RowsLeft(c);
    var q := (left - 1) / c.rg;
    MulNonNeg(r, c.rg);
    MulMono(r, q, c.rg);
    assert q * c.rg <= left - 1;
    if r + 1 > m { MulMono(m, r, c.rg); }
    MulMono(r + 1, m, c.rg);
    MulDistrib(r, 1, c.rg);
  }

  lemma OffersBottom(which: nat, c: Comp, n: nat, m: nat, x: seq<nat>, buf: seq<Row>, r: nat)
    requires c.Valid(n) && c.ih == m * c.rg && AtBottom(which, c, x, RowsLeft(c)) && Holds(which, c, buf, n - 1)
    requires Above(which, c, x, n - 1) && r < GroupsLeft(c)
    ensures (n - 1) * m >= 0 && Offers(c, n, x, buf, r, (n - 1) * m + r)
  {
    hide AtBottom, Holds, Above, View, Points, GroupsLeft, RowsLeft, Comp.Expected;
    MulNonNeg(n - 1, m);
    MulNonNeg(r, c.rg);
    BottomPlace(c, m, r);
    GroupStart(c, m, n - 1, r);
    ViewBottom(which, c, n, x, buf, r * c.rg);
  }

  lemma OffersPostponed(which: nat, c: Comp, n: nat, m: nat, x: seq<nat>, buf: seq<Row>, k: nat)
    requires c.Valid(n) && c.ih == m * c.rg && 0 < k < n && Wrapped(which, c, x) && Holds(which, c, buf, k) && 2 <= m
    ensures k * m - 1 >= 0 && Offers(c, n, x, buf, m + 1, k * m - 1)
  {
    hide Wrapped, Holds, View, Points;
    MulMono(1, k, m);
    MulDistrib(m, 1, c.rg);
    MulDistrib(k * m, -1, c.rg);
    MulAssoc(k, m, c.rg);
    ViewPostponed(which, c, n, x, buf, k);
  }
}
