/**
 The compressor's preprocessing controller when the downsampler needs context rows: a ring of three row groups behind five
 row groups of pointers (`create_context_buffer`, `pre_process_context`).  All components are treated alike; a `Row` stands for
 the row of every component.
 */
module ContextPrep {
  import opened Arith

  type Row = seq<seq<int>>

  /** Row `q` of an image; beyond its edges the first or the last one. */
  function Clamped(image: seq<Row>, q: int): (r: Row)
    requires image != []
  {
    if q < 0 then image[0] else if q < |image| then image[q] else image[|image| - 1]
  }

  /** What the k-th call of the downsampler is to see: its own row group of `v` rows, and the ones above and below. */
  function Window(image: seq<Row>, v: nat, k: nat): (w: seq<Row>)
    requires image != []
    ensures |w| == 3 * v && forall i :: 0 <= i < |w| ==> w[i] == Clamped(image, k * v - v + i)
  {
    seq(3 * v, i requires 0 <= i < 3 * v => Clamped(image, k * v - v + i))
  }

  /** The row of the padded image that place `p` of the ring is for, when `row` places hold rows from `base` on. */
  function RowAt(v: nat, base: nat, row: nat, p: nat): (q: int) { if p < row then base + p else base + p - 3 * v }

  /** The pointer at index `j`, one row group of which are at negative offsets. */
  function Pointer(v: nat, j: nat): (p: nat)
    requires j < 5 * v
    ensures p < 3 * v
  {
    if j < v then 2 * v + j else if j < 4 * v then j - v else j - 4 * v
  }

  /** The ring holds the latest rows of the image, as far as there are any; once padded at the top, `v` copies of the first too. */
  ghost predicate Stored(image: seq<Row>, ring: seq<Row>, v: nat, base: nat, row: nat, padded: bool)
    requires image != []
  {
    && |ring| == 3 * v && row <= 3 * v
    && forall p :: 0 <= p < 3 * v && (RowAt(v, base, row, p) >= 0 || (padded && RowAt(v, base, row, p) >= 0 - v)) ==>
         ring[p] == Clamped(image, RowAt(v, base, row, p))
  }

  /** One more row. */
  lemma StoreNext(image: seq<Row>, ring: seq<Row>, v: nat, base: nat, row: nat, padded: bool)
    requires image != [] && 1 <= v && Stored(image, ring, v, base, row, padded) && row < 3 * v
    ensures Stored(image, ring[row := Clamped(image, base + row)], v, base, row + 1, padded)
  {
  }

  /** The ring is full: it begins again. */
  lemma BeginAgain(image: seq<Row>, ring: seq<Row>, v: nat, base: nat)
    requires image != [] && 1 <= v && Stored(image, ring, v, base, 3 * v, true)
    ensures Stored(image, ring, v, base + 3 * v, 0, true)
  {
    forall p | 0 <= p < 3 * v ensures RowAt(v, base + 3 * v, 0, p) == RowAt(v, base, 3 * v, p) {}
  }

  /** What the downsampler sees from row `group` of the pointers on. */
  ghost function View(ring: seq<Row>, ptrs: seq<nat>, v: nat, group: nat): (w: seq<Row>)
    requires |ptrs| == 5 * v && |ring| == 3 * v && group <= 2 * v && forall j :: 0 <= j < |ptrs| ==> ptrs[j] == Pointer(v, j)
    ensures |w| == 3 * v && forall i :: 0 <= i < |w| ==> w[i] == ring[Pointer(v, group + i)]
  {
    seq(3 * v, i requires 0 <= i < 3 * v => assert ptrs[group + i] == Pointer(v, group + i); ring[ptrs[group + i]])
  }

  /** The row group to be processed starts two row groups before the place where the ring stops being filled. */
  function GroupFor(v: nat, stop: nat): (g: nat)
    requires v <= stop
  {
    if stop >= 2 * v then stop - 2 * v else 2 * v
  }

  predicate Stops(v: nat, stop: nat) { stop == v || stop == 2 * v || stop == 3 * v }

  lemma SeesWindow(image: seq<Row>, ring: seq<Row>, ptrs: seq<nat>, v: nat, base: nat, stop: nat, k: nat)
    requires image != [] && 1 <= v && Stored(image, ring, v, base, stop, true) && Stops(v, stop) && base + stop == k * v + 2 * v
    requires |ptrs| == 5 * v && forall j :: 0 <= j < |ptrs| ==> ptrs[j] == Pointer(v, j)
    ensures GroupFor(v, stop) <= 2 * v && View(ring, ptrs, v, GroupFor(v, stop)) == Window(image, v, k)
  {
    MulNonNeg(k, v);
    var view, window := View(ring, ptrs, v, GroupFor(v, stop)), Window(image, v, k);
    forall i | 0 <= i < 3 * v ensures view[i] == window[i] {
      assert RowAt(v, base, stop, Pointer(v, GroupFor(v, stop) + i)) == k * v - v + i;
    }
  }

  /** The rows of `k` row groups. */
  function HandedOut(k: nat, v: nat): (rows: nat)
    ensures rows == k * v
  {
    MulNonNeg(k, v);
    k * v
  }

  lemma OneMore(k: nat, v: nat)
    ensures HandedOut(k + 1, v) == HandedOut(k, v) + v
  {
    MulDistrib(k, 1, v);
  }

  class PrepController {
    const v: nat                        // max_v_samp_factor: rows in a row group
    const buffer: array<Row>            // three row groups
    const colorBuf: array<nat>          // pointers to its rows, the first row group of them at negative offsets
    ghost const image: seq<Row>         // the rows of the image after colour conversion
    const height: nat                   // image_height
    var rowsToGo: nat
    var nextBufRow: nat
    var thisRowGroup: nat
    var nextBufStop: nat
    ghost var base: nat                 // row of the padded image that place 0 of the ring is for
    ghost var seen: seq<seq<Row>>       // what each call of the downsampler saw

    ghost predicate Shape()
      reads colorBuf
    {
      && 1 <= v && |image| == height > 0 && buffer.Length == 3 * v && colorBuf.Length == 5 * v
      && forall j :: 0 <= j < 5 * v ==> colorBuf[j] == Pointer(v, j)
    }

    /** The counters agree with the number of row groups handed out. */
    ghost predicate Counts()
      reads this
    {
      && Stops(v, nextBufStop) && thisRowGroup == GroupFor(v, nextBufStop)
      && base + nextBufStop == HandedOut(|seen|, v) + 2 * v && nextBufRow <= nextBufStop
      && (nextBufStop <= nextBufRow + v || (base == 0 && nextBufStop == 2 * v && seen == []))
      && rowsToGo <= height && (if rowsToGo > 0 then base + nextBufRow == height - rowsToGo else base + nextBufRow >= height)
    }

    /** So far every call of the downsampler saw its window of the image. */
    ghost predicate Right()
      requires image != []
      reads this`seen
    {
      forall k :: 0 <= k < |seen| ==> seen[k] == Window(image, v, k)
    }

    ghost predicate Valid()
      reads this, colorBuf, buffer
    {
      Shape() && Counts() && Right() && nextBufRow < nextBufStop && Stored(image, buffer[..], v, base, nextBufRow, rowsToGo < height)
    }

    /** `create_context_buffer` and `start_pass_prep`. */
    constructor (v: nat, height: nat, ghost image: seq<Row>)
      requires 1 <= v && |image| == height > 0
      ensures Valid() && this.v == v && this.height == height && this.image == image && seen == [] && rowsToGo == height
      ensures fresh(buffer) && fresh(colorBuf)
    {
      this.v, this.height, this.image := v, height, image;
      var trueBuffer := new Row[3 * v](i => []);
      var fake := new nat[5 * v](i => 0);
      var i := 0;
      while i < 3 * v
        invariant 0 <= i <= 3 * v && forall j :: v <= j < v + i ==> fake[j] == Pointer(v, j)
      {
        fake[v + i] := i;
        i := i + 1;
      }
      i := 0;
      while i < v
        invariant 0 <= i <= v && forall j :: v <= j < 4 * v ==> fake[j] == Pointer(v, j)
        invariant forall j :: 0 <= j < i ==> fake[j] == Pointer(v, j)
        invariant forall j :: 4 * v <= j < 4 * v + i ==> fake[j] == Pointer(v, j)
      {
        fake[i] := 2 * v + i;
        fake[4 * v + i] := i;
        i := i + 1;
      }
      buffer, colorBuf := trueBuffer, fake;
      rowsToGo, nextBufRow, thisRowGroup, nextBufStop := height, 0, 0, 2 * v;
      base, seen := 0, [];
    }

    /** Stores the next row. */
    method Store(r: Row, row: nat, ghost padded: bool)
      requires Shape() && row < 3 * v && r == Clamped(image, base + row) && Stored(image, buffer[..], v, base, row, padded)
      modifies buffer
      ensures Stored(image, buffer[..], v, base, row + 1, padded)
    {
      hide Clamped;
      ghost var was := buffer[..];
      StoreNext(image, was, v, base, row, padded);
      buffer[colorBuf[v + row]] := r;
      assert buffer[..] == was[row := r];
    }

    /** The copies of the first row above it. */
    method PadTop(row: nat)
      requires Shape() && base == 0 && 1 <= row <= 2 * v && Stored(image, buffer[..], v, 0, row, false)
      modifies buffer
      ensures Stored(image, buffer[..], v, 0, row, true)
    {
      var up := 1;
      while up <= v
        invariant 1 <= up <= v + 1
        invariant forall p :: 0 <= p < row ==> buffer[p] == Clamped(image, p)
        invariant forall p :: 3 * v - up < p < 3 * v ==> buffer[p] == Clamped(image, 0)
      {
        assert colorBuf[v - up] == 3 * v - up;
        buffer[colorBuf[v - up]] := buffer[colorBuf[v]];
        up := up + 1;
      }
    }

    /** The rows of the input from `ctr` on are the next ones of the image. */
    ghost predicate Continues(input: seq<Row>, ctr: nat)
      reads this`rowsToGo
    {
      && ctr <= |input| && |input| - ctr <= rowsToGo <= height == |image|
      && forall i :: ctr <= i < |input| ==> input[i] == image[height - rowsToGo + (i - ctr)]
    }

    /** Converts `numrows` rows of the input into the ring. */
    method ColorConvert(input: seq<Row>, ctr: nat, numrows: nat)
      requires Shape() && Continues(input, ctr) && ctr + numrows <= |input| && nextBufRow + numrows <= 3 * v && rowsToGo > 0
      requires base + nextBufRow == height - rowsToGo && Stored(image, buffer[..], v, base, nextBufRow, rowsToGo < height)
      modifies buffer
      ensures Stored(image, buffer[..], v, base, nextBufRow + numrows, rowsToGo < height)
    {
      var i := 0;
      while i < numrows
        invariant 0 <= i <= numrows && Stored(image, buffer[..], v, base, nextBufRow + i, rowsToGo < height)
      {
        Store(input[ctr + i], nextBufRow + i, rowsToGo < height);
        i := i + 1;
      }
    }

    /** `expand_bottom_edge`: repeats the last row until the ring is filled as far as it is to be. */
    method ExpandBottomEdge()
      requires Shape() && Counts() && rowsToGo == 0 && Stored(image, buffer[..], v, base, nextBufRow, true)
      modifies buffer
      ensures Stored(image, buffer[..], v, base, nextBufStop, true)
    {
      hide Stored, Clamped;
      var row := nextBufRow;
      while row < nextBufStop
        invariant nextBufRow <= row <= nextBufStop && Stored(image, buffer[..], v, base, row, true)
      {
        LastRow(row);
        Store(buffer[colorBuf[v + row - 1]], row, true);
        row := row + 1;
      }
    }

    /** The row before the next one of the padded image is the last one of the image. */
    lemma LastRow(row: nat)
      requires Shape() && row < 3 * v && Stored(image, buffer[..], v, base, row, true) && base + row >= height
      ensures buffer[colorBuf[v + row - 1]] == Clamped(image, base + row)
    {
      var p := Pointer(v, v + row - 1);
      assert RowAt(v, base, row, p) == base + row - 1;
    }

    /** Hands a row group to the downsampler, and moves on in the ring. */
    method Downsample()
      requires Shape() && Counts() && Right() && nextBufRow == nextBufStop && rowsToGo < height
      requires Stored(image, buffer[..], v, base, nextBufRow, true)
      modifies this`seen, this`thisRowGroup, this`nextBufRow, this`nextBufStop, this`base
      ensures Valid() && |seen| == |old(seen)| + 1 && old(seen) <= seen
    {
      hide Window, View, Stored, HandedOut, Clamped, Pointer;
      SeesWindow(image, buffer[..], colorBuf[..], v, base, nextBufStop, |seen|);
      ghost var k := |seen|;
      seen := seen + [View(buffer[..], colorBuf[..], v, thisRowGroup)];
      OneMore(k, v);
      thisRowGroup := thisRowGroup + v;
      if thisRowGroup >= 3 * v { thisRowGroup := 0; }
      if nextBufRow >= 3 * v {
        BeginAgain(image, buffer[..], v, base);
        nextBufRow, base := 0, base + 3 * v;
      }
      nextBufStop := nextBufRow + v;
    }

    /** At the bottom of the image the ring is filled up. */
    method PadBottom()
      requires Valid() && rowsToGo == 0
      modifies this`nextBufRow, buffer
      ensures Shape() && Counts() && Right() && Stored(image, buffer[..], v, base, nextBufRow, true) && nextBufRow == nextBufStop
    {
      if nextBufRow < nextBufStop {
        ExpandBottomEdge();
        nextBufRow := nextBufStop;
      }
    }

    /** Takes rows from the input: as many as the ring has room for. */
    method TakeInput(input: seq<Row>, ctr: nat) returns (ctr': nat)
      requires Valid() && Continues(input, ctr) && ctr < |input|
      modifies this`nextBufRow, this`rowsToGo, buffer
      ensures Shape() && Counts() && Right() && rowsToGo < height && Stored(image, buffer[..], v, base, nextBufRow, true)
      ensures ctr < ctr' <= |input| && Continues(input, ctr') && seen == old(seen)
      ensures (nextBufRow < nextBufStop ==> ctr' == |input|) && rowsToGo == old(rowsToGo) - (ctr' - ctr)
    {
      hide Stored, Clamped, HandedOut;
      var inrows := |input| - ctr;
      var numrows := nextBufStop - nextBufRow;
      if inrows < numrows { numrows := inrows; }
      ColorConvert(input, ctr, numrows);
      if rowsToGo == height { PadTop(nextBufRow + numrows); }
      ctr', nextBufRow, rowsToGo := ctr + numrows, nextBufRow + numrows, rowsToGo - numrows;
    }

    lemma InputWithin(input: seq<Row>, ctr: nat)
      requires Continues(input, ctr)
      ensures ctr <= |input|
    {
    }

    lemma HasShape()
      requires Valid()
      ensures rowsToGo <= height && 0 < height
    {
    }

    lemma NotFull()
      requires Shape() && Counts() && Right() && Stored(image, buffer[..], v, base, nextBufRow, rowsToGo < height)
      requires nextBufRow != nextBufStop
      ensures Valid()
    {
    }

    /**
     `pre_process_context`.  The input may come in portions of any size; `wanted` is how many row groups are asked for.  Every
     call of the downsampler sees, in its own row group and those above and below, the rows of the image, clamped at its edges.
     */
    method PreProcess(input: seq<Row>, inRowCtr: nat, outRowGroupCtr: nat, outRowGroupsAvail: nat)
      returns (inRowCtr': nat, outRowGroupCtr': nat)
      requires Valid() && Continues(input, inRowCtr) && outRowGroupCtr <= outRowGroupsAvail
      modifies this`nextBufRow, this`rowsToGo, this`seen, this`thisRowGroup, this`nextBufStop, this`base, buffer
      ensures Valid() && old(seen) <= seen && |seen| - |old(seen)| == outRowGroupCtr' - outRowGroupCtr
      ensures inRowCtr <= inRowCtr' <= |input| && outRowGroupCtr <= outRowGroupCtr' <= outRowGroupsAvail
      ensures rowsToGo == old(rowsToGo) - (inRowCtr' - inRowCtr) && Continues(input, inRowCtr')
      ensures outRowGroupCtr' == outRowGroupsAvail || (inRowCtr' == |input| && rowsToGo != 0)
    {
      hide Shape, Counts, Right, Stored, Continues, Valid;
      InputWithin(input, inRowCtr);
      inRowCtr', outRowGroupCtr' := inRowCtr, outRowGroupCtr;
      while outRowGroupCtr' < outRowGroupsAvail
        invariant Valid() && old(seen) <= seen && |seen| - |old(seen)| == outRowGroupCtr' - outRowGroupCtr
        invariant inRowCtr <= inRowCtr' <= |input| && outRowGroupCtr <= outRowGroupCtr' <= outRowGroupsAvail
        invariant Continues(input, inRowCtr') && rowsToGo == old(rowsToGo) - (inRowCtr' - inRowCtr)
        decreases outRowGroupsAvail - outRowGroupCtr', |input| - inRowCtr'
      {
        HasShape();
        if inRowCtr' < |input| {
          inRowCtr' := TakeInput(input, inRowCtr');
        } else {
          if rowsToGo != 0 { break; }
          PadBottom();
        }
        if nextBufRow == nextBufStop {
          Downsample();
          outRowGroupCtr' := outRowGroupCtr' + 1;
        } else {
          NotFull();
        }
      }
    }
  }
}
