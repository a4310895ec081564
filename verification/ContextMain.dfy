/**
 The decompressor's main controller when the upsampler needs context rows: `process_data_context_main` and its state
 machine.  The coefficient controller may have no iMCU row to give, and the postprocessor may take as few row groups at a time
 as it likes.
 */
module ContextMain {
  import opened Arith
  import opened FunnyPointers

  datatype ContextState = PrepareForImcu | ProcessImcu | PostponedRow

  class MainController {
    const comps: seq<Comp>
    const n: nat                        // total_iMCU_rows
    const m: nat                        // min_DCT_scaled_size: row groups in an iMCU row
    const buf: seq<array<Row>>          // the workspace of each component
    const x0: seq<array<nat>>           // xbuffer[0] and xbuffer[1]; a pointer is the number of a workspace row
    const x1: seq<array<nat>>
    var bufferFull: bool
    var rowgroupCtr: nat
    var rowgroupsAvail: nat
    var whichptr: nat
    var contextState: ContextState
    var imcuRowCtr: nat
    ghost var log: seq<seq<seq<Row>>>   // the row groups that the postprocessor has taken, each with its adjacent rows

    ghost predicate Shape() {
      && comps != [] && 2 <= m && 1 <= n && |x0| == |x1| == |buf| == |comps|
      && (forall ci :: 0 <= ci < |comps| ==> Sized(ci))
      && (forall i, j :: 0 <= i < |comps| && 0 <= j < |comps| ==> x0[i] != x1[j])
      && (forall i, j :: 0 <= i < j < |comps| ==> x0[i] != x0[j] && x1[i] != x1[j] && buf[i] != buf[j])
    }

    ghost predicate Sized(ci: nat)
      requires ci < |comps| == |x0| == |x1| == |buf|
    {
      var c := comps[ci];
      && c.Valid(n) && c.ih == m * c.rg && x0[ci].Length == x1[ci].Length == c.ih + 4 * c.rg && buf[ci].Length == c.ih + 2 * c.rg
      && comps[0].Valid(n) && GroupsLeft(c) == GroupsLeft(comps[0])
    }

    ghost predicate Initial()
      requires Shape()
      reads x0, x1
    {
      forall ci :: 0 <= ci < |comps| ==> Funny(comps[ci], x0[ci][..], x1[ci][..])
    }

    ghost predicate Normal()
      requires Shape()
      reads x0, x1
    {
      forall ci :: 0 <= ci < |comps| ==> Wrapped(0, comps[ci], x0[ci][..]) && Wrapped(1, comps[ci], x1[ci][..])
    }

    function List(which: nat, ci: nat): (x: array<nat>)
      requires ci < |x0| == |x1|
    {
      if which == 0 then x0[ci] else x1[ci]
    }

    /** The list `which` is in order, and shows the right rows above iMCU row `k`. */
    ghost predicate Ready(which: nat, k: nat)
      requires Shape()
      reads x0, x1
    {
      forall ci :: 0 <= ci < |comps| ==> InOrder(which, comps[ci], List(which, ci)[..], k)
    }

    ghost predicate Bottom(which: nat)
      requires Shape()
      reads x0, x1
    {
      forall ci :: 0 <= ci < |comps| ==> AtEnd(which, comps[ci], List(which, ci)[..], n)
    }

    ghost predicate Filled(which: nat, k: nat)
      requires Shape()
      reads buf
    {
      forall ci :: 0 <= ci < |comps| ==> Holds(which, comps[ci], buf[ci][..], k)
    }

    /** Row groups of the last iMCU row, and of the image. */
    ghost function LastGroups(): (g: nat)
      requires Shape()
      ensures g > 0
    {
      assert Sized(0);
      GroupsLeft(comps[0])
    }

    ghost function Total(): (t: nat)
      requires Shape()
    {
      MulNonNeg(n - 1, m);
      (n - 1) * m + LastGroups()
    }

    /** Every row group taken so far was the next one of the image, with the image's rows next to it. */
    ghost predicate Delivered()
      requires Shape()
      reads this`log
    {
      forall g :: 0 <= g < |log| ==> DeliveredAt(log[g], g)
    }

    ghost predicate DeliveredAt(views: seq<seq<Row>>, g: nat)
      requires Shape()
    {
      |views| == |comps| && forall ci :: 0 <= ci < |comps| ==> comps[ci].Valid(n) && views[ci] == Group(comps[ci], g)
    }

    /** The lists of pointers while iMCU row `k` is processed, before the bottom of the image is seen to. */
    ghost predicate Pointers(k: nat)
      requires Shape()
      reads this`whichptr, x0, x1
    {
      if k == 0 then whichptr == 0 && Initial() else Normal()
    }

    ghost predicate Stands()
      requires Shape()
      reads this, x0, x1, buf
    {
      && imcuRowCtr <= n && whichptr < 2
      && match contextState
         case PrepareForImcu =>
           if !bufferFull then imcuRowCtr == 0 && Pointers(0) && log == []
           else 1 <= imcuRowCtr && Filled(whichptr, imcuRowCtr - 1) && |log| == (imcuRowCtr - 1) * m && Pointers(imcuRowCtr - 1)
         case ProcessImcu =>
           && bufferFull && 1 <= imcuRowCtr && Filled(whichptr, imcuRowCtr - 1) && rowgroupCtr < rowgroupsAvail
           && |log| == (imcuRowCtr - 1) * m + rowgroupCtr
           && if imcuRowCtr == n then (n - 1) * m + rowgroupsAvail == Total() && Bottom(whichptr)
              else rowgroupsAvail == m - 1 && Pointers(imcuRowCtr - 1)
         case PostponedRow =>
           && rowgroupCtr == m + 1 && rowgroupsAvail == m + 2 && 1 <= imcuRowCtr
           && if bufferFull then
                2 <= imcuRowCtr && Filled(whichptr, imcuRowCtr - 1) && |log| == (imcuRowCtr - 1) * m - 1 && Normal()
              else if imcuRowCtr < n then Filled(1 - whichptr, imcuRowCtr - 1) && |log| == imcuRowCtr * m - 1 && Normal()
              else |log| == Total()
    }

    ghost predicate Valid()
      reads this, x0, x1, buf
    {
      Shape() && Delivered() && Stands()
    }

    // ----- The lists of pointers of all components -----

    method MakeFunnyPointers()
      requires Shape()
      modifies x0, x1
      ensures Initial()
    {
      hide Funny;
      var ci := 0;
      while ci < |comps|
        invariant 0 <= ci <= |comps| && forall i :: 0 <= i < ci ==> Funny(comps[i], x0[i][..], x1[i][..])
      {
        assert Sized(ci);
        MakeFunny(comps[ci], x0[ci], x1[ci]);
        MadeFunny(comps[ci], x0[ci][..], x1[ci][..]);
        ci := ci + 1;
      }
    }

    lemma MadeFunny(c: Comp, x0: seq<nat>, x1: seq<nat>)
      requires IsList(0, c, x0) && Above(0, c, x0, 0) && IsList(1, c, x1)
      ensures Funny(c, x0, x1)
    {
    }

    method SetWraparoundPointers()
      requires Shape()
      modifies x0, x1
      ensures old(Initial()) ==> Normal()
    {
      hide IsList, Above, Wrapped;
      ghost var initial := Initial();
      var ci := 0;
      while ci < |comps|
        invariant 0 <= ci <= |comps|
        invariant initial ==> forall i :: 0 <= i < ci ==> Wrapped(0, comps[i], x0[i][..]) && Wrapped(1, comps[i], x1[i][..])
        invariant initial ==> forall i :: ci <= i < |comps| ==> Funny(comps[i], x0[i][..], x1[i][..])
      {
        assert Sized(ci);
        SetWraparound(comps[ci], x0[ci], x1[ci]);
        ci := ci + 1;
      }
    }

    /** `set_bottom_pointers`. */
    method SetBottomPointers()
      requires Shape() && whichptr < 2 && Ready(whichptr, n - 1)
      modifies x0, x1, this`rowgroupsAvail
      ensures Bottom(whichptr) && rowgroupsAvail == LastGroups()
    {
      hide IsList, Above, AtBottom, RowsLeft, InOrder, AtEnd, GroupsLeft;
      var ci := 0;
      while ci < |comps|
        invariant 0 <= ci <= |comps| && (ci > 0 ==> rowgroupsAvail == LastGroups())
        invariant forall i :: 0 <= i < ci ==> AtEnd(whichptr, comps[i], List(whichptr, i)[..], n)
        invariant forall i :: ci <= i < |comps| ==> InOrder(whichptr, comps[i], List(whichptr, i)[..], n - 1)
      {
        assert Sized(ci);
        var c, x := comps[ci], List(whichptr, ci);
        if ci == 0 { rowgroupsAvail := GroupsLeft(c); }
        ghost var was := x[..];
        OrderIsList(whichptr, c, was, n - 1);
        SetBottom(whichptr, c, x, RowsLeft(c));
        ReachesEnd(whichptr, c, was, x[..], n);
        ci := ci + 1;
      }
    }

    lemma OrderIsList(which: nat, c: Comp, x: seq<nat>, k: nat)
      requires InOrder(which, c, x, k)
      ensures IsList(which, c, x)
    {
    }

    /** The coefficient controller delivers at least the rows of iMCU row `k` that belong to the image. */
    predicate Delivers(k: nat, written: seq<nat>) {
      |written| == |comps| && forall ci :: 0 <= ci < |comps| ==> Enough(comps[ci], k, written[ci])
    }

    /** The coefficient controller reads iMCU row `k` into the list `which`. */
    method DecompressData(which: nat, k: nat, written: seq<nat>)
      requires Shape() && Delivers(k, written) && which < 2 && k < n && (k > 0 ==> Filled(1 - which, k - 1))
      requires forall ci :: 0 <= ci < |comps| ==> IsList(which, comps[ci], List(which, ci)[..])
      modifies buf
      ensures Filled(which, k)
      ensures (old(Initial()) ==> Initial()) && (old(Normal()) ==> Normal())
    {
      hide IsList, Holds, Funny, Wrapped, Enough;
      var ci := 0;
      while ci < |comps|
        invariant 0 <= ci <= |comps|
        invariant forall i :: 0 <= i < ci ==> Holds(which, comps[i], buf[i][..], k)
        invariant forall i :: ci <= i < |comps| ==> buf[i][..] == old(buf[i][..])
        invariant forall i :: 0 <= i < |comps| ==> x0[i][..] == old(x0[i][..]) && x1[i][..] == old(x1[i][..])
      {
        assert Sized(ci);
        RowInside(comps[ci], k);
        Receive(which, comps[ci], List(which, ci), buf[ci], k, written[ci]);
        ci := ci + 1;
      }
    }

    lemma RowInside(c: Comp, k: nat)
      requires c.Valid(n) && k < n
      ensures k * c.ih + c.ih <= |c.rows|
    {
      MulBelow(k, n, c.ih);
    }

    // ----- The postprocessor -----

    /**
     What is passed to the postprocessor: row groups `rowgroupCtr` to `rowgroupsAvail` - 1 of the list are row groups of the
     image, with numbers that exceed theirs by `shift`, and the image's rows are next to them.
     */
    ghost predicate Offering(shift: int)
      requires Shape()
      reads this`whichptr, this`rowgroupCtr, this`rowgroupsAvail, x0, x1, buf
    {
      forall r: nat :: rowgroupCtr <= r < rowgroupsAvail ==> OfferingAt(r, shift)
    }

    ghost predicate OfferingAt(r: nat, shift: int)
      requires Shape()
      reads this`whichptr, x0, x1, buf
    {
      r + shift >= 0 && AllOffer(r, r + shift)
    }

    ghost predicate AllOffer(r: nat, g: nat)
      requires Shape()
      reads this`whichptr, x0, x1, buf
    {
      forall ci :: 0 <= ci < |comps| ==> OffersHere(ci, r, g)
    }

    ghost predicate OffersHere(ci: nat, r: nat, g: nat)
      requires Shape() && ci < |comps|
      reads this`whichptr, x0, x1, buf
    {
      assert Sized(ci);
      Offers(comps[ci], n, List(whichptr, ci)[..], buf[ci][..], r, g)
    }

    /** What is seen of row group `r` in all components. */
    ghost function Seen(r: nat): (views: seq<seq<Row>>)
      requires Shape() && forall ci :: 0 <= ci < |comps| ==> Visible(ci, r)
      reads this, x0, x1, buf
      ensures |views| == |comps|
    {
      seq(|comps|, ci requires 0 <= ci < |comps| && Shape() && Visible(ci, r) reads this, x0, x1, buf => SeenOf(ci, r))
    }

    ghost predicate Visible(ci: nat, r: nat)
      requires Shape() && ci < |comps|
      reads this`whichptr, x0, x1, buf
    {
      assert Sized(ci);
      MulNonNeg(r, comps[ci].rg);
      Points(comps[ci], List(whichptr, ci)[..], |buf[ci][..]|, r * comps[ci].rg)
    }

    ghost function SeenOf(ci: nat, r: nat): (v: seq<Row>)
      requires Shape() && ci < |comps| && Visible(ci, r)
      reads this, x0, x1, buf
    {
      assert Sized(ci);
      MulNonNeg(r, comps[ci].rg);
      View(comps[ci], List(whichptr, ci)[..], buf[ci][..], r * comps[ci].rg)
    }

    /** The postprocessor takes up to `take` row groups, in order. */
    method PostProcess(take: nat, ghost shift: int)
      requires Shape() && Delivered() && Offering(shift) && rowgroupCtr <= rowgroupsAvail && |log| == rowgroupCtr + shift
      modifies this`rowgroupCtr, this`log
      ensures rowgroupCtr == if old(rowgroupCtr) + take <= rowgroupsAvail then old(rowgroupCtr) + take else rowgroupsAvail
      ensures Delivered() && |log| == rowgroupCtr + shift && old(log) <= log
    {
      hide Shape, OfferingAt, DeliveredAt;
      var i := 0;
      while i < take && rowgroupCtr < rowgroupsAvail
        invariant 0 <= i <= take && rowgroupCtr == old(rowgroupCtr) + i <= rowgroupsAvail
        invariant Delivered() && Offering(shift) && |log| == rowgroupCtr + shift && old(log) <= log
        decreases take - i
      {
        assert OfferingAt(rowgroupCtr, shift);
        SeenIsNext(rowgroupCtr, shift);
        log := log + [Seen(rowgroupCtr)];
        rowgroupCtr := rowgroupCtr + 1;
        i := i + 1;
      }
    }

    lemma SeenIsNext(r: nat, shift: int)
      requires Shape() && OfferingAt(r, shift)
      ensures r + shift >= 0 && (forall ci :: 0 <= ci < |comps| ==> Visible(ci, r)) && DeliveredAt(Seen(r), r + shift)
    {
      hide View, Points, Group;
      forall ci | 0 <= ci < |comps|
        ensures comps[ci].Valid(n) && Visible(ci, r) && SeenOf(ci, r) == Group(comps[ci], r + shift)
      {
        assert Sized(ci);
        assert OffersHere(ci, r, r + shift);
      }
    }

    // ----- process_data_context_main -----

    lemma MiddleOffered(k: nat)
      requires Shape() && whichptr < 2 && k + 1 < n && Filled(whichptr, k) && Ready(whichptr, k) && rowgroupsAvail == m - 1
      ensures Offering(k * m)
    {
      hide Holds, IsList, Above, Offers;
      var shift := k * m;
      forall r: nat | rowgroupCtr <= r < rowgroupsAvail ensures OfferingAt(r, shift) {
        MulNonNeg(k, m);
        var g := r + shift;
        forall ci | 0 <= ci < |comps| ensures OffersHere(ci, r, g) {
          assert Sized(ci);
          OffersMiddle(whichptr, comps[ci], n, m, List(whichptr, ci)[..], buf[ci][..], k, r);
        }
      }
    }

    lemma BottomOffered()
      requires Shape() && whichptr < 2 && Filled(whichptr, n - 1) && Bottom(whichptr) && rowgroupsAvail == LastGroups()
      ensures Offering((n - 1) * m)
    {
      hide Holds, AtBottom, Above, Offers, GroupsLeft;
      var shift := (n - 1) * m;
      forall r: nat | rowgroupCtr <= r < rowgroupsAvail ensures OfferingAt(r, shift) {
        MulNonNeg(n - 1, m);
        var g := r + shift;
        forall ci | 0 <= ci < |comps| ensures OffersHere(ci, r, g) {
          assert Sized(ci);
          OffersBottom(whichptr, comps[ci], n, m, List(whichptr, ci)[..], buf[ci][..], r);
        }
      }
    }

    lemma PostponedOffered(k: nat)
      requires Shape() && whichptr < 2 && 0 < k < n && Filled(whichptr, k) && Normal()
      requires rowgroupCtr == m + 1 && rowgroupsAvail == m + 2
      ensures Offering(k * m - 1 - (m + 1))
    {
      hide Holds, Wrapped, Offers;
      var shift := k * m - 1 - (m + 1);
      MulMono(1, k, m);
      forall r: nat | rowgroupCtr <= r < rowgroupsAvail ensures OfferingAt(r, shift) {
        var g: nat := r + shift;
        forall ci | 0 <= ci < |comps| ensures OffersHere(ci, r, g) {
          assert Sized(ci);
          OffersPostponed(whichptr, comps[ci], n, m, List(whichptr, ci)[..], buf[ci][..], k);
        }
      }
    }

    lemma PointersReady(k: nat)
      requires Shape() && whichptr < 2 && Pointers(k)
      ensures Ready(whichptr, k)
    {
      hide IsList, Above;
      forall ci | 0 <= ci < |comps| ensures InOrder(whichptr, comps[ci], List(whichptr, ci)[..], k) {
        if k > 0 { WrappedInOrder(whichptr, comps[ci], List(whichptr, ci)[..], k); }
      }
    }

    lemma NormalLists()
      requires Shape() && Normal() && whichptr < 2
      ensures forall ci :: 0 <= ci < |comps| ==> IsList(whichptr, comps[ci], List(whichptr, ci)[..])
    {
    }

    lemma InitialLists()
      requires Shape() && Initial()
      ensures forall ci :: 0 <= ci < |comps| ==> IsList(0, comps[ci], List(0, ci)[..])
    {
    }

    /** Reads an iMCU row if the buffer is not full; `arrived` tells whether the coefficient controller has one. */
    method ReadInput(arrived: bool, written: seq<nat>) returns (ok: bool)
      requires Valid() && |log| < Total() && (!bufferFull && arrived ==> Delivers(imcuRowCtr, written))
      modifies buf, this`bufferFull, this`imcuRowCtr
      ensures Valid() && ok == (old(bufferFull) || arrived) && (ok ==> bufferFull)
    {
      hide Shape, Holds, Wrapped, Funny, IsList, Delivers;
      ok := true;
      if !bufferFull {
        if !arrived { return false; }
        ListsInOrder();
        DecompressData(whichptr, imcuRowCtr, written);
        bufferFull, imcuRowCtr := true, imcuRowCtr + 1;
      }
    }

    lemma ListsInOrder()
      requires Valid() && !bufferFull && |log| < Total()
      ensures imcuRowCtr < n && |comps| == |x0| == |x1|
      ensures forall ci :: 0 <= ci < |comps| ==> IsList(whichptr, comps[ci], List(whichptr, ci)[..])
    {
      hide Holds;
      if contextState.PostponedRow? { NormalLists(); } else { InitialLists(); }
    }

    /** The postponed row group of the iMCU row before. */
    method FeedPostponed(take: nat)
      requires Valid() && contextState.PostponedRow? && bufferFull
      modifies this`rowgroupCtr, this`log, this`contextState
      ensures Valid() && bufferFull && old(log) <= log
      ensures contextState == if take > 0 then PrepareForImcu else PostponedRow
      ensures take > 0 ==> |log| > |old(log)|
    {
      hide Shape, Holds, Wrapped, Offering;
      PostponedOffered(imcuRowCtr - 1);
      PostProcess(take, (imcuRowCtr - 1) * m - 1 - (m + 1));
      if rowgroupCtr < rowgroupsAvail { return; }
      contextState := PrepareForImcu;
    }

    /** Makes the first row groups of the iMCU row available: all but the last one, or all that are real. */
    method Prepare()
      requires Valid() && contextState.PrepareForImcu? && bufferFull
      modifies this`rowgroupCtr, this`rowgroupsAvail, this`contextState, x0, x1
      ensures Valid() && contextState.ProcessImcu? && log == old(log)
    {
      hide Shape, Holds, Wrapped, Funny, AtEnd, InOrder, LastGroups;
      assert 2 <= m by { AtLeastTwo(); }
      PointersReady(imcuRowCtr - 1);
      rowgroupCtr := 0;
      rowgroupsAvail := m - 1;
      if imcuRowCtr == n { SetBottomPointers(); }
      contextState := ProcessImcu;
    }

    lemma AtLeastTwo()
      requires Shape()
      ensures 2 <= m && 1 <= n
    {
    }

    /** Feeds the row groups of the iMCU row; after the last of them the other pointer list takes over. */
    method FeedImcu(take: nat)
      requires Valid() && contextState.ProcessImcu?
      modifies this`rowgroupCtr, this`rowgroupsAvail, this`log, this`contextState, this`whichptr, this`bufferFull, x0, x1
      ensures Valid() && old(log) <= log && (take > 0 ==> |log| > |old(log)|)
    {
      hide Shape, Holds, Wrapped, Funny, AtEnd, InOrder, LastGroups, Offering;
      AtLeastTwo();
      ghost var k := imcuRowCtr - 1;
      if imcuRowCtr == n {
        assert rowgroupsAvail == LastGroups();
        BottomOffered();
      } else {
        PointersReady(k);
        MiddleOffered(k);
      }
      PostProcess(take, k * m);
      if rowgroupCtr < rowgroupsAvail { return; }
      if imcuRowCtr == 1 { SetWraparoundPointers(); }
      whichptr := 1 - whichptr;
      bufferFull := false;
      rowgroupCtr, rowgroupsAvail := m + 1, m + 2;
      contextState := PostponedRow;
      assert (k + 1) * m == k * m + m by { MulDistrib(k, 1, m); }
    }

    /**
     `process_data_context_main`.  `arrived` tells whether the coefficient controller has an iMCU row to give, and `written` how many
     of its rows it writes for each component, padding at the bottom of the image being optional; `take1` and
     `take2` are how many row groups the postprocessor takes in its two calls, `filled` whether the first one fills the output
     buffer.  Called as long as output is wanted, it hands out the row groups of the image, one after the other.
     */
    method ProcessData(arrived: bool, written: seq<nat>, take1: nat, filled: bool, take2: nat)
      requires Valid() && |log| < Total() && (!bufferFull && arrived ==> Delivers(imcuRowCtr, written))
      modifies this, x0, x1, buf
      ensures Valid() && old(log) <= log && |log| <= Total()
      ensures !old(bufferFull) && !arrived ==> log == old(log)
      ensures (old(bufferFull) || arrived) && take1 > 0 && take2 > 0 ==> |log| > |old(log)|
    {
      hide Stands, Shape, Delivered, Total, Delivers;
      var ok := ReadInput(arrived, written);
      if !ok { return; }
      if contextState.PostponedRow? {
        PostponedFull();
        FeedPostponed(take1);
        NeverTooMany();
        if contextState.PostponedRow? { return; }
        if filled { return; }
      }
      if contextState.PrepareForImcu? { Prepare(); }
      FeedImcu(take2);
      NeverTooMany();
    }

    lemma NeverTooMany()
      requires Valid()
      ensures |log| <= Total()
    {
      hide Shape, LastGroups, Delivered, Normal, Initial, Filled, Bottom;
      AtLeastTwo();
      if imcuRowCtr >= 1 { MulMono(imcuRowCtr - 1, n - 1, m); }
      if 1 <= imcuRowCtr < n { MulMono(imcuRowCtr, n - 1, m); }
      MulDistrib(n - 1, 1, m);
    }

    lemma PostponedFull()
      requires Valid()
      ensures whichptr < 2
    {
    }

    // ----- The beginning of a pass -----

    constructor (comps: seq<Comp>, n: nat, m: nat, buf: seq<array<Row>>, x0: seq<array<nat>>, x1: seq<array<nat>>)
      ensures this.comps == comps && this.n == n && this.m == m && this.buf == buf && this.x0 == x0 && this.x1 == x1 && log == []
    {
      this.comps, this.n, this.m, this.buf, this.x0, this.x1 := comps, n, m, buf, x0, x1;
      bufferFull, rowgroupCtr, rowgroupsAvail, whichptr, contextState, imcuRowCtr := false, 0, 0, 0, PrepareForImcu, 0;
      log := [];
    }

    /** `start_pass_main`. */
    method StartPass()
      requires Shape()
      modifies this, x0, x1
      ensures Valid() && log == []
    {
      hide Shape, Funny;
      MakeFunnyPointers();
      whichptr, contextState, imcuRowCtr := 0, PrepareForImcu, 0;
      bufferFull, rowgroupCtr := false, 0;
      log := [];
    }
  }
}
