/** The image heights of the components agree on the number of row groups, as the main controller takes for granted. */
module RowGroups {
  import opened Arith
  import opened ContextMain
  import opened FunnyPointers
  import opened Geometry

  /**
   A component of an image that is `height` rows high: `m` row groups of `c.rg` rows to an iMCU row, and a downsampled height
   that is rounded up as `jpeg_calc_output_dimensions` does.
   */
  ghost predicate Scaled(c: Comp, height: nat, maxV: nat, m: nat) {
    && 1 <= c.rg && 2 <= m && 1 <= height && 1 <= maxV && c.ih == m * c.rg && height * c.ih >= 0
    && c.height == DivRoundUp(height * c.ih, maxV * DCTSIZE)
    && |c.rows| == DivRoundUp(height, maxV * DCTSIZE) * c.ih
  }

  lemma HeightFits(c: Comp, height: nat, maxV: nat, m: nat)
    requires Scaled(c, height, maxV, m)
    ensures c.Valid(DivRoundUp(height, maxV * DCTSIZE))
  {
    var n := DivRoundUp(height, maxV * DCTSIZE);
    MulMono(2, m, c.rg);
    RoundUpIs(height, maxV * DCTSIZE, n);
    ScaledRoundUp(height, c.ih, maxV * DCTSIZE);
  }

  /** The row groups of a component: those of the last iMCU row, after `m` for each of the others. */
  lemma GroupsOfHeight(c: Comp, n: nat, m: nat)
    requires c.Valid(n) && c.ih == m * c.rg
    ensures (n - 1) * m + GroupsLeft(c) == DivRoundUp(c.height, c.rg)
  {
    hide RowsLeft;
    RowsLeftIs(c, n);
    var left := RowsLeft(c);
    var g := GroupsLeft(c);
    var q, r := (left - 1) / c.rg, (left - 1) % c.rg;
    assert left - 1 == q * c.rg + r;
    MulDistrib((n - 1) * m, q, c.rg);
    MulDistrib((n - 1) * m + q, 1, c.rg);
    MulAssoc(n - 1, m, c.rg);
    MulNonNeg(n - 1, m);
    RoundUpIs(c.height, c.rg, (n - 1) * m + g);
  }

  /** Every component of an image comes to the same number, so it suffices to ask the first one. */
  lemma RowGroupsAgree(c: Comp, height: nat, maxV: nat, m: nat)
    requires Scaled(c, height, maxV, m)
    ensures height * m >= 0
    ensures var n := DivRoundUp(height, maxV * DCTSIZE);
            c.Valid(n) && (n - 1) * m + GroupsLeft(c) == DivRoundUp(height * m, maxV * DCTSIZE)
  {
    hide GroupsLeft, DivRoundUp;
    HeightFits(c, height, maxV, m);
    GroupsOfHeight(c, DivRoundUp(height, maxV * DCTSIZE), m);
    MulNonNeg(height, m);
    MulAssoc(height, m, c.rg);
    NestedRoundUp(height * m, c.rg, maxV * DCTSIZE);
  }

  /** The storage of the main controller. */
  ghost predicate Allotted(comps: seq<Comp>, buf: seq<array<Row>>, x0: seq<array<nat>>, x1: seq<array<nat>>) {
    && |x0| == |x1| == |buf| == |comps|
    && (forall ci :: 0 <= ci < |comps| ==>
          x0[ci].Length == x1[ci].Length == comps[ci].ih + 4 * comps[ci].rg && buf[ci].Length == comps[ci].ih + 2 * comps[ci].rg)
    && (forall i, j :: 0 <= i < |comps| && 0 <= j < |comps| ==> x0[i] != x1[j])
    && (forall i, j :: 0 <= i < j < |comps| ==> x0[i] != x0[j] && x1[i] != x1[j] && buf[i] != buf[j])
  }

  /**
   The main controller of any image whose components are scaled alike starts in order, and will hand out as many row groups as
   the height of the image comes to.
   */
  method StartContextPass(height: nat, maxV: nat, m: nat, comps: seq<Comp>, buf: seq<array<Row>>, x0: seq<array<nat>>, x1: seq<array<nat>>)
    returns (c: MainController)
    requires comps != [] && Allotted(comps, buf, x0, x1) && forall ci :: 0 <= ci < |comps| ==> Scaled(comps[ci], height, maxV, m)
    modifies x0, x1
    ensures fresh(c) && c.Valid() && c.log == [] && c.comps == comps && c.buf == buf && height * m >= 0 && maxV > 0
    ensures c.Total() == DivRoundUp(height * m, maxV * DCTSIZE)
  {
    hide GroupsLeft, DivRoundUp, Comp.Valid, Scaled, MainController.Shape, MainController.LastGroups;
    PositiveV(comps, height, maxV, m);
    var n := DivRoundUp(height, maxV * DCTSIZE);
    c := new MainController(comps, n, m, buf, x0, x1);
    ShapeMade(c, height, maxV);
    c.StartPass();
  }

  lemma PositiveV(comps: seq<Comp>, height: nat, maxV: nat, m: nat)
    requires comps != [] && forall ci :: 0 <= ci < |comps| ==> Scaled(comps[ci], height, maxV, m)
    ensures maxV > 0 && 2 <= m
  {
    assert Scaled(comps[0], height, maxV, m);
  }

  lemma ShapeMade(c: MainController, height: nat, maxV: nat)
    requires c.comps != [] && Allotted(c.comps, c.buf, c.x0, c.x1) && 2 <= c.m && 1 <= maxV
    requires c.n == DivRoundUp(height, maxV * DCTSIZE) && forall ci :: 0 <= ci < |c.comps| ==> Scaled(c.comps[ci], height, maxV, c.m)
    ensures c.Shape() && height * c.m >= 0 && c.Total() == DivRoundUp(height * c.m, maxV * DCTSIZE)
  {
    hide GroupsLeft, DivRoundUp, Comp.Valid;
    assert Scaled(c.comps[0], height, maxV, c.m);
    RowGroupsAgree(c.comps[0], height, maxV, c.m);
    AtLeastOne(c.comps[0], c.n);
    forall ci | 0 <= ci < |c.comps| ensures c.Sized(ci) { SizedHere(c, ci, height, maxV); }
  }

  lemma SizedHere(c: MainController, ci: nat, height: nat, maxV: nat)
    requires ci < |c.comps| && Allotted(c.comps, c.buf, c.x0, c.x1) && 1 <= maxV && c.n == DivRoundUp(height, maxV * DCTSIZE)
    requires Scaled(c.comps[0], height, maxV, c.m) && Scaled(c.comps[ci], height, maxV, c.m)
    ensures c.Sized(ci)
  {
    hide GroupsLeft, DivRoundUp, Comp.Valid;
    RowGroupsAgree(c.comps[0], height, maxV, c.m);
    RowGroupsAgree(c.comps[ci], height, maxV, c.m);
  }

  lemma AtLeastOne(c: Comp, n: nat)
    requires c.Valid(n)
    ensures 1 <= n
  {
  }
}
