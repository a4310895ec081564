/** Three colour channels in the 16-bit lanes of a 64-bit word. */
module PackedLanes {
  import opened Arith
  import opened TriangleFilter

  const LANE: nat := 0x1_0000
  const WORD: nat := 0x1_0000_0000_0000_0000

  datatype Colour = Colour(r: nat, g: nat, b: nat) {
    predicate Fits(m: nat) { r <= m && g <= m && b <= m }
  }

  function Pack(c: Colour): (v: nat) { c.r + c.g * 0x1_0000 + c.b * 0x1_0000_0000 }

  function Packed(line: seq<Colour>): (s: seq<nat>)
    ensures |s| == |line| && forall i :: 0 <= i < |s| ==> s[i] == Pack(line[i])
  {
    seq(|line|, i requires 0 <= i < |line| => Pack(line[i]))
  }

  function Reds(line: seq<Colour>): (s: seq<nat>)
    ensures |s| == |line| && forall i :: 0 <= i < |s| ==> s[i] == line[i].r
  {
    seq(|line|, i requires 0 <= i < |line| => line[i].r)
  }

  function Greens(line: seq<Colour>): (s: seq<nat>)
    ensures |s| == |line| && forall i :: 0 <= i < |s| ==> s[i] == line[i].g
  {
    seq(|line|, i requires 0 <= i < |line| => line[i].g)
  }

  function Blues(line: seq<Colour>): (s: seq<nat>)
    ensures |s| == |line| && forall i :: 0 <= i < |s| ==> s[i] == line[i].b
  {
    seq(|line|, i requires 0 <= i < |line| => line[i].b)
  }

  /** The convolution of each channel. */
  function Channels(line: seq<Colour>, r: nat, x: int): (c: Colour)
    requires line != []
  {
    Colour(Triangle(Reds(line), r, x), Triangle(Greens(line), r, x), Triangle(Blues(line), r, x))
  }

  lemma PackScale(w: nat, c: Colour)
    ensures w * Pack(c) == Pack(Colour(w * c.r, w * c.g, w * c.b))
  {
    var g, b := c.g * 0x1_0000, c.b * 0x1_0000_0000;
    MulDistrib(c.r + g, b, w);
    MulDistrib(c.r, g, w);
    MulAssoc(w, c.g, 0x1_0000);
    MulAssoc(w, c.b, 0x1_0000_0000);
  }

  lemma PackAdd(a: Colour, b: Colour)
    ensures Pack(a) + Pack(b) == Pack(Colour(a.r + b.r, a.g + b.g, a.b + b.b))
  {
  }

  /** Convolution works on all lanes at once. */
  lemma {:induction false} PackedWeighted(line: seq<Colour>, r: nat, x: int, a: int, b: int)
    requires line != []
    ensures Weighted(Packed(line), r, x, a, b)
         == Pack(Colour(Weighted(Reds(line), r, x, a, b), Weighted(Greens(line), r, x, a, b), Weighted(Blues(line), r, x, a, b)))
    decreases b - a
  {
    hide Pack, Weight;
    if b <= a {
      assert Pack(Colour(0, 0, 0)) == 0 by { PackNothing(); }
    } else {
      PackedWeighted(line, r, x, a, b - 1);
      var w, i := Weight(r, b - 1 - x), if b - 1 < 0 then 0 else if b - 1 < |line| then b - 1 else |line| - 1;
      PackScale(w, line[i]);
      var c := Colour(Weighted(Reds(line), r, x, a, b - 1), Weighted(Greens(line), r, x, a, b - 1), Weighted(Blues(line), r, x, a, b - 1));
      PackAdd(c, Colour(w * line[i].r, w * line[i].g, w * line[i].b));
    }
  }

  lemma PackNothing()
    ensures Pack(Colour(0, 0, 0)) == 0
  {
  }

  lemma PackedTriangle(line: seq<Colour>, r: nat, x: int)
    requires line != []
    ensures Triangle(Packed(line), r, x) == Pack(Channels(line, r, x))
  {
    PackedWeighted(line, r, x, x - r, x + r + 1);
  }

  lemma ChannelsFit(line: seq<Colour>, m: nat)
    requires forall c <- line :: c.Fits(m)
    ensures (forall v <- Reds(line) :: v <= m) && (forall v <- Greens(line) :: v <= m) && (forall v <- Blues(line) :: v <= m)
  {
    forall i | 0 <= i < |line| ensures line[i].Fits(m) { assert line[i] in line; }
  }

  /** No lane overflows into the next: the sums stay below 2^16 for radii up to 15. */
  lemma LanesBound(line: seq<Colour>, r: nat, x: int)
    requires line != [] && r <= 15 && forall c <- line :: c.Fits(255)
    ensures Channels(line, r, x).Fits(((r + 1) * (r + 1)) * 255)
    ensures ((r + 1) * (r + 1)) * 255 < LANE
    ensures Pack(Channels(line, r, x)) < WORD
  {
    ChannelsFit(line, 255);
    TriangleBound(Reds(line), r, x, 255);
    TriangleBound(Greens(line), r, x, 255);
    TriangleBound(Blues(line), r, x, 255);
    MulMono(r + 1, 16, r + 1);
    MulMono(r + 1, 16, 16);
  }

  /** `v & 0x00FF00FF00FF00FF`: the low byte of each lane. */
  function Mask(v: nat): (m: nat) {
    v % 256 + v / 0x1_0000 % 256 * 0x1_0000 + v / 0x1_0000_0000 % 256 * 0x1_0000_0000
    + v / 0x1_0000_0000_0000 % 256 * 0x1_0000_0000_0000
  }

  function Quotients(c: Colour, d: nat): (q: Colour)
    requires d > 0
  {
    DivNonNeg(c.r, d);
    DivNonNeg(c.g, d);
    DivNonNeg(c.b, d);
    Colour(c.r / d, c.g / d, c.b / d)
  }

  /** The shift counts that belong to the radii, as divisors. */
  predicate IsDivisor(d: nat) { d == 4 || d == 16 || d == 64 || d == 256 }

  /** Shifting the word right divides every lane; what comes down from the next lane stays above the low byte. */
  lemma ShiftedLane(lo: nat, hi: nat, d: nat)
    requires IsDivisor(d) && lo <= 255 * d
    ensures (lo + hi * LANE) / d % 256 == lo / d <= 255
  {
    if d == 4 { LaneOver(lo, hi, 4, 16384); }
    else if d == 16 { LaneOver(lo, hi, 16, 4096); }
    else if d == 64 { LaneOver(lo, hi, 64, 1024); }
    else { LaneOver(lo, hi, 256, 256); }
  }

  lemma LaneOver(lo: nat, hi: nat, d: nat, k: nat)
    requires d > 0 && k % 256 == 0 && k * d == LANE && lo <= 255 * d
    ensures (lo + hi * LANE) / d % 256 == lo / d <= 255
  {
    var q, r := lo / d, lo % d;
    DivNonNeg(lo, d);
    if q > 255 { MulMono(256, q, d); }
    MulAssoc(hi, k, d);
    MulDistrib(q, hi * k, d);
    DivModUnique(q + hi * k, r, d, lo + hi * LANE);
    var j := k / 256;
    MulAssoc(hi, j, 256);
    DivModUnique(hi * j, q, 256, q + hi * k);
  }

  lemma DivDiv(v: nat, d: nat, p: nat)
    requires d > 0 && p > 0
    ensures d * p > 0 && v / d / p == v / (p * d) == v / (d * p)
  {
    var q, r := v / d, v % d;
    DivNonNeg(v, d);
    var q', r' := q / p, q % p;
    MulDistrib(q' * p, r', d);
    MulAssoc(q', p, d);
    MulBelow(r', p, d);
    MulNonNeg(r', d);
    DivModUnique(q', r' * d + r, p * d, v);
    assert p * d == d * p;
  }

  lemma ShiftThenLane(v: nat, d: nat, p: nat)
    requires d > 0 && p > 0
    ensures v / d / p == v / p / d
  {
    DivDiv(v, d, p);
    DivDiv(v, p, d);
  }

  /** The lanes of a packed word. */
  lemma Lanes(c: Colour)
    requires c.Fits(LANE - 1)
    ensures var v := Pack(c);
            && v == c.r + (c.g + c.b * LANE) * LANE && v / 0x1_0000 == c.g + c.b * LANE && v / 0x1_0000_0000 == c.b
            && v / 0x1_0000_0000_0000 == 0
  {
  }

  /** The blurred colour: shift, then mask. */
  lemma Shade(c: Colour, d: nat)
    requires IsDivisor(d) && c.Fits(255 * d)
    ensures Mask(Pack(c) / d) == Pack(Quotients(c, d)) && Quotients(c, d).Fits(255)
    ensures Pack(c) / d % 256 == Quotients(c, d).r && Pack(c) / d / 0x1_0000 % 256 == Quotients(c, d).g
    ensures Pack(c) / d / 0x1_0000_0000 % 256 == Quotients(c, d).b
  {
    hide Pack;
    var v := Pack(c);
    Lanes(c);
    ShiftedLane(c.r, c.g + c.b * LANE, d);
    ShiftedLane(c.g, c.b, d);
    ShiftedLane(c.b, 0, d);
    ShiftThenLane(v, d, 0x1_0000);
    ShiftThenLane(v, d, 0x1_0000_0000);
    ShiftThenLane(v, d, 0x1_0000_0000_0000);
    Assembled(v, c, d);
  }

  lemma Assembled(v: nat, c: Colour, d: nat)
    requires IsDivisor(d) && v / d % 256 == c.r / d <= 255 && v / d / 0x1_0000 % 256 == c.g / d <= 255
    requires v / d / 0x1_0000_0000 % 256 == c.b / d <= 255 && v / d / 0x1_0000_0000_0000 == 0
    ensures v / d >= 0 && Mask(v / d) == Pack(Quotients(c, d)) && Quotients(c, d).Fits(255)
  {
    DivNonNeg(v, d);
  }
}
