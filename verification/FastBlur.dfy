/** `fastBlur`: two passes of a triangular convolution, three channels at a time, by sliding sums. */
module FastBlur {
  import opened Arith
  import opened Bits
  import opened PackedLanes
  import opened Segments
  import opened TriangleFilter

  /** uint64_t arithmetic. */
  function Wrap(v: int): (u: nat)
    ensures u < WORD
  {
    v % WORD
  }

  lemma WrapAdd(a: int, b: int)
    ensures Wrap(Wrap(a) + b) == Wrap(a + b)
  {
    var q, r := a / WORD, a % WORD;
    var q', r' := (r + b) / WORD, (r + b) % WORD;
    DivModUnique(q + q', r', WORD, a + b);
  }

  lemma WrapSmall(a: nat)
    requires a < WORD
    ensures Wrap(a) == a
  {
  }

  /** The largest packed colour. */
  const WHITE: nat := 0xFF_00FF_00FF

  predicate Samples(s: seq<nat>) { s != [] && forall v <- s :: v <= WHITE }

  lemma TriangleFits(s: seq<nat>, r: nat, x: int)
    requires Samples(s) && r <= 15
    ensures Triangle(s, r, x) < WORD
  {
    TriangleBound(s, r, x, WHITE);
    MulMono(r + 1, 16, r + 1);
    MulMono(r + 1, 16, 16);
    MulMono((r + 1) * (r + 1), 256, WHITE);
  }

  /** The two sums when the window is at `x`. */
  predicate Running(s: seq<nat>, r: nat, x: int, rgbsum: nat, rgballsum: nat)
    requires s != []
  {
    rgbsum == Triangle(s, r, x) && rgballsum == Wrap(Change(s, r, x - 1))
  }

  /** The common part of the macro `update`. */
  method Update(rgbsum: nat, rgballsum: nat, start: nat, middle: nat, end: nat, ghost s: seq<nat>, ghost r: nat, ghost x: int)
    returns (rgbsum': nat, rgballsum': nat)
    requires Samples(s) && r <= 15 && Running(s, r, x, rgbsum, rgballsum)
    requires start == Sample(s, x - r - 1) && middle == Sample(s, x) && end == Sample(s, x + r + 1)
    ensures Running(s, r, x + 1, rgbsum', rgballsum')
  {
    hide Triangle, Change, Sample, Wrap;
    rgballsum' := Wrap(rgballsum + start - 2 * middle + end);
    rgbsum' := Wrap(rgbsum + rgballsum');
    ChangeMoves(s, r, x);
    TriangleMoves(s, r, x);
    WrapAdd(Change(s, r, x - 1), start - 2 * middle + end);
    WrapAdd(Change(s, r, x), rgbsum);
    TriangleFits(s, r, x + 1);
    WrapSmall(Triangle(s, r, x + 1));
  }

  /** The sums while the first samples of a line are being added. */
  predicate Starting(s: seq<nat>, r: nat, i: nat, rgbsum: nat, rgballsum: nat)
    requires s != []
  {
    rgbsum == Weighted(s, r, 0, -(r as int), i) && rgballsum == Wrap(Window(s, 1, i) - r * s[0])
  }

  lemma {:induction false} WeightedGrows(s: seq<nat>, r: nat, x: int, a: int, b: int, b': int)
    requires s != [] && b <= b'
    ensures Weighted(s, r, x, a, b) <= Weighted(s, r, x, a, b')
    decreases b' - b
  {
    if b < b' {
      WeightedGrows(s, r, x, a, b, b' - 1);
      MulNonNeg(Weight(r, b' - 1 - x), Sample(s, b' - 1));
    }
  }

  lemma StartsAt(s: seq<nat>, r: nat)
    requires Samples(s) && r <= 15
    ensures Starting(s, r, 1, Wrap(s[0] * ((r + 1) * (r + 1 + 1) / 2)), Wrap(-(r as int) * s[0]))
  {
    hide Wrap, Weighted, Triangle;
    LeftEdge(s, r, r);
    var w := Weighted(s, r, 0, -(r as int), 1);
    HalfTimes(r + 1, s[0], w);
    WeightedGrows(s, r, 0, -(r as int), 1, r + 1);
    assert Weighted(s, r, 0, 0 - r, 0 + r + 1) == Triangle(s, r, 0) by { TriangleIs(s, r); }
    TriangleFits(s, r, 0);
    WrapSmall(w);
    NegativeTimes(r, s[0]);
  }

  lemma TriangleIs(s: seq<nat>, r: nat)
    requires s != []
    ensures Weighted(s, r, 0, -(r as int), r + 1) == Triangle(s, r, 0)
  {
  }

  lemma NegativeTimes(r: nat, c: nat)
    ensures -(r as int) * c == -(r * c)
  {
  }

  lemma HalfTimes(n: nat, c: nat, w: nat)
    requires 2 * w == (n * (n + 1)) * c
    ensures w == c * (n * (n + 1) / 2)
  {
    Consecutive(n);
    var h := n * (n + 1) / 2;
    MulAssoc(2, h, c);
    assert h * c == c * h;
  }

  lemma Consecutive(n: nat)
    ensures n * (n + 1) % 2 == 0
  {
    var h := n / 2;
    if n % 2 == 0 {
      MulAssoc(2, h, n + 1);
      DivModUnique(h * (n + 1), 0, 2, n * (n + 1));
    } else {
      assert n + 1 == 2 * (h + 1);
      MulDouble(n, h + 1);
      DivModUnique(n * (h + 1), 0, 2, n * (n + 1));
    }
  }

  lemma StartNext(s: seq<nat>, r: nat, i: nat, rgbsum: nat, rgballsum: nat)
    requires Samples(s) && r <= 15 && 1 <= i <= r && i < |s| && Starting(s, r, i, rgbsum, rgballsum)
    ensures Starting(s, r, i + 1, Wrap(rgbsum + s[i] * (r + 1 - i)), Wrap(rgballsum + s[i]))
  {
    hide Wrap;
    assert Weight(r, i) == r + 1 - i && Sample(s, i) == s[i];
    assert s[i] * (r + 1 - i) == (r + 1 - i) * s[i];
    WeightedGrows(s, r, 0, -(r as int), i + 1, r + 1);
    TriangleFits(s, r, 0);
    WrapSmall(Weighted(s, r, 0, -(r as int), i + 1));
    WrapAdd(Window(s, 1, i) - r * s[0], s[i]);
  }

  lemma Started(s: seq<nat>, r: nat, rgbsum: nat, rgballsum: nat)
    requires s != [] && Starting(s, r, r + 1, rgbsum, rgballsum)
    ensures Running(s, r, 0, rgbsum, rgballsum)
  {
    StartChange(s, r, r + 1);
    WindowFront(s, 0, r + 1);
    MulDistrib(r, 1, s[0]);
  }

  // ----- Rows -----

  function ColourAt(pix: seq<nat>, off: nat): (c: Colour)
    requires off + 3 <= |pix|
  {
    Colour(pix[off], pix[off + 1], pix[off + 2])
  }

  /** `get_colors`. */
  function GetColors(pix: seq<nat>, off: nat): (v: nat)
    requires off + 3 <= |pix|
    ensures IsByte(pix[off]) && IsByte(pix[off + 1]) && IsByte(pix[off + 2]) ==>
              v % 0x1_0000 == pix[off] && v / 0x1_0000 % 0x1_0000 == pix[off + 1] && v / 0x1_0000_0000 == pix[off + 2]
  {
    pix[off] + pix[off + 1] * 0x1_0000 + pix[off + 2] * 0x1_0000_0000
  }

  /** The colours of a row of `w` pixels that starts at `off`. */
  function Line(pix: seq<nat>, off: nat, w: nat): (line: seq<Colour>)
    requires off + 4 * w <= |pix|
    ensures |line| == w && forall x :: 0 <= x < w ==> line[x] == ColourAt(pix, off + 4 * x)
  {
    seq(w, x requires 0 <= x < w => ColourAt(pix, off + 4 * x))
  }

  lemma ColoursOf(pix: seq<nat>, off: nat, w: nat)
    requires off + 4 * w <= |pix|
    ensures forall x :: 0 <= x < w ==> Packed(Line(pix, off, w))[x] == GetColors(pix, off + 4 * x)
  {
  }

  function Shaded(line: seq<Colour>, r: nat, d: nat, x: int): (c: Colour)
    requires line != [] && d > 0
  {
    Quotients(Channels(line, r, x), d)
  }

  function BlurredLine(line: seq<Colour>, r: nat, d: nat): (b: seq<Colour>)
    requires line != [] && d > 0
    ensures |b| == |line| && forall x :: 0 <= x < |b| ==> b[x] == Shaded(line, r, d, x)
  {
    seq(|line|, x requires 0 <= x < |line| => Shaded(line, r, d, x))
  }

  predicate AllFit(line: seq<Colour>) { forall c <- line :: c.Fits(255) }

  lemma PackedSamples(line: seq<Colour>)
    requires line != [] && AllFit(line)
    ensures Samples(Packed(line))
  {
    forall v | v in Packed(line) ensures v <= WHITE {
      var i :| 0 <= i < |line| && Packed(line)[i] == v;
      assert line[i] in line;
    }
  }

  lemma LineFits(pix: seq<nat>, off: nat, w: nat)
    requires off + 4 * w <= |pix| && AreBytes(pix)
    ensures AllFit(Line(pix, off, w))
  {
    var line := Line(pix, off, w);
    forall c | c in line ensures c.Fits(255) {
      var x :| 0 <= x < w && line[x] == c;
      assert IsByte(pix[off + 4 * x]) && IsByte(pix[off + 4 * x + 1]) && IsByte(pix[off + 4 * x + 2]);
    }
  }

  /** The divisor (r+1)^2 as a power of two. */
  predicate Normal(r: nat, d: nat) { r <= 15 && d == (r + 1) * (r + 1) && IsDivisor(d) }

  /** What is stored for `x`. */
  lemma StoredShade(line: seq<Colour>, r: nat, d: nat, x: int)
    requires line != [] && AllFit(line) && Normal(r, d)
    ensures var v := Triangle(Packed(line), r, x);
            && v / d >= 0 && Mask(v / d) == Pack(Shaded(line, r, d, x)) && Shaded(line, r, d, x).Fits(255)
            && v / d % 256 == Shaded(line, r, d, x).r && v / d / 0x1_0000 % 256 == Shaded(line, r, d, x).g
            && v / d / 0x1_0000_0000 % 256 == Shaded(line, r, d, x).b
  {
    hide Triangle, Mask, Pack;
    PackedTriangle(line, r, x);
    LanesBound(line, r, x);
    DivNonNeg(Triangle(Packed(line), r, x), d);
    Shade(Channels(line, r, x), d);
  }

  /** The sums at the beginning of a row. */
  method StartRow(pix: array<nat>, yw: nat, radius: nat, ghost w: nat) returns (rgbsum: nat, rgballsum: nat)
    requires yw + 4 * w <= pix.Length && AreBytes(pix[..]) && radius <= 15 && radius < w
    ensures Running(Packed(Line(pix[..], yw, w)), radius, 0, rgbsum, rgballsum)
  {
    hide Starting, Running, Wrap, Pack, GetColors;
    ghost var s := Packed(Line(pix[..], yw, w));
    ColoursOf(pix[..], yw, w);
    LineFits(pix[..], yw, w);
    PackedSamples(Line(pix[..], yw, w));
    var r1 := radius + 1;
    var cur := GetColors(pix[..], yw);
    rgballsum := Wrap(-(radius as int) * cur);
    rgbsum := Wrap(cur * (r1 * (r1 + 1) / 2));
    StartsAt(s, radius);
    var i := 1;
    while i <= radius
      invariant 1 <= i <= radius + 1 && Starting(s, radius, i, rgbsum, rgballsum)
    {
      StartNext(s, radius, i, rgbsum, rgballsum);
      cur := GetColors(pix[..], yw + i * 4);
      rgbsum := Wrap(rgbsum + cur * (r1 - i));
      rgballsum := Wrap(rgballsum + cur);
      i := i + 1;
    }
    Started(s, radius, rgbsum, rgballsum);
  }

  // ----- First pass -----

  /** A row: `rgb` receives the blurred row at `base`. */
  method BlurRow(pix: array<nat>, yw: nat, w: nat, radius: nat, d: nat, rgb: array<nat>, base: nat)
    requires yw + 4 * w <= pix.Length && AreBytes(pix[..]) && Normal(radius, d) && 2 * radius + 1 < w
    requires base + w <= rgb.Length && rgb != pix
    modifies rgb
    ensures rgb[..base] == old(rgb[..base])
    ensures rgb[base..base + w] == Packed(BlurredLine(Line(pix[..], yw, w), radius, d))
  {
    hide Running, Wrap, Pack, Mask, Normal;
    ghost var line := Line(pix[..], yw, w);
    ghost var s := Packed(line);
    NormalBound(radius, d);
    LineFits(pix[..], yw, w);
    PackedSamples(line);
    var r1 := radius + 1;
    var we := w - r1;
    var rgbsum, rgballsum := StartRow(pix, yw, radius, w);
    var x := 0;
    while x < r1
      invariant 0 <= x <= r1 && Running(s, radius, x, rgbsum, rgballsum) && RowDone(rgb[..], base, line, radius, d, x)
      invariant rgb[..base] == old(rgb[..base])
    {
      rgbsum, rgballsum := StoreAndUpdate(pix, yw, w, radius, d, rgb, base, x, 0, x + r1, rgbsum, rgballsum);
      x := x + 1;
    }
    while x < we
      invariant r1 <= x <= we && Running(s, radius, x, rgbsum, rgballsum) && RowDone(rgb[..], base, line, radius, d, x)
      invariant rgb[..base] == old(rgb[..base])
    {
      rgbsum, rgballsum := StoreAndUpdate(pix, yw, w, radius, d, rgb, base, x, x - r1, x + r1, rgbsum, rgballsum);
      x := x + 1;
    }
    while x < w
      invariant we <= x <= w && Running(s, radius, x, rgbsum, rgballsum) && RowDone(rgb[..], base, line, radius, d, x)
      invariant rgb[..base] == old(rgb[..base])
    {
      rgbsum, rgballsum := StoreAndUpdate(pix, yw, w, radius, d, rgb, base, x, x - r1, w - 1, rgbsum, rgballsum);
      x := x + 1;
    }
    RowComplete(rgb[..], base, line, radius, d);
  }

  lemma NormalBound(r: nat, d: nat)
    requires Normal(r, d)
    ensures r <= 15 && d > 0
  {
  }

  /** The first `x` pixels of the row are in place. */
  ghost predicate RowDone(rgb: seq<nat>, base: nat, line: seq<Colour>, r: nat, d: nat, x: nat)
    requires line != [] && d > 0
  {
    && base + |line| <= |rgb| && x <= |line|
    && forall i :: 0 <= i < x ==> rgb[base + i] == Pack(Shaded(line, r, d, i))
  }

  lemma RowComplete(rgb: seq<nat>, base: nat, line: seq<Colour>, r: nat, d: nat)
    requires line != [] && d > 0 && RowDone(rgb, base, line, r, d, |line|)
    ensures rgb[base..base + |line|] == Packed(BlurredLine(line, r, d))
  {
    hide Pack, Shaded;
  }

  /** The macro `update` of the first pass. */
  method StoreAndUpdate(pix: array<nat>, yw: nat, w: nat, radius: nat, d: nat, rgb: array<nat>, base: nat, x: nat, start: nat,
                        end: nat, rgbsum: nat, rgballsum: nat)
    returns (rgbsum': nat, rgballsum': nat)
    requires yw + 4 * w <= pix.Length && AreBytes(pix[..]) && Normal(radius, d) && radius <= 15 && d > 0 && 0 < w
    requires base + w <= rgb.Length && rgb != pix
    requires x < w && start == (if x < radius + 1 then 0 else x - (radius + 1)) && start < w
    requires end == if x + radius + 1 < w then x + radius + 1 else w - 1
    requires Running(Packed(Line(pix[..], yw, w)), radius, x, rgbsum, rgballsum)
    requires RowDone(rgb[..], base, Line(pix[..], yw, w), radius, d, x)
    modifies rgb
    ensures rgb[..base] == old(rgb[..base])
    ensures Running(Packed(Line(pix[..], yw, w)), radius, x + 1, rgbsum', rgballsum')
    ensures RowDone(rgb[..], base, Line(pix[..], yw, w), radius, d, x + 1)
  {
    hide Wrap, Pack, Mask, Normal, Shaded, Triangle, Change, GetColors;
    ghost var line := Line(pix[..], yw, w);
    ColoursOf(pix[..], yw, w);
    ghost var was := rgb[..];
    LineFits(pix[..], yw, w);
    PackedSamples(line);
    StoredShade(line, radius, d, x);
    rgb[base + x] := Mask(rgbsum / d);
    assert rgb[..base] == was[..base];
    forall i | 0 <= i < x + 1 ensures rgb[base + i] == Pack(Shaded(line, radius, d, i)) {
      if i < x { assert rgb[base + i] == was[base + i]; }
    }
    rgbsum', rgballsum' := Update(rgbsum, rgballsum, GetColors(pix[..], yw + start * 4), GetColors(pix[..], yw + x * 4),
                                  GetColors(pix[..], yw + end * 4), Packed(line), radius, x);
  }

  // ----- The picture -----

  /** An image in memory and the blur that is asked for. */
  datatype Picture = Picture(pix: seq<nat>, w: nat, h: nat, stride: nat, r: nat, d: nat) {
    ghost predicate Valid() {
      && AreBytes(pix) && 0 < w && 0 < h && stride == 4 * w && h * stride <= |pix| && Normal(r, d)
    }

    /** Row `y` after the first pass. */
    ghost function Row(y: nat): (line: seq<Colour>)
      requires Valid() && y < h
      ensures |line| == w
    {
      RowInside(this, y);
      BlurredLine(Line(pix, y * stride, w), r, d)
    }

    /** Column `x` after the first pass. */
    ghost function Column(x: nat): (line: seq<Colour>)
      requires Valid() && x < w
      ensures |line| == h && forall y :: 0 <= y < h ==> line[y] == Row(y)[x]
    {
      seq(h, y requires 0 <= y < h => Row(y)[x])
    }

    /** The colour at (x, y) after both passes. */
    ghost function Blurred(x: nat, y: nat): (c: Colour)
      requires Valid() && x < w && y < h
    {
      Shaded(Column(x), r, d, y)
    }

    /** The pixel that byte `i` belongs to, and its place there. */
    function RowIndex(i: nat): (y: nat)
      requires stride > 0
    {
      DivNonNeg(i, stride);
      i / stride
    }

    function ColIndex(i: nat): (x: nat)
      requires stride > 0
    {
      i % stride / 4
    }

    function ByteIndex(i: nat): (c: nat)
      requires stride > 0
      ensures c < 4
    {
      i % stride % 4
    }

    /** Byte `i` when the columns before `x`, and the first `y` pixels of column `x`, have been written. */
    ghost function Target(i: nat, x: nat, y: nat): (v: nat)
      requires Valid() && i < |pix|
    {
      var yy, xx, c := RowIndex(i), ColIndex(i), ByteIndex(i);
      if c < 3 && xx < w && yy < h && (xx < x || (xx == x && yy < y)) then
        var b := Blurred(xx, yy);
        if c == 0 then b.r else if c == 1 then b.g else b.b
      else pix[i]
    }
  }

  lemma RowInside(p: Picture, y: nat)
    requires y < p.h && p.stride == 4 * p.w && p.h * p.stride <= |p.pix|
    ensures y * p.stride + 4 * p.w <= |p.pix|
  {
    MulBelow(y, p.h, p.stride);
  }

  ghost predicate Painted(p: Picture, pix: seq<nat>, x: nat, y: nat)
    requires p.Valid()
  {
    |pix| == |p.pix| && forall i :: 0 <= i < |pix| ==> pix[i] == p.Target(i, x, y)
  }

  /** The offset of a pixel tells the pixel. */
  lemma OffsetTells(p: Picture, x: nat, y: nat, c: nat)
    requires p.stride == 4 * p.w && x < p.w && c < 4
    ensures var i := y * p.stride + 4 * x + c; p.RowIndex(i) == y && p.ColIndex(i) == x && p.ByteIndex(i) == c
  {
    DivModUnique(y, 4 * x + c, p.stride, y * p.stride + 4 * x + c);
  }

  lemma PixelTells(p: Picture, i: nat)
    requires p.stride == 4 * p.w && 0 < p.w
    ensures i == p.RowIndex(i) * p.stride + 4 * p.ColIndex(i) + p.ByteIndex(i)
  {
    DivNonNeg(i, p.stride);
  }

  /** Writing one pixel. */
  lemma PaintPixel(p: Picture, pix: seq<nat>, x: nat, y: nat, yi: nat)
    requires p.Valid() && x < p.w && y < p.h && Painted(p, pix, x, y) && yi == y * p.stride + 4 * x
    ensures yi + 3 < |pix|
    ensures var b := p.Blurred(x, y); Painted(p, pix[yi := b.r][yi + 1 := b.g][yi + 2 := b.b], x, y + 1)
  {
    hide Picture.Blurred;
    RowInside(p, y);
    var b := p.Blurred(x, y);
    var pix' := pix[yi := b.r][yi + 1 := b.g][yi + 2 := b.b];
    forall i | 0 <= i < |pix| ensures pix'[i] == p.Target(i, x, y + 1) {
      PaintByte(p, x, y, yi, i);
    }
  }

  lemma PaintByte(p: Picture, x: nat, y: nat, yi: nat, i: nat)
    requires p.Valid() && x < p.w && y < p.h && yi == y * p.stride + 4 * x && i < |p.pix|
    ensures var b := p.Blurred(x, y);
            p.Target(i, x, y + 1) == if i == yi then b.r else if i == yi + 1 then b.g else if i == yi + 2 then b.b
                                     else p.Target(i, x, y)
  {
    hide Picture.Blurred, Normal, Picture.RowIndex, Picture.ColIndex, Picture.ByteIndex;
    PixelTells(p, i);
    OffsetTells(p, x, y, 0);
    OffsetTells(p, x, y, 1);
    OffsetTells(p, x, y, 2);
  }

  lemma ColumnDone(p: Picture, pix: seq<nat>, x: nat)
    requires p.Valid() && Painted(p, pix, x, p.h)
    ensures Painted(p, pix, x + 1, 0)
  {
    hide Picture.Target, Picture.Valid;
    forall i | 0 <= i < |pix| ensures pix[i] == p.Target(i, x + 1, 0) { ColumnByte(p, x, i); }
  }

  lemma ColumnByte(p: Picture, x: nat, i: nat)
    requires p.Valid() && i < |p.pix|
    ensures p.Target(i, x, p.h) == p.Target(i, x + 1, 0)
  {
    hide Picture.Blurred, Picture.RowIndex, Picture.ColIndex, Picture.ByteIndex, Normal;
  }

  lemma NothingPainted(p: Picture)
    requires p.Valid()
    ensures Painted(p, p.pix, 0, 0)
  {
    hide Picture.Blurred;
  }

  // ----- Second pass -----

  /** The rows after the first pass are in `rgb`. */
  ghost predicate InRgb(p: Picture, rgb: seq<nat>, rows: nat)
    requires p.Valid()
  {
    rows <= p.h && forall y :: 0 <= y < rows ==> RowInRgb(p, rgb, y)
  }

  ghost predicate RowInRgb(p: Picture, rgb: seq<nat>, y: nat)
    requires p.Valid() && y < p.h
  {
    y * p.w + p.w <= |rgb| && rgb[y * p.w..y * p.w + p.w] == Packed(p.Row(y))
  }

  lemma RgbAt(p: Picture, rgb: seq<nat>, x: nat, y: nat)
    requires p.Valid() && InRgb(p, rgb, p.h) && x < p.w && y < p.h
    ensures y * p.w + x < |rgb| && rgb[y * p.w + x] == rgb[x + y * p.w] == Packed(p.Column(x))[y]
  {
    hide Picture.Row;
    assert RowInRgb(p, rgb, y);
    assert rgb[y * p.w + x] == rgb[y * p.w..y * p.w + p.w][x];
  }

  lemma RowFits(p: Picture, y: nat)
    requires p.Valid() && y < p.h
    ensures AllFit(p.Row(y))
  {
    hide Shaded;
    RowInside(p, y);
    var line := Line(p.pix, y * p.stride, p.w);
    LineFits(p.pix, y * p.stride, p.w);
    forall c | c in p.Row(y) ensures c.Fits(255) {
      var x :| 0 <= x < p.w && p.Row(y)[x] == c;
      StoredShade(line, p.r, p.d, x);
    }
  }

  lemma ColumnFits(p: Picture, x: nat)
    requires p.Valid() && x < p.w
    ensures AllFit(p.Column(x)) && Samples(Packed(p.Column(x)))
  {
    hide Picture.Row;
    forall c | c in p.Column(x) ensures c.Fits(255) {
      var y :| 0 <= y < p.h && p.Column(x)[y] == c;
      RowFits(p, y);
      assert p.Row(y)[x] in p.Row(y);
    }
    PackedSamples(p.Column(x));
  }

  /** The sums at the top of a column. */
  method StartColumn(rgb: array<nat>, w: nat, x: nat, radius: nat, ghost p: Picture) returns (rgbsum: nat, rgballsum: nat)
    requires p.Valid() && InRgb(p, rgb[..], p.h) && w == p.w && x < w && radius == p.r < p.h
    ensures Running(Packed(p.Column(x)), radius, 0, rgbsum, rgballsum)
  {
    hide Starting, Running, Wrap, Pack, Picture.Row, InRgb;
    ghost var s := Packed(p.Column(x));
    ColumnFits(p, x);
    RadiusBound(p);
    var r1 := radius + 1;
    RgbAt(p, rgb[..], x, 0);
    rgballsum := Wrap(-(radius as int) * rgb[x]);
    rgbsum := Wrap(rgb[x] * (r1 * (r1 + 1) / 2));
    StartsAt(s, radius);
    var i := 1;
    while i <= radius
      invariant 1 <= i <= radius + 1 && Starting(s, radius, i, rgbsum, rgballsum)
    {
      StartNext(s, radius, i, rgbsum, rgballsum);
      RgbAt(p, rgb[..], x, i);
      rgbsum := Wrap(rgbsum + rgb[i * w + x] * (r1 - i));
      rgballsum := Wrap(rgballsum + rgb[i * w + x]);
      i := i + 1;
    }
    Started(s, radius, rgbsum, rgballsum);
  }

  lemma RadiusBound(p: Picture)
    requires p.Valid()
    ensures p.r <= 15 && p.d > 0
  {
  }

  /** `yi` is the offset of pixel (x, y). */
  predicate AtPixel(p: Picture, x: nat, y: nat, yi: nat) { yi == y * p.stride + 4 * x }

  lemma FirstPixel(p: Picture, x: nat)
    ensures AtPixel(p, x, 0, x * 4)
  {
  }

  lemma PixelBelow(p: Picture, x: nat, y: nat, yi: nat)
    requires AtPixel(p, x, y, yi)
    ensures AtPixel(p, x, y + 1, yi + p.stride)
  {
    MulDistrib(y, 1, p.stride);
  }

  /** Stores the three colour bytes of a pixel; the fourth is left alone. */
  method Paint(pix: array<nat>, x: nat, y: nat, yi: nat, d: nat, rgbsum: nat, ghost p: Picture)
    requires p.Valid() && d == p.d && d > 0 && x < p.w && y < p.h && AtPixel(p, x, y, yi) && Painted(p, pix[..], x, y)
    requires rgbsum == Triangle(Packed(p.Column(x)), p.r, y)
    modifies pix
    ensures Painted(p, pix[..], x, y + 1)
  {
    hide Normal, Shaded, Triangle, Picture.Row, Painted, Picture.Valid, Picture.Column, Packed, Picture.Blurred;
    ghost var was: seq<nat>, b := pix[..], p.Blurred(x, y);
    ColumnShade(p, x, y);
    PaintPixel(p, pix[..], x, y, yi);
    var res := rgbsum / d;
    pix[yi] := res % 256;
    pix[yi + 1] := res / 0x1_0000 % 256;
    pix[yi + 2] := res / 0x1_0000_0000 % 256;
    assert pix[..] == was[yi := b.r][yi + 1 := b.g][yi + 2 := b.b];
  }

  /** The macro `update` of the second pass; the fourth byte of the pixel is left alone. */
  method PaintAndUpdate(pix: array<nat>, rgb: array<nat>, w: nat, x: nat, y: nat, yi: nat, start: nat, end: nat, d: nat,
                        rgbsum: nat, rgballsum: nat, ghost p: Picture)
    returns (rgbsum': nat, rgballsum': nat)
    requires p.Valid() && InRgb(p, rgb[..], p.h) && rgb != pix && w == p.w && d == p.d && d > 0 && p.r <= 15
    requires x < w && y < p.h && AtPixel(p, x, y, yi) && Painted(p, pix[..], x, y)
    requires start == (if y < p.r + 1 then 0 else y - (p.r + 1)) && start < p.h
    requires end == if y + p.r + 1 < p.h then y + p.r + 1 else p.h - 1
    requires Running(Packed(p.Column(x)), p.r, y, rgbsum, rgballsum)
    modifies pix
    ensures Painted(p, pix[..], x, y + 1)
    ensures Running(Packed(p.Column(x)), p.r, y + 1, rgbsum', rgballsum')
  {
    hide Wrap, Pack, Mask, Normal, Shaded, Triangle, Change, Picture.Row, InRgb, Painted, Picture.Valid, AtPixel, Picture.Blurred, Sample,
         Samples, Packed, Picture.Column, Running;
    RunningSum(p, x, y, rgbsum, rgballsum);
    ghost var s := Packed(p.Column(x));
    ColumnFits(p, x);
    Paint(pix, x, y, yi, d, rgbsum, p);
    RgbAt(p, rgb[..], x, start);
    RgbAt(p, rgb[..], x, y);
    RgbAt(p, rgb[..], x, end);
    ClampedSamples(s, p.r, y, start, end);
    rgbsum', rgballsum' := Update(rgbsum, rgballsum, rgb[x + start * w], rgb[x + y * w], rgb[x + end * w], s, p.r, y);
  }

  lemma RunningSum(p: Picture, x: nat, y: nat, rgbsum: nat, rgballsum: nat)
    requires p.Valid() && x < p.w && Running(Packed(p.Column(x)), p.r, y, rgbsum, rgballsum)
    ensures rgbsum == Triangle(Packed(p.Column(x)), p.r, y) && |Packed(p.Column(x))| == p.h && Packed(p.Column(x)) != []
  {
  }

  lemma ClampedSamples(s: seq<nat>, r: nat, y: nat, start: nat, end: nat)
    requires y < |s| && start == (if y < r + 1 then 0 else y - (r + 1)) && end == if y + r + 1 < |s| then y + r + 1 else |s| - 1
    ensures start < |s| && end < |s|
    ensures s[start] == Sample(s, y - r - 1) && s[y] == Sample(s, y) && s[end] == Sample(s, y + r + 1)
  {
  }

  /** What is stored for pixel (x, y). */
  lemma ColumnShade(p: Picture, x: nat, y: nat)
    requires p.Valid() && x < p.w && y < p.h
    ensures var v, b := Triangle(Packed(p.Column(x)), p.r, y), p.Blurred(x, y);
            v / p.d >= 0 && v / p.d % 256 == b.r && v / p.d / 0x1_0000 % 256 == b.g && v / p.d / 0x1_0000_0000 % 256 == b.b
  {
    hide Picture.Row, Shaded, Triangle;
    ColumnFits(p, x);
    StoredShade(p.Column(x), p.r, p.d, y);
  }

  /** A column of the picture. */
  method BlurColumn(pix: array<nat>, rgb: array<nat>, w: nat, h: nat, stride: nat, x: nat, radius: nat, d: nat, ghost p: Picture)
    requires p.Valid() && InRgb(p, rgb[..], p.h) && rgb != pix && w == p.w && h == p.h && stride == p.stride
    requires radius == p.r && d == p.d && 2 * radius + 1 < h && x < w && Painted(p, pix[..], x, 0)
    modifies pix
    ensures Painted(p, pix[..], x + 1, 0)
  {
    hide Running, Wrap, Pack, Mask, Normal, Picture.Row, Picture.Column, InRgb, Painted, Picture.Valid, Packed, AtPixel;
    RadiusBound(p);
    var r1 := radius + 1;
    var he := h - r1;
    var rgbsum, rgballsum := StartColumn(rgb, w, x, radius, p);
    ColumnThere(p, x);
    FirstPixel(p, x);
    var y: nat, yi: nat := 0, x * 4;
    while y < r1
      invariant 0 <= y <= r1 && AtPixel(p, x, y, yi) && Painted(p, pix[..], x, y)
      invariant Running(Packed(p.Column(x)), radius, y, rgbsum, rgballsum)
    {
      rgbsum, rgballsum := PaintAndUpdate(pix, rgb, w, x, y, yi, 0, y + r1, d, rgbsum, rgballsum, p);
      PixelBelow(p, x, y, yi);
      y, yi := y + 1, yi + stride;
    }
    while y < he
      invariant r1 <= y <= he && AtPixel(p, x, y, yi) && Painted(p, pix[..], x, y)
      invariant Running(Packed(p.Column(x)), radius, y, rgbsum, rgballsum)
    {
      rgbsum, rgballsum := PaintAndUpdate(pix, rgb, w, x, y, yi, y - r1, y + r1, d, rgbsum, rgballsum, p);
      PixelBelow(p, x, y, yi);
      y, yi := y + 1, yi + stride;
    }
    while y < h
      invariant he <= y <= h && AtPixel(p, x, y, yi) && Painted(p, pix[..], x, y)
      invariant Running(Packed(p.Column(x)), radius, y, rgbsum, rgballsum)
    {
      rgbsum, rgballsum := PaintAndUpdate(pix, rgb, w, x, y, yi, y - r1, h - 1, d, rgbsum, rgballsum, p);
      PixelBelow(p, x, y, yi);
      y, yi := y + 1, yi + stride;
    }
    ColumnDone(p, pix[..], x);
  }

  lemma ColumnThere(p: Picture, x: nat)
    requires p.Valid() && x < p.w
    ensures |p.Column(x)| > 0 && |Packed(p.Column(x))| == |p.Column(x)|
  {
  }

  // ----- The whole picture -----

  /** All rows into a new `rgb`. */
  method BlurRows(pix: array<nat>, w: nat, h: nat, stride: nat, radius: nat, d: nat, ghost p: Picture) returns (rgb: array<nat>)
    requires p.Valid() && p.pix == pix[..] && w == p.w && h == p.h && stride == p.stride && radius == p.r && d == p.d
    requires 2 * radius + 1 < w
    ensures fresh(rgb) && InRgb(p, rgb[..], h)
  {
    hide Picture.Row, Normal, RowInRgb, Packed, BlurredLine;
    RadiusBound(p);
    MulNonNeg(w, h);
    rgb := new nat[w * h](i => 0);
    var y, yw := 0, 0;
    while y < h
      invariant 0 <= y <= h && yw == y * stride && InRgb(p, rgb[..], y)
    {
      RowInside(p, y);
      MulBelow(y, h, w);
      MulNonNeg(y, w);
      var base: nat := y * w;
      ghost var was := rgb[..];
      BlurRow(pix, yw, w, radius, d, rgb, base);
      RowsKept(p, was, rgb[..], y);
      MulDistrib(y, 1, stride);
      y, yw := y + 1, yw + stride;
    }
  }

  lemma RowsKept(p: Picture, was: seq<nat>, rgb: seq<nat>, y: nat)
    requires p.Valid() && y < p.h && y * p.stride + 4 * p.w <= |p.pix| && InRgb(p, was, y) && |was| == |rgb| && p.d > 0
    requires y * p.w + p.w <= |rgb| && was[..y * p.w] == rgb[..y * p.w]
    requires rgb[y * p.w..y * p.w + p.w] == Packed(BlurredLine(Line(p.pix, y * p.stride, p.w), p.r, p.d))
    ensures InRgb(p, rgb, y + 1)
  {
    hide Picture.Row, Packed, Normal, BlurredLine, AreBytes;
    RowIs(p, y);
    assert RowInRgb(p, rgb, y);
    forall k | 0 <= k < y ensures RowInRgb(p, rgb, k) {
      assert RowInRgb(p, was, k);
      MulBelow(k, y, p.w);
      MulNonNeg(k, p.w);
      SliceKept(was, rgb, y * p.w, k * p.w, k * p.w + p.w);
    }
  }

  lemma RowIs(p: Picture, y: nat)
    requires p.Valid() && y < p.h && y * p.stride + 4 * p.w <= |p.pix|
    ensures p.d > 0 && Line(p.pix, y * p.stride, p.w) != [] && p.Row(y) == BlurredLine(Line(p.pix, y * p.stride, p.w), p.r, p.d)
  {
    hide BlurredLine;
  }

  lemma SliceKept(a: seq<nat>, b: seq<nat>, n: nat, i: nat, j: nat)
    requires i <= j <= n <= |a| == |b| && a[..n] == b[..n]
    ensures a[i..j] == b[i..j]
  {
    assert a[i..j] == a[..n][i..j];
    assert b[i..j] == b[..n][i..j];
  }

  /** The radii with a shift of their own. */
  function ShiftOf(radius: int): (shift: nat) {
    if radius == 1 then 2 else if radius == 3 then 4 else if radius == 7 then 6 else if radius == 15 then 8 else 0
  }

  /** The sizes that are blurred at all. */
  predicate Blurrable(w: nat, h: nat, stride: nat, radius: int) {
    2 * radius + 1 < w && 2 * radius + 1 < h && w * h <= 150 * 150 && stride <= w * 4
  }

  /** The picture as blurred with a radius of 1, 3, 7 or 15. */
  ghost predicate IsBlurOf(after: seq<nat>, before: seq<nat>, w: nat, h: nat, stride: nat, radius: nat)
    requires AreBytes(before) && 0 < w && 0 < h && stride == 4 * w && h * stride <= |before| && ShiftOf(radius) > 0
  {
    Normalised(radius);
    Painted(Picture(before, w, h, stride, radius, Pow2(ShiftOf(radius))), after, w, 0)
  }

  lemma Normalised(radius: nat)
    requires ShiftOf(radius) > 0
    ensures Normal(radius, Pow2(ShiftOf(radius)))
  {
    Pow2Literals();
    assert Pow2(4) == 16 && Pow2(6) == 64;
  }

  /** The second half of both blurs. */
  method BlurPasses(w: nat, h: nat, stride: nat, pix: array<nat>, radius: nat, shift: nat)
    requires AreBytes(pix[..]) && 0 < w && 0 < h && stride == 4 * w && h * stride <= pix.Length
    requires shift == ShiftOf(radius) > 0 && 2 * radius + 1 < w && 2 * radius + 1 < h
    modifies pix
    ensures IsBlurOf(pix[..], old(pix[..]), w, h, stride, radius)
  {
    hide Picture.Row, Normal, Painted, InRgb, ShiftOf, Pow2;
    Normalised(radius);
    var d := Pow2(shift);
    ghost var p := Picture(pix[..], w, h, stride, radius, d);
    var rgb := BlurRows(pix, w, h, stride, radius, d, p);
    NothingPainted(p);
    var x := 0;
    while x < w
      invariant 0 <= x <= w && Painted(p, pix[..], x, 0) && InRgb(p, rgb[..], h)
    {
      BlurColumn(pix, rgb, w, h, stride, x, radius, d, p);
      x := x + 1;
    }
  }

  /** A convolution, normalised and rounded down. */
  function Floored(s: seq<nat>, r: nat, x: int): (v: nat)
    requires s != []
    ensures v == Triangle(s, r, x) / ((r + 1) * (r + 1))
  {
    DivNonNeg(Triangle(s, r, x), (r + 1) * (r + 1));
    Triangle(s, r, x) / ((r + 1) * (r + 1))
  }

  /** One channel of a row that starts at `off`. */
  function RowSamples(before: seq<nat>, off: nat, w: nat, c: nat): (row: seq<nat>)
    requires off + 4 * w <= |before| && c < 3
    ensures |row| == w && forall i :: 0 <= i < w ==> row[i] == before[off + 4 * i + c]
  {
    seq(w, i requires 0 <= i < w => before[off + 4 * i + c])
  }

  /** The same channel of a column, as the first pass leaves it. */
  ghost function ColSamples(before: seq<nat>, w: nat, h: nat, stride: nat, r: nat, x: nat, c: nat): (col: seq<nat>)
    requires 0 < w && c < 3 && stride == 4 * w && h * stride <= |before|
    ensures |col| == h && forall j :: 0 <= j < h ==> col[j] == Across(before, w, h, stride, r, x, j, c)
  {
    seq(h, j requires 0 <= j < h => Across(before, w, h, stride, r, x, j, c))
  }

  ghost function Across(before: seq<nat>, w: nat, h: nat, stride: nat, r: nat, x: nat, y: nat, c: nat): (v: nat)
    requires 0 < w && c < 3 && y < h && stride == 4 * w && h * stride <= |before|
  {
    RowThere(before, w, h, stride, y);
    Floored(RowSamples(before, y * stride, w, c), r, x)
  }

  lemma RowThere(before: seq<nat>, w: nat, h: nat, stride: nat, j: nat)
    requires j < h && stride == 4 * w && h * stride <= |before|
    ensures j * stride + 4 * w <= |before|
  {
    MulBelow(j, h, stride);
  }

  /**
   Each colour byte of a blurred picture is what two convolutions with weights r+1-|j|, each divided by (r+1)^2 and rounded
   down, make of its channel alone; the fourth byte of a pixel is what it was.
   */
  lemma BlurMeans(after: seq<nat>, before: seq<nat>, w: nat, h: nat, stride: nat, r: nat, x: nat, y: nat, c: nat)
    requires AreBytes(before) && 0 < w && 0 < h && stride == 4 * w && h * stride <= |before| && ShiftOf(r) > 0
    requires IsBlurOf(after, before, w, h, stride, r) && x < w && y < h && c < 4
    ensures |after| == |before| && y * stride + 4 * w <= |before|
    ensures after[y * stride + 4 * x + c]
         == if c < 3 then Floored(ColSamples(before, w, h, stride, r, x, c), r, y) else before[y * stride + 4 * x + c]
  {
    hide ShiftOf, Pow2, Triangle;
    Normalised(r);
    RowThere(before, w, h, stride, y);
    var p := Picture(before, w, h, stride, r, Pow2(ShiftOf(r)));
    OffsetTells(p, x, y, c);
    if c < 3 { ChannelBlurred(p, x, y, c); }
  }

  lemma FlooredUniform(s: seq<nat>, r: nat, x: int, v: nat)
    requires s != [] && forall i :: 0 <= i < |s| ==> s[i] == v
    ensures Floored(s, r, x) == v
  {
    hide Triangle;
    TriangleUniform(s, r, x, v);
    var d := (r + 1) * (r + 1);
    assert d > 0 by { MulMono(1, r + 1, r + 1); }
    assert d * v == v * d;
    DivModUnique(v, 0, d, v * d);
  }

  /** A picture of one colour stays as it is, at the edges too. */
  lemma UniformStays(after: seq<nat>, before: seq<nat>, w: nat, h: nat, stride: nat, r: nat, x: nat, y: nat, c: nat, v: nat)
    requires AreBytes(before) && 0 < w && 0 < h && stride == 4 * w && h * stride <= |before| && ShiftOf(r) > 0
    requires IsBlurOf(after, before, w, h, stride, r) && x < w && y < h && c < 3
    requires forall k :: 0 <= k < |before| && k % 4 == c ==> before[k] == v
    ensures |after| == |before| && 0 <= y * stride + 4 * x + c < |after| && after[y * stride + 4 * x + c] == v
  {
    hide ShiftOf, IsBlurOf, Floored;
    BlurMeans(after, before, w, h, stride, r, x, y, c);
    MulNonNeg(y, stride);
    var col := ColSamples(before, w, h, stride, r, x, c);
    forall j | 0 <= j < h ensures col[j] == v {
      RowThere(before, w, h, stride, j);
      MulNonNeg(j, stride);
      var row := RowSamples(before, j * stride, w, c);
      forall i | 0 <= i < w ensures row[i] == v { FourthsOf(j, stride, w, i, c); }
      FlooredUniform(row, r, x, v);
    }
    FlooredUniform(col, r, y, v);
  }

  lemma FourthsOf(j: nat, stride: nat, w: nat, i: nat, c: nat)
    requires stride == 4 * w && c < 4
    ensures (j * stride + 4 * i + c) % 4 == c
  {
    MulAssoc(j, w, 4);
    DivModUnique(j * w + i, c, 4, j * stride + 4 * i + c);
  }

  function Channel(a: Colour, c: nat): (v: nat) { if c == 0 then a.r else if c == 1 then a.g else a.b }

  lemma ChannelBlurred(p: Picture, x: nat, y: nat, c: nat)
    requires p.Valid() && x < p.w && y < p.h && c < 3
    ensures Channel(p.Blurred(x, y), c) == Floored(ColSamples(p.pix, p.w, p.h, p.stride, p.r, x, c), p.r, y)
  {
    hide Triangle, Picture.Row, IsDivisor, Across;
    var line := p.Column(x);
    var col := ColSamples(p.pix, p.w, p.h, p.stride, p.r, x, c);
    var lane := Lane(line, c);
    forall j | 0 <= j < p.h ensures lane[j] == col[j] { ChannelAcross(p, x, j, c); }
    assert lane == col;
    ShadedChannel(line, p.r, p.d, y, c);
  }

  function Lane(line: seq<Colour>, c: nat): (s: seq<nat>)
    ensures |s| == |line| && forall i :: 0 <= i < |s| ==> s[i] == Channel(line[i], c)
  {
    if c == 0 then Reds(line) else if c == 1 then Greens(line) else Blues(line)
  }

  lemma ShadedChannel(line: seq<Colour>, r: nat, d: nat, x: int, c: nat)
    requires line != [] && d == (r + 1) * (r + 1)
    ensures d > 0 && Channel(Shaded(line, r, d, x), c) == Floored(Lane(line, c), r, x)
  {
    hide Triangle;
    MulMono(1, r + 1, r + 1);
  }

  lemma ChannelAcross(p: Picture, x: nat, y: nat, c: nat)
    requires p.Valid() && x < p.w && y < p.h && c < 3
    ensures Channel(p.Row(y)[x], c) == Across(p.pix, p.w, p.h, p.stride, p.r, x, y, c)
  {
    hide Triangle, IsDivisor, Channels, Quotients;
    RowInside(p, y);
    var line := Line(p.pix, y * p.stride, p.w);
    assert Lane(line, c) == RowSamples(p.pix, y * p.stride, p.w, c);
    ShadedChannel(line, p.r, p.d, x, c);
  }

  /** `fastBlur`; `gotMemory` tells whether `malloc` succeeds.  A row of the bitmap holds its pixels. */
  method Blur(w: nat, h: nat, stride: nat, pix: array?<nat>, radius: int, gotMemory: bool)
    requires pix != null ==> AreBytes(pix[..]) && h * stride <= pix.Length
    requires 4 * w <= stride && w * h < 0x8000_0000
    modifies pix
    ensures pix != null && ShiftOf(radius) > 0 && Blurrable(w, h, stride, radius) && gotMemory ==>
              0 < w && 0 < h && stride == 4 * w && IsBlurOf(pix[..], old(pix[..]), w, h, stride, radius)
    ensures pix != null && !(ShiftOf(radius) > 0 && Blurrable(w, h, stride, radius) && gotMemory) ==> pix[..] == old(pix[..])
  {
    hide IsBlurOf;
    if pix == null { return; }
    var shift;
    if radius == 1 { shift := 2; }
    else if radius == 3 { shift := 4; }
    else if radius == 7 { shift := 6; }
    else if radius == 15 { shift := 8; }
    else { return; }
    var div := radius * 2 + 1;
    if radius > 15 || div >= w || div >= h || w * h > 150 * 150 || stride > w * 4 { return; }
    if !gotMemory { return; }
    BlurPasses(w, h, stride, pix, radius, shift);
  }

  /** `fastBlurMore` with the radius its fixed shift is made for. */
  method BlurMore(w: nat, h: nat, stride: nat, pix: array<nat>, radius: int, gotMemory: bool)
    requires radius == 7 && AreBytes(pix[..]) && h * stride <= pix.Length && 4 * w <= stride && w * h < 0x8000_0000
    modifies pix
    ensures Blurrable(w, h, stride, radius) && gotMemory ==>
              0 < w && 0 < h && stride == 4 * w && IsBlurOf(pix[..], old(pix[..]), w, h, stride, radius)
    ensures !(Blurrable(w, h, stride, radius) && gotMemory) ==> pix[..] == old(pix[..])
  {
    hide IsBlurOf;
    var div := radius * 2 + 1;
    if radius > 15 || div >= w || div >= h || w * h > 150 * 150 || stride > w * 4 { return; }
    if !gotMemory { return; }
    BlurPasses(w, h, stride, pix, radius, 6);
  }
}
