/**
 The triangular convolution with weights r+1-|j|, edges clamped, and the two running sums that compute it: as the window
 moves by one, the sum changes by a difference that itself changes by three samples.
 */
module TriangleFilter {
  import opened Arith

  /** A sample; beyond the edges the first or the last one. */
  function Sample(s: seq<nat>, i: int): (v: nat)
    requires s != []
  {
    if i < 0 then s[0] else if i < |s| then s[i] else s[|s| - 1]
  }

  function Weight(r: nat, d: int): (w: nat) {
    if -(r as int) <= d <= r then r + 1 - (if d < 0 then -d else d) else 0
  }

  /** The weighted samples from index `a` up to, not including, `b`, around index `x`. */
  function Weighted(s: seq<nat>, r: nat, x: int, a: int, b: int): (v: nat)
    requires s != []
    decreases b - a
  {
    if b <= a then 0 else Weighted(s, r, x, a, b - 1) + Weight(r, b - 1 - x) * Sample(s, b - 1)
  }

  /** The convolution at `x`. */
  function Triangle(s: seq<nat>, r: nat, x: int): (v: nat)
    requires s != []
  {
    Weighted(s, r, x, x - r, x + r + 1)
  }

  function Window(s: seq<nat>, a: int, b: int): (v: nat)
    requires s != []
    decreases b - a
  {
    if b <= a then 0 else Window(s, a, b - 1) + Sample(s, b - 1)
  }

  /** By how much the convolution changes from `x` to `x + 1`. */
  function Change(s: seq<nat>, r: nat, x: int): (d: int)
    requires s != []
  {
    Window(s, x + 1, x + r + 2) - Window(s, x - r, x + 1)
  }

  /** Samples up to `x` lose one unit of weight, those beyond gain one. */
  function Gain(s: seq<nat>, x: int, a: int, b: int): (d: int)
    requires s != []
    decreases b - a
  {
    if b <= a then 0 else Gain(s, x, a, b - 1) + if b - 1 <= x then -(Sample(s, b - 1) as int) else Sample(s, b - 1)
  }

  lemma {:induction false} MovedWeights(s: seq<nat>, r: nat, x: int, a: int, b: int)
    requires s != [] && x - r <= a && b <= x + r + 2
    ensures Weighted(s, r, x + 1, a, b) == Weighted(s, r, x, a, b) + Gain(s, x, a, b)
    decreases b - a
  {
    if a < b {
      MovedWeights(s, r, x, a, b - 1);
      var i, c := b - 1, Sample(s, b - 1);
      if i <= x {
        assert Weight(r, i - x) == Weight(r, i - (x + 1)) + 1;
        MulDistrib(Weight(r, i - (x + 1)), 1, c);
      } else {
        assert Weight(r, i - (x + 1)) == Weight(r, i - x) + 1;
        MulDistrib(Weight(r, i - x), 1, c);
      }
    }
  }

  lemma {:induction false} GainIsChange(s: seq<nat>, x: int, a: int, b: int)
    requires s != [] && a <= x + 1 <= b
    ensures Gain(s, x, a, b) == Window(s, x + 1, b) - Window(s, a, x + 1)
    decreases b - a
  {
    if b == x + 1 { LossOnly(s, x, a, b); } else { GainIsChange(s, x, a, b - 1); }
  }

  lemma {:induction false} LossOnly(s: seq<nat>, x: int, a: int, b: int)
    requires s != [] && b <= x + 1
    ensures Gain(s, x, a, b) == -(Window(s, a, b) as int)
    decreases b - a
  {
    if a < b { LossOnly(s, x, a, b - 1); }
  }

  lemma {:induction false} WeightedFront(s: seq<nat>, r: nat, x: int, a: int, b: int)
    requires s != [] && a < b
    ensures Weighted(s, r, x, a, b) == Weight(r, a - x) * Sample(s, a) + Weighted(s, r, x, a + 1, b)
    decreases b - a
  {
    if a < b - 1 { WeightedFront(s, r, x, a, b - 1); }
  }

  lemma {:induction false} WindowFront(s: seq<nat>, a: int, b: int)
    requires s != [] && a < b
    ensures Window(s, a, b) == Sample(s, a) + Window(s, a + 1, b)
    decreases b - a
  {
    if a < b - 1 { WindowFront(s, a, b - 1); }
  }

  /** The window moves by one. */
  lemma TriangleMoves(s: seq<nat>, r: nat, x: int)
    requires s != []
    ensures Triangle(s, r, x + 1) == Triangle(s, r, x) + Change(s, r, x)
  {
    var a, b := x - r, x + r + 2;
    MovedWeights(s, r, x, a, b);
    GainIsChange(s, x, a, b);
    WeightedFront(s, r, x + 1, a, b);
    assert Weight(r, a - (x + 1)) == 0 && Weight(r, b - 1 - x) == 0;
  }

  /** The difference changes by three samples. */
  lemma ChangeMoves(s: seq<nat>, r: nat, x: int)
    requires s != []
    ensures Change(s, r, x) == Change(s, r, x - 1) + Sample(s, x - r - 1) - 2 * Sample(s, x) + Sample(s, x + r + 1)
  {
    WindowFront(s, x, x + r + 1);
    WindowFront(s, x - r - 1, x);
  }

  // ----- The start of a line -----

  /** The samples before the first one count as the first. */
  lemma {:induction false} LeftEdge(s: seq<nat>, r: nat, n: nat)
    requires s != [] && n <= r
    ensures 2 * Weighted(s, r, 0, -(r as int), n - r + 1) == ((n + 1) * (n + 2)) * s[0]
    decreases n
  {
    var w := Weight(r, n - r);
    assert w == n + 1 && Sample(s, n - r) == s[0];
    if n == 0 {
      assert Weighted(s, r, 0, -(r as int), n - r) == 0;
    } else {
      LeftEdge(s, r, n - 1);
      assert Weighted(s, r, 0, -(r as int), n - r + 1) == Weighted(s, r, 0, -(r as int), n - r) + w * s[0];
      EdgeSum(n, s[0]);
    }
  }

  lemma EdgeSum(n: nat, c: nat)
    ensures (n * (n + 1)) * c + 2 * ((n + 1) * c) == ((n + 1) * (n + 2)) * c
  {
    assert (n + 1) * (n + 2) == n * (n + 1) + 2 * (n + 1);
    MulDistrib(n * (n + 1), 2 * (n + 1), c);
    MulAssoc(2, n + 1, c);
  }

  /** The difference before the first sample. */
  lemma {:induction false} StartChange(s: seq<nat>, r: nat, n: nat)
    requires s != []
    ensures Window(s, -(n as int), 0) == n * s[0]
    decreases n
  {
    if n > 0 {
      StartChange(s, r, n - 1);
      WindowFront(s, -(n as int), 0);
      MulDistrib(n - 1, 1, s[0]);
    }
  }

  // ----- Bounds -----

  /** The weights sum up to (r+1)^2. */
  lemma {:induction false} WeightedBound(s: seq<nat>, r: nat, x: int, n: nat, m: nat)
    requires s != [] && n <= 2 * r + 1 && forall v <- s :: v <= m
    ensures Weighted(s, r, x, x - r, x - r + n) <= WeightSum(r, n) * m
    decreases n
  {
    if n > 0 {
      WeightedBound(s, r, x, n - 1, m);
      var w, v := Weight(r, n - 1 - r), Sample(s, x - r + n - 1);
      assert v in s;
      MulMono(v, m, w);
      MulDistrib(WeightSum(r, n - 1), w, m);
    }
  }

  function WeightSum(r: nat, n: nat): (v: nat) { if n == 0 then 0 else WeightSum(r, n - 1) + Weight(r, n - 1 - r) }

  lemma {:induction false} RisingSum(r: nat, n: nat)
    requires n <= r + 1
    ensures 2 * WeightSum(r, n) == n * (n + 1)
  {
    if n > 0 { RisingSum(r, n - 1); }
  }

  lemma {:induction false} FallingSum(r: nat, n: nat)
    requires n <= r
    ensures 2 * WeightSum(r, r + 1 + n) == (r + 1) * (r + 2) + n * (2 * r + 1 - n)
  {
    if n == 0 {
      RisingSum(r, r + 1);
    } else {
      FallingSum(r, n - 1);
      assert Weight(r, n) == r + 1 - n;
      assert n * (2 * r + 1 - n) == (n - 1) * (2 * r + 1 - (n - 1)) + 2 * (r + 1 - n);
    }
  }

  lemma {:induction false} WeightedUniform(s: seq<nat>, r: nat, x: int, n: nat, v: nat)
    requires s != [] && forall i :: 0 <= i < |s| ==> s[i] == v
    ensures Weighted(s, r, x, x - r, x - r + n) == WeightSum(r, n) * v
  {
    hide Weight;
    if n == 0 {
    } else {
      WeightedUniform(s, r, x, n - 1, v);
      assert (x - r + n) - 1 - x == n - 1 - r;
      MulDistrib(WeightSum(r, n - 1), Weight(r, n - 1 - r), v);
    }
  }

  /** The weights add up to (r + 1)^2: samples that are all alike are multiplied by it, however the window is clamped. */
  lemma TriangleUniform(s: seq<nat>, r: nat, x: int, v: nat)
    requires s != [] && forall i :: 0 <= i < |s| ==> s[i] == v
    ensures Triangle(s, r, x) == ((r + 1) * (r + 1)) * v
  {
    WeightedUniform(s, r, x, 2 * r + 1, v);
    FallingSum(r, r);
    assert (r + 1) * (r + 2) + r * (2 * r + 1 - r) == 2 * ((r + 1) * (r + 1));
  }

  /** A convolution of samples up to `m` is at most (r+1)^2 times as large. */
  lemma TriangleBound(s: seq<nat>, r: nat, x: int, m: nat)
    requires s != [] && forall v <- s :: v <= m
    ensures Triangle(s, r, x) <= ((r + 1) * (r + 1)) * m
  {
    WeightedBound(s, r, x, 2 * r + 1, m);
    FallingSum(r, r);
    assert (r + 1) * (r + 2) + r * (2 * r + 1 - r) == 2 * ((r + 1) * (r + 1));
  }
}
