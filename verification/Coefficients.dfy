/** DCT blocks: zigzag order, coefficient magnitudes, and the point transforms of successive approximation. */
module Coefficients {
  import opened Arith
  import opened Bits

  const DCTSIZE2 := 64
  const MAX_COEF_BITS := 10

  /** `jpeg_natural_order`, with its extra entries for corrupt data. */
  function NaturalOrder(k: nat): (p: nat)
    ensures p < 64
  {
    match k
    case 0 => 0 case 1 => 1 case 2 => 8 case 3 => 16 case 4 => 9 case 5 => 2 case 6 => 3 case 7 => 10
    case 8 => 17 case 9 => 24 case 10 => 32 case 11 => 25 case 12 => 18 case 13 => 11 case 14 => 4 case 15 => 5
    case 16 => 12 case 17 => 19 case 18 => 26 case 19 => 33 case 20 => 40 case 21 => 48 case 22 => 41 case 23 => 34
    case 24 => 27 case 25 => 20 case 26 => 13 case 27 => 6 case 28 => 7 case 29 => 14 case 30 => 21 case 31 => 28
    case 32 => 35 case 33 => 42 case 34 => 49 case 35 => 56 case 36 => 57 case 37 => 50 case 38 => 43 case 39 => 36
    case 40 => 29 case 41 => 22 case 42 => 15 case 43 => 23 case 44 => 30 case 45 => 37 case 46 => 44 case 47 => 51
    case 48 => 58 case 49 => 59 case 50 => 52 case 51 => 45 case 52 => 38 case 53 => 31 case 54 => 39 case 55 => 46
    case 56 => 53 case 57 => 60 case 58 => 61 case 59 => 54 case 60 => 47 case 61 => 55 case 62 => 62 case _ => 63
  }

  /** The place of a natural-order position in zigzag order. */
  function ZigzagIndex(p: nat): (k: nat)
    ensures k < 64
  {
    match p
    case 0 => 0 case 1 => 1 case 2 => 5 case 3 => 6 case 4 => 14 case 5 => 15 case 6 => 27 case 7 => 28
    case 8 => 2 case 9 => 4 case 10 => 7 case 11 => 13 case 12 => 16 case 13 => 26 case 14 => 29 case 15 => 42
    case 16 => 3 case 17 => 8 case 18 => 12 case 19 => 17 case 20 => 25 case 21 => 30 case 22 => 41 case 23 => 43
    case 24 => 9 case 25 => 11 case 26 => 18 case 27 => 24 case 28 => 31 case 29 => 40 case 30 => 44 case 31 => 53
    case 32 => 10 case 33 => 19 case 34 => 23 case 35 => 32 case 36 => 39 case 37 => 45 case 38 => 52 case 39 => 54
    case 40 => 20 case 41 => 22 case 42 => 33 case 43 => 38 case 44 => 46 case 45 => 51 case 46 => 55 case 47 => 60
    case 48 => 21 case 49 => 34 case 50 => 37 case 51 => 47 case 52 => 50 case 53 => 56 case 54 => 59 case 55 => 61
    case 56 => 35 case 57 => 36 case 58 => 48 case 59 => 49 case 60 => 57 case 61 => 58 case 62 => 62 case _ => 63
  }

  lemma OrderThenIndex(k: nat)
    requires k < 64
    ensures ZigzagIndex(NaturalOrder(k)) == k
  {
    if k < 16 {} else if k < 32 {} else if k < 48 {} else {}
  }

  lemma IndexThenOrder(p: nat)
    requires p < 64
    ensures NaturalOrder(ZigzagIndex(p)) == p
  {
    if p < 8 {} else if p < 16 {} else if p < 24 {} else if p < 32 {}
    else if p < 40 {} else if p < 48 {} else if p < 56 {} else {}
  }

  /**
   The order of figure 5 of ITU-T T.81: diagonal by diagonal, on odd diagonals downwards and on even ones upwards.  Position p lies in
   row p / 8 and column p % 8.
   */
  predicate Earlier(p: nat, q: nat) {
    var r, c, s, d := p / 8, p % 8, q / 8, q % 8;
    r + c < s + d || (r + c == s + d && if (r + c) % 2 == 1 then r < s else s < r)
  }

  lemma EarlierTrans(p: nat, q: nat, r: nat)
    requires Earlier(p, q) && Earlier(q, r)
    ensures Earlier(p, r) && p != r
  {
  }

  lemma NextInQuarter0(k: nat)
    requires 0 <= k < 16
    ensures Earlier(NaturalOrder(k), NaturalOrder(k + 1))
  {
    if k < 4 {} else if k < 8 {} else if k < 12 {} else {}
  }

  lemma NextInQuarter1(k: nat)
    requires 16 <= k < 32
    ensures Earlier(NaturalOrder(k), NaturalOrder(k + 1))
  {
    if k < 20 {} else if k < 24 {} else if k < 28 {} else {}
  }

  lemma NextInQuarter2(k: nat)
    requires 32 <= k < 48
    ensures Earlier(NaturalOrder(k), NaturalOrder(k + 1))
  {
    if k < 36 {} else if k < 40 {} else if k < 44 {} else {}
  }

  lemma NextInQuarter3(k: nat)
    requires 48 <= k < 63
    ensures Earlier(NaturalOrder(k), NaturalOrder(k + 1))
  {
    if k < 52 {} else if k < 56 {} else if k < 60 {} else {}
  }

  lemma NextInOrder(k: nat)
    requires k < 63
    ensures Earlier(NaturalOrder(k), NaturalOrder(k + 1))
  {
    hide *;
    if k < 16 { NextInQuarter0(k); } else if k < 32 { NextInQuarter1(k); } else if k < 48 { NextInQuarter2(k); } else { NextInQuarter3(k); }
  }

  /** `jpeg_natural_order` is this order. */
  lemma {:induction false} ZigzagOrder(j: nat, k: nat)
    requires j < k < 64
    ensures Earlier(NaturalOrder(j), NaturalOrder(k)) && !Earlier(NaturalOrder(k), NaturalOrder(j))
    decreases k
  {
    hide NaturalOrder, Earlier;
    NextInOrder(k - 1);
    if j < k - 1 {
      ZigzagOrder(j, k - 1);
      EarlierTrans(NaturalOrder(j), NaturalOrder(k - 1), NaturalOrder(k));
    }
    if Earlier(NaturalOrder(k), NaturalOrder(j)) { EarlierTrans(NaturalOrder(k), NaturalOrder(j), NaturalOrder(k)); }
  }

  /** The first `k` entries. */
  function FirstOnes(k: nat): (s: set<nat>) { set j: nat | j < k :: NaturalOrder(j) }

  lemma {:induction false} ManyOnes(k: nat)
    requires k <= 64
    ensures |FirstOnes(k)| == k
  {
    hide NaturalOrder;
    if k > 0 {
      ManyOnes(k - 1);
      assert FirstOnes(k) == FirstOnes(k - 1) + {NaturalOrder(k - 1)};
      forall j: nat | j < k - 1 ensures NaturalOrder(j) != NaturalOrder(k - 1) {
        OrderThenIndex(j);
        OrderThenIndex(k - 1);
      }
    }
  }

  /** Entry `k` is the position that has `k` positions before it. */
  lemma ZigzagCounts(k: nat)
    requires k < 64
    ensures |set p: nat | p < 64 && Earlier(p, NaturalOrder(k))| == k
  {
    hide NaturalOrder, ZigzagIndex, Earlier;
    ManyOnes(k);
    forall p: nat | p < 64 ensures Earlier(p, NaturalOrder(k)) <==> p in FirstOnes(k) {
      IndexThenOrder(p);
      var j := ZigzagIndex(p);
      if j < k {
        ZigzagOrder(j, k);
      } else if k < j {
        ZigzagOrder(k, j);
        OnlyThere(p, k, j);
      } else {
        OnlyThere(p, k, j);
        if Earlier(p, p) { EarlierTrans(p, p, p); }
      }
    }
    assert (set p: nat | p < 64 && Earlier(p, NaturalOrder(k))) == FirstOnes(k) by {
      forall p | p in FirstOnes(k) ensures p < 64 {}
    }
  }

  lemma OnlyThere(p: nat, k: nat, j: nat)
    requires k <= j < 64 && NaturalOrder(j) == p
    ensures p !in FirstOnes(k)
  {
    hide NaturalOrder, ZigzagIndex;
    OrderThenIndex(j);
    forall i: nat | i < k ensures NaturalOrder(i) != p { OrderThenIndex(i); }
  }

  /** The coefficients of a block in zigzag order. */
  function Zigzag(block: seq<int>): (z: seq<int>)
    requires |block| == 64
    ensures |z| == 64 && forall k :: 0 <= k < 64 ==> z[k] == block[NaturalOrder(k)]
  {
    seq(64, k requires 0 <= k < 64 => block[NaturalOrder(k)])
  }

  /** Where an index that may lie past the end of the block is written. */
  function Place(k: nat): (i: nat)
    ensures i < 64
  {
    if k < 64 then k else 63
  }

  /** The zigzag order loses nothing. */
  lemma ZigzagInjective(a: seq<int>, b: seq<int>)
    requires |a| == |b| == 64 && Zigzag(a) == Zigzag(b)
    ensures a == b
  {
    hide NaturalOrder, ZigzagIndex;
    forall p | 0 <= p < 64 ensures a[p] == b[p] {
      IndexThenOrder(p);
      assert Zigzag(a)[ZigzagIndex(p)] == Zigzag(b)[ZigzagIndex(p)];
    }
  }

  lemma OrderBeyond(k: nat)
    requires 64 <= k
    ensures NaturalOrder(k) == NaturalOrder(63)
  {
  }

  lemma ZigzagUpdate(block: seq<int>, k: nat, v: int)
    requires |block| == 64
    ensures Zigzag(block[NaturalOrder(k) := v]) == Zigzag(block)[Place(k) := v]
  {
    hide NaturalOrder, ZigzagIndex;
    if k >= 64 { OrderBeyond(k); }
    var a, b := Zigzag(block[NaturalOrder(k) := v]), Zigzag(block)[Place(k) := v];
    forall i | 0 <= i < 64 ensures a[i] == b[i] {
      OrderThenIndex(i);
      OrderThenIndex(Place(k));
    }
  }

  /** Conversion to JCOEF, a 16-bit integer. */
  function ToShort(v: int): (s: int)
    ensures -0x8000 <= s < 0x8000
  {
    (v + 0x8000) % 0x1_0000 - 0x8000
  }

  lemma ShortIsShort(v: int)
    requires -0x8000 <= v < 0x8000
    ensures ToShort(v) == v
  {
    DivModUnique(0, v + 0x8000, 0x1_0000, v + 0x8000);
  }

  /** Coefficients that are JCOEFs. */
  predicate ShortCoefs(z: seq<int>) { forall i :: 0 <= i < |z| ==> -0x8000 <= z[i] < 0x8000 }

  lemma ShortZigzag(block: seq<int>)
    requires |block| == 64 && ShortCoefs(block)
    ensures ShortCoefs(Zigzag(block))
  {
    hide NaturalOrder;
  }

  function Abs(v: int): (a: nat) { if v < 0 then -v else v }

  // ----- Magnitudes -----

  /** The number of bits of a natural number. */
  function NumBits(v: nat): (k: nat)
    ensures v == 0 <==> k == 0
  {
    if v == 0 then 0 else 1 + NumBits(v / 2)
  }

  lemma {:induction false} NumBitsBounds(v: nat)
    requires v > 0
    ensures Pow2(NumBits(v) - 1) <= v < Pow2(NumBits(v))
  {
    if v > 1 { NumBitsBounds(v / 2); }
  }

  /** The number of bits is the least exponent that exceeds the value. */
  lemma NumBitsLeast(v: nat, k: nat)
    ensures NumBits(v) <= k <==> v < Pow2(k)
  {
    if v > 0 {
      NumBitsBounds(v);
      if NumBits(v) <= k { Pow2Mono(NumBits(v), k); } else { Pow2Mono(k, NumBits(v) - 1); }
    }
  }

  /** The loop that counts the bits of a DC difference. */
  method BitLength(v: nat) returns (nbits: nat)
    ensures nbits == NumBits(v)
  {
    var temp: nat := v;
    nbits := 0;
    while temp != 0
      invariant nbits + NumBits(temp) == NumBits(v)
    {
      nbits, temp := nbits + 1, temp / 2;
    }
  }

  /** The loop that counts the bits of a nonzero coefficient. */
  method BitLengthNonzero(v: nat) returns (nbits: nat)
    requires v > 0
    ensures nbits == NumBits(v)
  {
    var temp: nat := v / 2;
    nbits := 1;
    while temp != 0
      invariant nbits + NumBits(temp) == NumBits(v)
    {
      nbits, temp := nbits + 1, temp / 2;
    }
  }

  /** What is emitted for a value: itself if positive, the complement of its magnitude if negative. */
  function ValueBits(v: int): (b: int) { if v < 0 then v - 1 else v }

  /** HUFF_EXTEND (figure F.12 of ITU-T T.81). */
  function Extend(x: nat, s: nat): (v: int)
    requires 1 <= s
  {
    if x < Pow2(s - 1) then x + (1 - Pow2(s)) else x
  }

  /** The decoder's sign extension undoes the encoder's choice of bits. */
  lemma ExtendInverse(v: int)
    requires v != 0
    ensures Extend(ValueBits(v) % Pow2(NumBits(Abs(v))), NumBits(Abs(v))) == v
  {
    hide NumBits;
    var s := NumBits(Abs(v));
    NumBitsBounds(Abs(v));
    assert Pow2(s) == 2 * Pow2(s - 1);
    if v < 0 {
      DivModUnique(-1, v - 1 + Pow2(s), Pow2(s), v - 1);
    } else {
      DivModUnique(0, v, Pow2(s), v);
    }
  }

  /**
   The bits of a value (section F.1.2.1.1 of ITU-T T.81): as many as its magnitude has, a positive value as it is and a negative one
   complemented bit by bit, so that the first bit tells the sign.
   */
  lemma ValueBitsAre(v: int)
    requires v != 0
    ensures var s := NumBits(Abs(v));
            && s > 0 && Pow2(s - 1) <= Abs(v) < Pow2(s)
            && ValueBits(v) % Pow2(s) == (if v > 0 then v else Pow2(s) - 1 - Abs(v))
            && (ValueBits(v) % Pow2(s) >= Pow2(s - 1) <==> v > 0)
  {
    hide NumBits;
    var s := NumBits(Abs(v));
    NumBitsBounds(Abs(v));
    assert Pow2(s) == 2 * Pow2(s - 1);
    if v < 0 {
      DivModUnique(-1, v - 1 + Pow2(s), Pow2(s), v - 1);
    } else {
      DivModUnique(0, v, Pow2(s), v);
    }
  }

  // ----- Successive approximation -----

  function ShiftRight(a: nat, al: nat): (v: nat) {
    DivNonNeg(a, Pow2(al));
    a / Pow2(al)
  }

  /** The point transform of AC coefficients: division by 2^Al with rounding towards zero. */
  function Shift(c: int, al: nat): (v: int)
    ensures Abs(v) == ShiftRight(Abs(c), al)
    ensures v < 0 ==> c < 0
    ensures v > 0 ==> c > 0
  {
    if c < 0 then 0 - ShiftRight(-c, al) else ShiftRight(c, al)
  }

  /** A coefficient as it is known after a scan with the given Al. */
  function Truncated(c: int, al: nat): (v: int) { Shift(c, al) * Pow2(al) }

  /** The same for DC coefficients, whose point transform is an arithmetic shift. */
  function FloorTo(c: int, al: nat): (v: int) { c / Pow2(al) * Pow2(al) }

  /**
   What the point transforms leave of a coefficient (sections G.1.2.1 and G.1.2.2 of ITU-T T.81): the multiple of 2^Al next to it in the
   direction of zero, or next below it for DC.
   */
  lemma PointTransforms(c: int, al: nat)
    ensures Truncated(c, al) % Pow2(al) == 0 && FloorTo(c, al) % Pow2(al) == 0
    ensures c >= 0 ==> 0 <= Truncated(c, al) <= c < Truncated(c, al) + Pow2(al)
    ensures c <= 0 ==> Truncated(c, al) - Pow2(al) < c <= Truncated(c, al) <= 0
    ensures FloorTo(c, al) <= c < FloorTo(c, al) + Pow2(al)
  {
    hide *;
    TruncatedIs(c, al);
    FloorIs(c, Pow2(al));
    FloorToIs(c, al);
  }

  lemma FloorToIs(c: int, al: nat)
    ensures FloorTo(c, al) == c / Pow2(al) * Pow2(al)
  {
  }

  lemma FloorIs(c: int, p: nat)
    requires p > 0
    ensures c / p * p <= c < c / p * p + p && (c / p * p) % p == 0 && (-(c / p * p)) % p == 0
  {
    var q := c / p;
    assert (-q) * p == -(q * p);
    DivModUnique(q, 0, p, q * p);
    DivModUnique(-q, 0, p, (-q) * p);
  }

  lemma TruncatedIs(c: int, al: nat)
    ensures var p, m := Pow2(al), Abs(c) / Pow2(al) * Pow2(al);
            && p > 0 && Truncated(c, al) == (if c < 0 then -m else m) && (c == 0 ==> m == 0)
            && m <= Abs(c) < m + p && m % p == 0 && (-m) % p == 0 && Abs(c) == (if c < 0 then -c else c) && m >= 0
  {
    hide Pow2;
    var p, q := Pow2(al), Abs(c) / Pow2(al);
    FloorIs(Abs(c), p);
    DivNonNeg(Abs(c), p);
    MulNonNeg(q, p);
    assert (0 - q) * p == -(q * p);
  }

  lemma TruncatedAtZero(c: int)
    ensures Truncated(c, 0) == c && FloorTo(c, 0) == c
  {
  }
}
