/**
 Successive approximation of AC coefficients (section G.1.2.3 of ITU-T T.81): the tokens of a refinement scan, how the
 decoder reads them, and that reading them takes a band from precision Al+1 to Al.
 */
module AcRefine {
  import opened Arith
  import opened Bits
  import opened Coefficients
  import opened HuffDecoding
  import opened HuffTables
  import opened RunLength
  import opened Tokens
  import Seqs

  // ----- Encoding -----

  /** Magnitudes after the point transform. */
  function Mags(z: seq<int>, al: nat): (m: seq<nat>)
    ensures |m| == |z| && forall k :: 0 <= k < |z| ==> m[k] == ShiftRight(Abs(z[k]), al)
  {
    seq(|z|, k requires 0 <= k < |z| => ShiftRight(Abs(z[k]), al))
  }

  /** The first coefficient from `k` on that becomes nonzero in this scan; beyond `se` if there is none. */
  function NextNew(m: seq<nat>, k: nat, se: nat): (q: nat)
    requires se < |m| && k <= se + 1
    ensures k <= q <= se + 1
    ensures q <= se ==> m[q] == 1
    ensures forall i :: k <= i < q ==> m[i] != 1
    decreases se + 1 - k
  {
    if k > se || m[k] == 1 then k else NextNew(m, k + 1, se)
  }

  /** How many coefficients in [a, b) were zero before this scan. */
  function NumZeros(m: seq<nat>, a: nat, b: nat): (r: nat)
    requires a <= b <= |m|
    ensures r <= b - a
    decreases b - a, m
  {
    if a == b then 0 else NumZeros(m, a, b - 1) + if m[b - 1] <= 1 then 1 else 0
  }

  /** The correction bits of the other coefficients in [a, b). */
  function Corrections(m: seq<nat>, a: nat, b: nat): (bits: seq<nat>)
    requires a <= b <= |m|
    ensures |bits| == (b - a) - NumZeros(m, a, b)
    decreases b - a, m
  {
    if a == b then [] else Corrections(m, a, b - 1) + if m[b - 1] > 1 then [m[b - 1] % 2] else []
  }

  /** Where the decoder stops that passes `r` coefficients that were zero before. */
  function Stop(m: seq<nat>, g: nat, r: nat, se: nat): (p: nat)
    requires se < |m| && g <= se + 1
    ensures g <= p <= se + 1
    ensures p <= se ==> m[p] <= 1 && NumZeros(m, g, p) == r
    ensures p > se ==> NumZeros(m, g, p) <= r
    decreases se + 1 - g, r
  {
    if g > se then g
    else if m[g] > 1 then ZerosFront(m, g, Stop(m, g + 1, r, se)); Stop(m, g + 1, r, se)
    else if r == 0 then g
    else ZerosFront(m, g, Stop(m, g + 1, r - 1, se)); Stop(m, g + 1, r - 1, se)
  }

  lemma {:induction false} ZerosFront(m: seq<nat>, a: nat, b: nat)
    requires a < b <= |m|
    ensures NumZeros(m, a, b) == NumZeros(m, a + 1, b) + if m[a] <= 1 then 1 else 0
    ensures Corrections(m, a, b) == (if m[a] > 1 then [m[a] % 2] else []) + Corrections(m, a + 1, b)
    decreases b
  {
    if b == a + 1 {
      assert Corrections(m, a + 1, b) == [];
    } else {
      ZerosFront(m, a, b - 1);
      Seqs.Assoc(if m[a] > 1 then [m[a] % 2] else [], Corrections(m, a + 1, b - 1), if m[b - 1] > 1 then [m[b - 1] % 2] else []);
    }
  }

  function BitTokens(bits: seq<nat>): (toks: seq<Token>)
    ensures |toks| == |bits| && forall i :: 0 <= i < |bits| ==> toks[i] == Raw(bits[i], 1)
  {
    seq(|bits|, i requires 0 <= i < |bits| => Raw(bits[i], 1))
  }

  /** The tokens for a newly nonzero coefficient at `q`, in the group that starts at `g`. */
  function NewTokens(m: seq<nat>, z: seq<int>, t: nat, g: nat, q: nat): (toks: seq<Token>)
    requires g <= q < |m| == |z|
  {
    [Sym(t, NumZeros(m, g, q) * 16 + 1), Raw(if z[q] < 0 then 0 else 1, 1)] + BitTokens(Corrections(m, g, q))
  }

  function ZrlTokens(m: seq<nat>, t: nat, g: nat, p: nat): (toks: seq<Token>)
    requires g <= p <= |m|
  {
    [Sym(t, ZRL)] + BitTokens(Corrections(m, g, p))
  }

  /** The tokens of the band from `g` on, up to the last newly nonzero coefficient. */
  function RefineTokens(m: seq<nat>, z: seq<int>, t: nat, g: nat, se: nat): (toks: seq<Token>)
    requires se < |m| == |z| && g <= se + 1
    decreases se + 1 - g
  {
    var q, p := NextNew(m, g, se), Stop(m, g, 15, se);
    if q > se then []
    else if p < q then ZrlTokens(m, t, g, p) + RefineTokens(m, z, t, p + 1, se)
    else NewTokens(m, z, t, g, q) + RefineTokens(m, z, t, q + 1, se)
  }

  /** The position after the last newly nonzero coefficient. */
  function RefineEnd(m: seq<nat>, g: nat, se: nat): (e: nat)
    requires se < |m| && g <= se + 1
    ensures g <= e <= se + 1 && forall i :: e <= i <= se ==> m[i] != 1
    decreases se + 1 - g
  {
    var q, p := NextNew(m, g, se), Stop(m, g, 15, se);
    if q > se then g
    else if p < q then RefineEnd(m, p + 1, se)
    else RefineEnd(m, q + 1, se)
  }

  // ----- Decoding -----

  /** A correction bit: it is applied unless the coefficient's bit is set already. */
  function Correct(c: int, b: nat, al: nat): (c': int) {
    if b == 1 && c / Pow2(al) % 2 == 0 then ToShort(if c >= 0 then c + Pow2(al) else c - Pow2(al)) else c
  }

  datatype Walk = Walk(n: nat, k: nat, z: seq<int>)

  /** Passes over nonzero coefficients, correcting them, and over `r` zeros. */
  function Advance(data: seq<bool>, n: nat, k: nat, r: nat, se: nat, al: nat, z: seq<int>): (w: Walk)
    requires |z| == 64 && se < 64 && k <= se + 1
    ensures n <= w.n && k <= w.k <= se + 1 && |w.z| == 64
    decreases se + 1 - k, r
  {
    if k > se then Walk(n, k, z)
    else if z[k] != 0 then Advance(data, n + 1, k + 1, r, se, al, z[k := Correct(z[k], BitAt(data, n), al)])
    else if r == 0 then Walk(n, k, z)
    else Advance(data, n, k + 1, r - 1, se, al, z)
  }

  /** What is left of a band after its last symbol: the position, and the length of the EOB run that begins here. */
  datatype RefineCode = RefineCode(n: nat, k: nat, eobrun: nat, z: seq<int>)

  function NewValue(b: nat, al: nat): (v: int) { if b != 0 then Pow2(al) else 0 - Pow2(al) }

  function ReadRefine(h: HuffTable, data: seq<bool>, n: nat, k: nat, se: nat, al: nat, z: seq<int>): (c: RefineCode)
    requires h.WellTyped() && Count(h.bits, 16) <= 256 && |z| == 64 && se < 64 && k <= se + 2
    ensures n <= c.n && k <= c.k <= se + 2 && |c.z| == 64
    decreases se + 2 - k
  {
    if k > se then RefineCode(n, k, 0, z)
    else
      var s, n1 := DecodeSymbol(h, data, n), n + DecodeLength(h.bits, data, n);
      if s % 16 != 0 then
        var w := Advance(data, n1 + 1, k, s / 16, se, al, z);
        ReadRefine(h, data, w.n, w.k + 1, se, al, w.z[Place(w.k) := NewValue(BitAt(data, n1), al)])
      else if s / 16 == 15 then
        var w := Advance(data, n1, k, 15, se, al, z);
        ReadRefine(h, data, w.n, w.k + 1, se, al, w.z)
      else RefineCode(n1 + s / 16, k, Pow2(s / 16) + Peek(data, n1, s / 16), z)
  }

  /** Corrects all nonzero coefficients from `k` on. */
  function CorrectRest(data: seq<bool>, n: nat, k: nat, se: nat, al: nat, z: seq<int>): (r: (nat, seq<int>))
    requires |z| == 64 && se < 64
    ensures n <= r.0 && |r.1| == 64
    decreases se + 1 - k
  {
    if k > se then (n, z)
    else if z[k] != 0 then CorrectRest(data, n + 1, k + 1, se, al, z[k := Correct(z[k], BitAt(data, n), al)])
    else CorrectRest(data, n, k + 1, se, al, z)
  }

  // ----- Round trip -----

  /** Below `k` the band is known to precision Al, from `k` on to precision Al+1; outside the band `base` shows. */
  function Blend(z: seq<int>, base: seq<int>, ss: nat, k: nat, se: nat, al: nat): (b: seq<int>)
    requires |z| == |base| == 64
    ensures |b| == 64
    ensures forall i :: 0 <= i < 64 ==> b[i] == if i < ss || i > se then base[i]
                                               else if i < k then Truncated(z[i], al) else Truncated(z[i], al + 1)
  {
    seq(64, i requires 0 <= i < 64 => if i < ss || i > se then base[i]
                                      else if i < k then Truncated(z[i], al) else Truncated(z[i], al + 1))
  }

  lemma ShiftTwice(a: nat, al: nat)
    ensures ShiftRight(a, al) == 2 * ShiftRight(a, al + 1) + ShiftRight(a, al) % 2
  {
    var p, m := Pow2(al), a / Pow2(al);
    DivNonNeg(a, p);
    MulDouble(m / 2, p);
    MulDistrib(2 * (m / 2), m % 2, p);
    assert (m % 2) * p == if m % 2 == 0 then 0 else p;
    assert 2 * (m / 2) * p == 2 * ((m / 2) * p) by { MulAssoc(2, m / 2, p); }
    DivModUnique(m / 2, (m % 2) * p + a % p, 2 * p, a);
  }

  lemma SignOfMultiple(e: int, p: nat)
    requires p > 0 && e != 0
    ensures e * p != 0 && (e * p < 0 <==> e < 0) && (e * p) / p == e
  {
    if e < 0 { MulMono(e, -1, p); } else { MulMono(1, e, p); }
    DivModUnique(e, 0, p, e * p);
  }

  /** The correction of an even multiple of 2^Al is the next multiple away from zero. */
  lemma CorrectMultiple(e: int, b: nat, al: nat)
    requires e != 0 && e % 2 == 0 && b <= 1
    ensures e * Pow2(al) != 0
    ensures Correct(e * Pow2(al), b, al) == if b == 0 then e * Pow2(al)
                                           else ToShort((if e < 0 then e - 1 else e + 1) * Pow2(al))
  {
    hide Pow2, ToShort;
    SignOfMultiple(e, Pow2(al));
    MulDistrib(e, 1, Pow2(al));
    MulDistrib(e, -1, Pow2(al));
  }

  /** A coefficient that was nonzero before is corrected by its next magnitude bit. */
  lemma CorrectsTo(c: int, al: nat)
    requires -0x8000 <= c < 0x8000 && ShiftRight(Abs(c), al) > 1
    ensures Truncated(c, al + 1) != 0
    ensures Correct(Truncated(c, al + 1), ShiftRight(Abs(c), al) % 2, al) == Truncated(c, al)
  {
    hide Pow2, ToShort, ShiftRight, Correct, Truncated;
    var m: int, h: int := ShiftRight(Abs(c), al), ShiftRight(Abs(c), al + 1);
    ShiftTwice(Abs(c), al);
    TruncatedScale(c, al);
    TruncatedShort(c, al);
    CorrectMultiple(if c < 0 then 0 - 2 * h else 2 * h, m % 2, al);
  }

  lemma TruncatedScale(c: int, al: nat)
    ensures var h := ShiftRight(Abs(c), al + 1);
            Truncated(c, al + 1) == (if c < 0 then 0 - 2 * h else 2 * h) * Pow2(al)
    ensures var m := ShiftRight(Abs(c), al);
            Truncated(c, al) == (if c < 0 then 0 - m else m) * Pow2(al)
  {
    hide ShiftRight;
    var h: int := ShiftRight(Abs(c), al + 1);
    assert Pow2(al + 1) == 2 * Pow2(al);
    MulAssoc(h, 2, Pow2(al));
    MulAssoc(0 - h, 2, Pow2(al));
  }

  lemma TruncatedShort(c: int, al: nat)
    requires -0x8000 <= c < 0x8000
    ensures -0x8000 <= Truncated(c, al) < 0x8000 && ToShort(Truncated(c, al)) == Truncated(c, al)
  {
    hide ToShort, Pow2;
    var q := Abs(c) / Pow2(al);
    DivNonNeg(Abs(c), Pow2(al));
    assert q * Pow2(al) <= Abs(c);
    MulNonNeg(q, Pow2(al));
    assert (-q) * Pow2(al) == -(q * Pow2(al));
    var v := Truncated(c, al);
    ShortIsShort(v);
  }

  lemma NotYet(c: int, al: nat)
    requires ShiftRight(Abs(c), al) <= 1
    ensures Truncated(c, al + 1) == 0
    ensures ShiftRight(Abs(c), al) == 0 ==> Truncated(c, al) == 0
    ensures ShiftRight(Abs(c), al) == 1 ==> Truncated(c, al) == NewValue(if c < 0 then 0 else 1, al)
  {
    hide Pow2, ShiftRight;
    ShiftTwice(Abs(c), al);
    TruncatedScale(c, al);
  }

  /** One-bit fields stand at bit `n`. */
  predicate BitsStand(data: seq<bool>, n: nat, bits: seq<nat>) {
    forall i :: 0 <= i < |bits| ==> BitAt(data, n + i) == bits[i]
  }

  lemma ReadsBit(data: seq<bool>, n: nat, v: int)
    requires Stands(data, n, ToBits(v, 1))
    ensures BitAt(data, n) == v % 2
  {
    assert ToBits(v, 1) == ToBits(v / 2, 0) + [v % 2 == 1];
    assert data[n] == ToBits(v, 1)[0];
  }

  lemma {:induction false} ReadsBits(ets: seq<EncTable>, data: seq<bool>, n: nat, bits: seq<nat>)
    requires Stands(data, n, TokenBits(ets, BitTokens(bits))) && forall b <- bits :: b <= 1
    ensures BitsStand(data, n, bits) && |TokenBits(ets, BitTokens(bits))| == |bits|
    decreases |bits|
  {
    hide Stands, TokenBits, BitAt, BitsStand;
    if bits == [] {
      NoTokens(ets);
      NoBits(data, n);
    } else {
      var rest := bits[1..];
      assert BitTokens(bits) == [Raw(bits[0], 1)] + BitTokens(rest);
      TokenBitsConcat(ets, [Raw(bits[0], 1)], BitTokens(rest));
      TokenBitsOne(ets, Raw(bits[0], 1));
      StandsSplit(data, n, ToBits(bits[0], 1), TokenBits(ets, BitTokens(rest)));
      ReadsBit(data, n, bits[0]);
      assert bits[0] in bits;
      forall b | b in rest ensures b <= 1 { assert b in bits; }
      ReadsBits(ets, data, n + 1, rest);
      BitsCons(data, n, bits[0], rest);
      Seqs.ConsTail(bits);
    }
  }

  lemma NoBits(data: seq<bool>, n: nat)
    ensures BitsStand(data, n, [])
  {
  }

  lemma BitsCons(data: seq<bool>, n: nat, b: nat, rest: seq<nat>)
    requires BitAt(data, n) == b && BitsStand(data, n + 1, rest)
    ensures BitsStand(data, n, [b] + rest)
  {
    hide BitAt;
    var all := [b] + rest;
    forall i | 0 <= i < |all| ensures BitAt(data, n + i) == all[i] {
      if i > 0 { assert BitAt(data, n + 1 + (i - 1)) == rest[i - 1]; }
    }
  }

  lemma BitsTail(data: seq<bool>, n: nat, b: nat, rest: seq<nat>)
    requires BitsStand(data, n, [b] + rest)
    ensures BitAt(data, n) == b && BitsStand(data, n + 1, rest)
  {
    hide BitAt;
    var all := [b] + rest;
    assert BitAt(data, n + 0) == all[0];
    forall i | 0 <= i < |rest| ensures BitAt(data, n + 1 + i) == rest[i] {
      assert BitAt(data, n + (1 + i)) == all[1 + i];
    }
  }

  lemma {:induction false} CorrectionsSmall(m: seq<nat>, a: nat, b: nat)
    requires a <= b <= |m|
    ensures forall x <- Corrections(m, a, b) :: x <= 1
    decreases b
  {
    if a < b { CorrectionsSmall(m, a, b - 1); }
  }

  lemma BlendHistory(z: seq<int>, base: seq<int>, ss: nat, k: nat, se: nat, al: nat)
    requires |z| == |base| == 64 && ss <= k <= se < 64 && ShortCoefs(z) && Mags(z, al)[k] > 1
    ensures Blend(z, base, ss, k, se, al)[k] != 0
    ensures var b := Blend(z, base, ss, k, se, al);
            b[k := Correct(b[k], Mags(z, al)[k] % 2, al)] == Blend(z, base, ss, k + 1, se, al)
  {
    hide Truncated, Correct, ShiftRight;
    CorrectsTo(z[k], al);
  }

  lemma BlendZero(z: seq<int>, base: seq<int>, ss: nat, k: nat, se: nat, al: nat)
    requires |z| == |base| == 64 && ss <= k <= se < 64 && Mags(z, al)[k] <= 1
    ensures Blend(z, base, ss, k, se, al)[k] == 0
    ensures Mags(z, al)[k] == 0 ==> Blend(z, base, ss, k, se, al) == Blend(z, base, ss, k + 1, se, al)
    ensures Mags(z, al)[k] == 1 ==>
              Blend(z, base, ss, k, se, al)[k := NewValue(if z[k] < 0 then 0 else 1, al)] == Blend(z, base, ss, k + 1, se, al)
  {
    hide Truncated, ShiftRight, NewValue;
    NotYet(z[k], al);
  }

  /** The decoder's walk to the place of a symbol. */
  lemma {:induction false} AdvanceReads(z: seq<int>, base: seq<int>, ss: nat, g: nat, q: nat, se: nat, al: nat,
                                        data: seq<bool>, n: nat)
    requires |z| == |base| == 64 && ss <= g <= q <= se < 64 && ShortCoefs(z)
    requires Mags(z, al)[q] <= 1 && forall i :: g <= i < q ==> Mags(z, al)[i] != 1
    requires BitsStand(data, n, Corrections(Mags(z, al), g, q))
    ensures Advance(data, n, g, NumZeros(Mags(z, al), g, q), se, al, Blend(z, base, ss, g, se, al))
         == Walk(n + |Corrections(Mags(z, al), g, q)|, q, Blend(z, base, ss, q, se, al))
    decreases q - g
  {
    hide Truncated, Correct, ShiftRight, NewValue, BitAt, ShortCoefs, Blend, Mags, BitsStand;
    var m := Mags(z, al);
    if g == q {
      BlendZero(z, base, ss, g, se, al);
    } else {
      ZerosFront(m, g, q);
      if m[g] > 1 {
        BlendHistory(z, base, ss, g, se, al);
        BitsTail(data, n, m[g] % 2, Corrections(m, g + 1, q));
        AdvanceReads(z, base, ss, g + 1, q, se, al, data, n + 1);
      } else {
        BlendZero(z, base, ss, g, se, al);
        assert [] + Corrections(m, g + 1, q) == Corrections(m, g + 1, q);
        AdvanceReads(z, base, ss, g + 1, q, se, al, data, n);
      }
    }
  }

  /** The corrections after the last newly nonzero coefficient. */
  lemma {:induction false} RestReads(z: seq<int>, base: seq<int>, ss: nat, g: nat, se: nat, al: nat, data: seq<bool>, n: nat)
    requires |z| == |base| == 64 && ss <= g <= se + 1 && se < 64 && ShortCoefs(z)
    requires forall i :: g <= i <= se ==> Mags(z, al)[i] != 1
    requires BitsStand(data, n, Corrections(Mags(z, al), g, se + 1))
    ensures CorrectRest(data, n, g, se, al, Blend(z, base, ss, g, se, al))
         == (n + |Corrections(Mags(z, al), g, se + 1)|, Blend(z, base, ss, se + 1, se, al))
    decreases se + 1 - g
  {
    hide Truncated, Correct, ShiftRight, NewValue, BitAt, ShortCoefs, Blend, Mags, BitsStand;
    var m := Mags(z, al);
    if g <= se {
      ZerosFront(m, g, se + 1);
      if m[g] > 1 {
        BlendHistory(z, base, ss, g, se, al);
        BitsTail(data, n, m[g] % 2, Corrections(m, g + 1, se + 1));
        RestReads(z, base, ss, g + 1, se, al, data, n + 1);
      } else {
        BlendZero(z, base, ss, g, se, al);
        assert [] + Corrections(m, g + 1, se + 1) == Corrections(m, g + 1, se + 1);
        RestReads(z, base, ss, g + 1, se, al, data, n);
      }
    }
  }

  // ----- A whole band -----

  lemma StopAfterNew(m: seq<nat>, g: nat, se: nat)
    requires se < |m| && g <= se + 1
    ensures var q, p := NextNew(m, g, se), Stop(m, g, 15, se);
            && (q <= se && p >= q ==> NumZeros(m, g, q) <= 15)
            && (p < q ==> p <= se && m[p] == 0 && NumZeros(m, g, p) == 15)
  {
    var q, p := NextNew(m, g, se), Stop(m, g, 15, se);
    if q <= p { ZerosMono(m, g, q, p); }
  }

  lemma {:induction false} ZerosMono(m: seq<nat>, g: nat, a: nat, b: nat)
    requires g <= a <= b <= |m|
    ensures NumZeros(m, g, a) <= NumZeros(m, g, b)
    decreases b
  {
    if a < b { ZerosMono(m, g, a, b - 1); }
  }

  /** Decoding from bit `n` and coefficient `g` comes to bit `n'` and coefficient `e`, with the band refined up to there. */
  ghost predicate ReadsTo(h: HuffTable, data: seq<bool>, n: nat, g: nat, n': nat, e: nat, z: seq<int>, base: seq<int>,
                          ss: nat, se: nat, al: nat)
    requires |z| == |base| == 64 && Decodable(h) && se < 64 && g <= se + 2 && e <= se + 2
  {
    ReadRefine(h, data, n, g, se, al, Blend(z, base, ss, g, se, al))
      == ReadRefine(h, data, n', e, se, al, Blend(z, base, ss, e, se, al))
  }

  /** A ZRL symbol and the corrections that go with it. */
  lemma ZrlReads(h: HuffTable, ets: seq<EncTable>, t: nat, z: seq<int>, base: seq<int>, ss: nat, g: nat, p: nat, se: nat,
                 al: nat, data: seq<bool>, n: nat)
    requires |z| == |base| == 64 && ss <= g <= p <= se < 64 && ShortCoefs(z) && Decodable(h)
    requires t < |ets| && Matches(h, ets[t])
    requires var m := Mags(z, al);
             && m[p] == 0 && NumZeros(m, g, p) == 15 && (forall i :: g <= i < p ==> m[i] != 1)
             && AllCoded(ets, ZrlTokens(m, t, g, p)) && Stands(data, n, TokenBits(ets, ZrlTokens(m, t, g, p)))
    ensures ReadsTo(h, data, n, g, n + |TokenBits(ets, ZrlTokens(Mags(z, al), t, g, p))|, p + 1, z, base, ss, se, al)
  {
    hide DecodeSymbol, DecodeLength, Matches, Stands, TokenBits, AllCoded, Blend, Corrections, Advance, BitsStand, BitTokens,
         ShortCoefs, NumZeros, Mags, Count;
    var m := Mags(z, al);
    var bits := Corrections(m, g, p);
    StandsTokens(ets, data, n, [Sym(t, ZRL)], BitTokens(bits));
    OneCoded(ets, Sym(t, ZRL));
    ReadsSymbol(h, ets, t, data, n, ZRL);
    CorrectionsSmall(m, g, p);
    var n1 := n + DecodeLength(h.bits, data, n);
    ReadsBits(ets, data, n1, bits);
    AdvanceReads(z, base, ss, g, p, se, al, data, n1);
    BlendZero(z, base, ss, p, se, al);
  }

  /** The symbol of a newly nonzero coefficient, its sign, and the corrections that go with it. */
  lemma NewReads(h: HuffTable, ets: seq<EncTable>, t: nat, z: seq<int>, base: seq<int>, ss: nat, g: nat, q: nat, se: nat,
                 al: nat, data: seq<bool>, n: nat)
    requires |z| == |base| == 64 && ss <= g <= q <= se < 64 && ShortCoefs(z) && Decodable(h)
    requires t < |ets| && Matches(h, ets[t])
    requires var m := Mags(z, al);
             && m[q] == 1 && NumZeros(m, g, q) <= 15 && (forall i :: g <= i < q ==> m[i] != 1)
             && AllCoded(ets, NewTokens(m, z, t, g, q)) && Stands(data, n, TokenBits(ets, NewTokens(m, z, t, g, q)))
    ensures ReadsTo(h, data, n, g, n + |TokenBits(ets, NewTokens(Mags(z, al), z, t, g, q))|, q + 1, z, base, ss, se, al)
  {
    hide DecodeSymbol, DecodeLength, Matches, Stands, TokenBits, AllCoded, Blend, Corrections, Advance, BitsStand, BitTokens,
         ShortCoefs, NumZeros, Mags, Count, NewValue, BitAt;
    var m := Mags(z, al);
    var bits, r, sign := Corrections(m, g, q), NumZeros(m, g, q), if z[q] < 0 then 0 else 1;
    var sym, raw := Sym(t, r * 16 + 1), Raw(sign, 1);
    assert NewTokens(m, z, t, g, q) == [sym] + ([raw] + BitTokens(bits));
    StandsTokens(ets, data, n, [sym], [raw] + BitTokens(bits));
    OneCoded(ets, sym);
    ReadsSymbol(h, ets, t, data, n, r * 16 + 1);
    var n1 := n + DecodeLength(h.bits, data, n);
    StandsTokens(ets, data, n1, [raw], BitTokens(bits));
    TokenBitsOne(ets, raw);
    ReadsBit(data, n1, sign);
    CorrectionsSmall(m, g, q);
    ReadsBits(ets, data, n1 + 1, bits);
    AdvanceReads(z, base, ss, g, q, se, al, data, n1 + 1);
    BlendZero(z, base, ss, q, se, al);
    DivModUnique(r, 1, 16, r * 16 + 1);
  }

  /** Reading the tokens of a band, up to its last newly nonzero coefficient. */
  lemma {:induction false} RefineReads(h: HuffTable, ets: seq<EncTable>, t: nat, z: seq<int>, base: seq<int>, ss: nat, g: nat,
                                       se: nat, al: nat, data: seq<bool>, n: nat)
    requires |z| == |base| == 64 && ss <= g <= se + 1 && se < 64 && ShortCoefs(z) && Decodable(h)
    requires t < |ets| && Matches(h, ets[t])
    requires AllCoded(ets, RefineTokens(Mags(z, al), z, t, g, se))
    requires Stands(data, n, TokenBits(ets, RefineTokens(Mags(z, al), z, t, g, se)))
    ensures var m := Mags(z, al);
            ReadsTo(h, data, n, g, n + |TokenBits(ets, RefineTokens(m, z, t, g, se))|, RefineEnd(m, g, se), z, base, ss, se, al)
    decreases se + 1 - g
  {
    hide *;
    var m := Mags(z, al);
    MagsLength(z, al);
    var q, p := NextNew(m, g, se), Stop(m, g, 15, se);
    StopAfterNew(m, g, se);
    if q > se {
      RefineNone(m, z, t, g, se);
      NoTokens(ets);
      ReadsSelf(h, data, n, g, z, base, ss, se, al);
    } else if p < q {
      RefineZrl(m, z, t, g, se);
      StandsTokens(ets, data, n, ZrlTokens(m, t, g, p), RefineTokens(m, z, t, p + 1, se));
      ZrlReads(h, ets, t, z, base, ss, g, p, se, al, data, n);
      var n1 := n + |TokenBits(ets, ZrlTokens(m, t, g, p))|;
      RefineReads(h, ets, t, z, base, ss, p + 1, se, al, data, n1);
      ReadsTrans(h, data, n, g, n1, p + 1, n1 + |TokenBits(ets, RefineTokens(m, z, t, p + 1, se))|, RefineEnd(m, g, se), z, base, ss, se, al);
    } else {
      RefineNew(m, z, t, g, se);
      StandsTokens(ets, data, n, NewTokens(m, z, t, g, q), RefineTokens(m, z, t, q + 1, se));
      NewReads(h, ets, t, z, base, ss, g, q, se, al, data, n);
      var n1 := n + |TokenBits(ets, NewTokens(m, z, t, g, q))|;
      RefineReads(h, ets, t, z, base, ss, q + 1, se, al, data, n1);
      ReadsTrans(h, data, n, g, n1, q + 1, n1 + |TokenBits(ets, RefineTokens(m, z, t, q + 1, se))|, RefineEnd(m, g, se), z, base, ss, se, al);
    }
  }

  lemma MagsLength(z: seq<int>, al: nat)
    ensures |Mags(z, al)| == |z|
  {
  }

  lemma ReadsSelf(h: HuffTable, data: seq<bool>, n: nat, g: nat, z: seq<int>, base: seq<int>, ss: nat, se: nat, al: nat)
    requires |z| == |base| == 64 && Decodable(h) && se < 64 && g <= se + 2
    ensures ReadsTo(h, data, n, g, n, g, z, base, ss, se, al)
  {
    hide ReadRefine, Blend;
  }

  lemma ReadsTrans(h: HuffTable, data: seq<bool>, n: nat, g: nat, n1: nat, g1: nat, n2: nat, g2: nat, z: seq<int>,
                   base: seq<int>, ss: nat, se: nat, al: nat)
    requires |z| == |base| == 64 && Decodable(h) && se < 64 && g <= se + 2 && g1 <= se + 2 && g2 <= se + 2
    requires ReadsTo(h, data, n, g, n1, g1, z, base, ss, se, al) && ReadsTo(h, data, n1, g1, n2, g2, z, base, ss, se, al)
    ensures ReadsTo(h, data, n, g, n2, g2, z, base, ss, se, al)
  {
    hide ReadRefine, Blend;
  }

  lemma RefineNone(m: seq<nat>, z: seq<int>, t: nat, g: nat, se: nat)
    requires se < |m| == |z| && g <= se + 1 && NextNew(m, g, se) > se
    ensures RefineTokens(m, z, t, g, se) == [] && RefineEnd(m, g, se) == g
  {
  }

  lemma RefineZrl(m: seq<nat>, z: seq<int>, t: nat, g: nat, se: nat)
    requires se < |m| == |z| && g <= se + 1 && Stop(m, g, 15, se) < NextNew(m, g, se) <= se
    ensures var p := Stop(m, g, 15, se);
            && RefineTokens(m, z, t, g, se) == ZrlTokens(m, t, g, p) + RefineTokens(m, z, t, p + 1, se)
            && RefineEnd(m, g, se) == RefineEnd(m, p + 1, se)
  {
    hide ZrlTokens, NewTokens, Stop, NextNew;
  }

  lemma RefineNew(m: seq<nat>, z: seq<int>, t: nat, g: nat, se: nat)
    requires se < |m| == |z| && g <= se + 1 && NextNew(m, g, se) <= se && NextNew(m, g, se) <= Stop(m, g, 15, se)
    ensures var q := NextNew(m, g, se);
            && RefineTokens(m, z, t, g, se) == NewTokens(m, z, t, g, q) + RefineTokens(m, z, t, q + 1, se)
            && RefineEnd(m, g, se) == RefineEnd(m, q + 1, se)
  {
    hide ZrlTokens, NewTokens, Stop, NextNew;
  }
}
