/**
 Bit strings and the numbers they spell.  A segment of entropy-coded data is a `seq<bool>`; reading beyond its
 end yields zero bits, as `jpeg_fill_bit_buffer` arranges by stuffing zeroes.
 */
module Bits {
  import opened Arith
  import Seqs

  function Pow2(n: nat): (p: nat)
    ensures p >= 1
  {
    if n == 0 then 1 else 2 * Pow2(n - 1)
  }

  lemma {:induction false} Pow2Add(a: nat, b: nat)
    ensures Pow2(a + b) == Pow2(a) * Pow2(b)
  {
    if b > 0 {
      Pow2Add(a, b - 1);
      MulDouble(Pow2(a), Pow2(b - 1));
    }
  }

  lemma {:induction false} Pow2Mono(a: nat, b: nat)
    requires a <= b
    ensures Pow2(a) <= Pow2(b)
  {
    if a < b { Pow2Mono(a, b - 1); }
  }

  /** Powers that appear as literals in the code. */
  lemma Pow2Literals()
    ensures Pow2(7) == 128 && Pow2(8) == 256 && Pow2(9) == 512 && Pow2(10) == 1024
    ensures Pow2(14) == 0x4000 && Pow2(15) == 0x8000 && Pow2(16) == 0x1_0000 && Pow2(17) == 0x2_0000
    ensures Pow2(24) == 0x100_0000 && Pow2(32) == 0x1_0000_0000
  {
    assert Pow2(3) == 8;
    assert Pow2(6) == 64;
    assert Pow2(8) == 256;
    assert Pow2(10) == 1024;
    assert Pow2(12) == 4096;
    Pow2Add(8, 8); Pow2Add(8, 16); Pow2Add(16, 16); Pow2Add(7, 7); Pow2Add(7, 8); Pow2Add(1, 16);
  }

  /** The bit at position `i`, zero beyond the end. */
  function BitAt(data: seq<bool>, i: nat): (b: nat)
    ensures b <= 1
  {
    if i < |data| && data[i] then 1 else 0
  }

  /** The value of the `k` bits from position `n` on, most significant first. */
  function Peek(data: seq<bool>, n: nat, k: nat): (v: nat)
    decreases k, n, data
  {
    if k == 0 then 0 else 2 * Peek(data, n, k - 1) + BitAt(data, n + k - 1)
  }

  lemma {:induction false} PeekBound(data: seq<bool>, n: nat, k: nat)
    ensures Peek(data, n, k) < Pow2(k)
  {
    if k > 0 { PeekBound(data, n, k - 1); }
  }

  lemma {:induction false} PeekSplit(data: seq<bool>, n: nat, j: nat, k: nat)
    ensures Peek(data, n, j + k) == Peek(data, n, j) * Pow2(k) + Peek(data, n + j, k)
  {
    if k > 0 {
      PeekSplit(data, n, j, k - 1);
      MulDouble(Peek(data, n, j), Pow2(k - 1));
      assert n + (j + k) - 1 == (n + j) + k - 1;
      assert j + k - 1 == j + (k - 1);
    }
  }

  lemma PeekDivMod(data: seq<bool>, n: nat, j: nat, k: nat)
    ensures Peek(data, n, j + k) / Pow2(k) == Peek(data, n, j)
    ensures Peek(data, n, j + k) % Pow2(k) == Peek(data, n + j, k)
  {
    PeekSplit(data, n, j, k);
    PeekBound(data, n + j, k);
    DivModUnique(Peek(data, n, j), Peek(data, n + j, k), Pow2(k), Peek(data, n, j + k));
  }

  lemma {:induction false} PeekAgree(a: seq<bool>, n: nat, b: seq<bool>, m: nat, k: nat)
    requires forall i :: n <= i < n + k ==> BitAt(a, i) == BitAt(b, i - n + m)
    ensures Peek(a, n, k) == Peek(b, m, k)
  {
    if k > 0 {
      PeekAgree(a, n, b, m, k - 1);
    }
  }

  /** The low `k` bits of `v` in two's complement, most significant first. */
  function ToBits(v: int, k: nat): (s: seq<bool>)
    ensures |s| == k
    decreases k, v
  {
    if k == 0 then [] else ToBits(v / 2, k - 1) + [v % 2 == 1]
  }

  lemma {:induction false} ToBitsPeek(v: int, k: nat)
    ensures Peek(ToBits(v, k), 0, k) == v % Pow2(k)
    decreases k
  {
    if k > 0 {
      ToBitsPeek(v / 2, k - 1);
      PeekAgree(ToBits(v, k), 0, ToBits(v / 2, k - 1), 0, k - 1);
      HalveMod(v, Pow2(k - 1));
    }
  }

  /** A field written between `pre` and `post` is read back from where it was written. */
  lemma PeekField(pre: seq<bool>, v: int, k: nat, post: seq<bool>)
    ensures Peek(pre + ToBits(v, k) + post, |pre|, k) == v % Pow2(k)
  {
    PeekAgree(pre + ToBits(v, k) + post, |pre|, ToBits(v, k), 0, k);
    ToBitsPeek(v, k);
  }

  /** Reading inside a prefix does not depend on what follows it. */
  lemma PeekPrefix(a: seq<bool>, b: seq<bool>, n: nat, k: nat)
    requires a <= b && n + k <= |a|
    ensures Peek(a, n, k) == Peek(b, n, k)
  {
    PeekAgree(a, n, b, n, k);
  }

  /** The bits of a byte string. */
  function Unpack(bytes: seq<nat>): (s: seq<bool>)
    ensures |s| == 8 * |bytes|
  {
    if bytes == [] then [] else Unpack(bytes[..|bytes| - 1]) + ToBits(bytes[|bytes| - 1], 8)
  }

  lemma UnpackSnoc(a: seq<nat>, x: nat)
    ensures Unpack(a + [x]) == Unpack(a) + ToBits(x, 8)
  {
    Seqs.SnocInit(a, x);
  }

  lemma {:induction false} UnpackPrefix(a: seq<nat>, b: seq<nat>)
    ensures Unpack(a + b) == Unpack(a) + Unpack(b)
    decreases |b|
  {
    if b == [] {
      assert a + b == a;
    } else {
      hide *;
      var b', x := b[..|b| - 1], b[|b| - 1];
      Seqs.InitLast(b);
      Seqs.Assoc(a, b', [x]);
      UnpackSnoc(a + b', x);
      UnpackPrefix(a, b');
      UnpackSnoc(b', x);
      Seqs.Assoc(Unpack(a), Unpack(b'), ToBits(x, 8));
    }
  }

  lemma UnpackOne(x: nat)
    ensures Unpack([x]) == ToBits(x, 8)
  {
    UnpackSnoc([], x);
    assert [] + [x] == [x];
  }

  /** Two bit strings of equal length with equal values are equal. */
  lemma {:induction false} PeekInjective(a: seq<bool>, b: seq<bool>)
    requires |a| == |b| && Peek(a, 0, |a|) == Peek(b, 0, |b|)
    ensures a == b
  {
    if a != [] {
      var m := |a| - 1;
      PeekAgree(a, 0, a[..m], 0, m);
      PeekAgree(b, 0, b[..m], 0, m);
      PeekInjective(a[..m], b[..m]);
      assert a == a[..m] + [a[m]] && b == b[..m] + [b[m]];
    }
  }

  /** Writing out the value of a field gives the field. */
  lemma ToBitsOfPeek(data: seq<bool>, n: nat, k: nat)
    requires n + k <= |data|
    ensures ToBits(Peek(data, n, k), k) == data[n..n + k]
  {
    var v := Peek(data, n, k);
    PeekBound(data, n, k);
    ToBitsPeek(v, k);
    DivModUnique(0, v, Pow2(k), v);
    PeekAgree(data, n, data[n..n + k], 0, k);
    PeekInjective(ToBits(v, k), data[n..n + k]);
  }

  /** Bitwise or of naturals. */
  function BitOr(a: nat, b: nat): (c: nat)
    decreases a + b
  {
    if a == 0 then b else if b == 0 then a
    else 2 * BitOr(a / 2, b / 2) + (if a % 2 == 1 || b % 2 == 1 then 1 else 0)
  }

  /** When the operands occupy disjoint fields, or is addition. */
  lemma {:induction false} BitOrDisjoint(q: nat, b: nat, k: nat)
    requires b < Pow2(k)
    ensures BitOr(q * Pow2(k), b) == q * Pow2(k) + b
    ensures BitOr(b, q * Pow2(k)) == q * Pow2(k) + b
    decreases k
  {
    var a := q * Pow2(k);
    if k == 0 {
      assert b == 0 && a == q;
    } else if a != 0 && b != 0 {
      assert a == 2 * (q * Pow2(k - 1));
      assert a % 2 == 0 && a / 2 == q * Pow2(k - 1);
      BitOrDisjoint(q, b / 2, k - 1);
    }
  }
}
