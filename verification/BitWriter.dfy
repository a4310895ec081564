/** The bit-level output of the entropy encoders: `emit_bits`, `flush_bits` and the marker bytes. */
module BitOutput {
  import opened Arith
  import opened Bits
  import opened Segments
  import Seqs

  function Ones(k: nat): (s: seq<bool>)
    ensures |s| == k
  {
    seq(k, i => true)
  }

  /** `bits` followed by the fewest one-bits that complete a byte. */
  function Padded(bits: seq<bool>): (s: seq<bool>)
    ensures |s| % 8 == 0 && |bits| <= |s| < |bits| + 8
  {
    bits + Ones((8 - |bits| % 8) % 8)
  }

  lemma TopByteLinear(buf: nat, h: nat, hi: nat, low: nat)
    requires buf == h * 0x100_0000 + hi * 0x1_0000 + low && hi < 256 && low < 0x1_0000
    ensures buf / 0x1_0000 % 256 == hi
    ensures (buf * 256 % 0x1_0000_0000) % 0x100_0000 == low * 256
  {
    DivModUnique(h * 256 + hi, low, 0x1_0000, buf);
    DivModUnique(h, hi, 256, h * 256 + hi);
    DivModUnique(h, hi * 0x100_0000 + low * 256, 0x1_0000_0000, buf * 256);
    DivModUnique(hi, low * 256, 0x100_0000, hi * 0x100_0000 + low * 256);
  }

  /** The fields of an accumulator that holds `n` left-justified bits in its low 24 bits. */
  lemma FieldProducts(hi: nat, lo: nat, n: nat)
    requires 8 <= n <= 24 && lo < Pow2(n - 8)
    ensures (hi * Pow2(n - 8) + lo) * Pow2(24 - n) == hi * 0x1_0000 + lo * Pow2(24 - n)
    ensures lo * Pow2(24 - n) < 0x1_0000
    ensures lo * Pow2(24 - (n - 8)) == (lo * Pow2(24 - n)) * 256
  {
    hide *;
    Pow2Literals();
    Pow2Add(n - 8, 24 - n);
    Pow2Add(24 - n, 8);
    assert 24 - (n - 8) == (24 - n) + 8;
    MulDistrib(hi * Pow2(n - 8), lo, Pow2(24 - n));
    MulAssoc(hi, Pow2(n - 8), Pow2(24 - n));
    MulAssoc(lo, Pow2(24 - n), 256);
    MulBelow(lo, Pow2(n - 8), Pow2(24 - n));
  }

  /** What one round of the output loop takes off the top of the accumulator, and what it leaves. */
  lemma TopByte(buf: nat, hi: nat, lo: nat, n: nat)
    requires 8 <= n <= 24 && hi < 256 && lo < Pow2(n - 8)
    requires buf % 0x100_0000 == (hi * Pow2(n - 8) + lo) * Pow2(24 - n)
    ensures buf / 0x1_0000 % 256 == hi
    ensures (buf * 256 % 0x1_0000_0000) % 0x100_0000 == lo * Pow2(24 - (n - 8))
  {
    hide *;
    FieldProducts(hi, lo, n);
    TopByteLinear(buf, buf / 0x100_0000, hi, lo * Pow2(24 - n));
  }

  lemma MergeProducts(pend: nat, n: nat, v: nat, k: nat)
    requires n <= 7 && k <= 16 && v < Pow2(k) && pend < Pow2(n)
    ensures (pend * Pow2(k) + v) * Pow2(24 - (n + k)) == pend * Pow2(24 - n) + v * Pow2(24 - (n + k))
    ensures v * Pow2(24 - (n + k)) < Pow2(24 - n)
    ensures pend * Pow2(24 - n) + Pow2(24 - n) <= 0x100_0000
  {
    hide *;
    Pow2Literals();
    var m := 24 - (n + k);
    Pow2Add(k, m);
    Pow2Add(n, 24 - n);
    assert 24 - n == k + m;
    MulDistrib(pend * Pow2(k), v, Pow2(m));
    MulAssoc(pend, Pow2(k), Pow2(m));
    MulBelow(v, Pow2(k), Pow2(m));
    MulBelow(pend, Pow2(n), Pow2(24 - n));
  }

  lemma MultipleOfField(buf: nat, pend: nat, n: nat)
    requires n <= 24 && buf % 0x100_0000 == pend * Pow2(24 - n)
    ensures buf == (buf / 0x100_0000 * Pow2(n) + pend) * Pow2(24 - n)
  {
    hide *;
    Pow2Literals();
    var h := buf / 0x100_0000;
    Pow2Add(n, 24 - n);
    MulDistrib(h * Pow2(n), pend, Pow2(24 - n));
    MulAssoc(h, Pow2(n), Pow2(24 - n));
  }

  lemma OrLow(buf: nat, q: nat, x: nat, k: nat)
    requires buf == q * Pow2(k) && x < Pow2(k)
    ensures BitOr(x, buf) == buf + x
  {
    hide *;
    BitOrDisjoint(q, x, k);
  }

  lemma AddLow(buf: nat, y: nat, x: nat, z: nat)
    requires buf % 0x100_0000 == y && y + x == z < 0x100_0000
    ensures (buf + x) % 0x100_0000 == z
  {
    DivModUnique(buf / 0x100_0000, z, 0x100_0000, buf + x);
  }

  lemma MergeOr(buf: nat, pend: nat, n: nat, v: nat, k: nat)
    requires n <= 7 && k <= 16 && v < Pow2(k) && pend < Pow2(n) && buf % 0x100_0000 == pend * Pow2(24 - n)
    ensures BitOr(v * Pow2(24 - (n + k)), buf) == buf + v * Pow2(24 - (n + k))
  {
    hide *;
    MergeProducts(pend, n, v, k);
    MultipleOfField(buf, pend, n);
    OrLow(buf, buf / 0x100_0000 * Pow2(n) + pend, v * Pow2(24 - (n + k)), 24 - n);
  }

  lemma MergeSum(buf: nat, pend: nat, n: nat, v: nat, k: nat)
    requires n <= 7 && k <= 16 && v < Pow2(k) && pend < Pow2(n) && buf % 0x100_0000 == pend * Pow2(24 - n)
    ensures (buf + v * Pow2(24 - (n + k))) % 0x100_0000 == (pend * Pow2(k) + v) * Pow2(24 - (n + k))
  {
    hide *;
    MergeProducts(pend, n, v, k);
    AddLow(buf, pend * Pow2(24 - n), v * Pow2(24 - (n + k)), (pend * Pow2(k) + v) * Pow2(24 - (n + k)));
  }

  /** Merging a field of `k` bits below the `n` bits that are pending. */
  lemma MergeField(buf: nat, pend: nat, n: nat, v: nat, k: nat)
    requires n <= 7 && k <= 16 && v < Pow2(k) && pend < Pow2(n) && buf % 0x100_0000 == pend * Pow2(24 - n)
    ensures BitOr(v * Pow2(24 - (n + k)), buf) % 0x100_0000 == (pend * Pow2(k) + v) * Pow2(24 - (n + k))
  {
    hide *;
    MergeOr(buf, pend, n, v, k);
    MergeSum(buf, pend, n, v, k);
  }

  /** The next whole byte of a bit string. */
  lemma NextBytePacks(bits: seq<bool>, bytes: seq<nat>, m: nat)
    requires m == |Unpack(bytes)| && m + 8 <= |bits| && Unpack(bytes) <= bits
    ensures Peek(bits, m, 8) < 256
    ensures Unpack(bytes + [Peek(bits, m, 8)]) == bits[..m + 8]
  {
    hide *;
    Pow2Literals();
    var c := Peek(bits, m, 8);
    ToBitsOfPeek(bits, m, 8);
    UnpackSnoc(bytes, c);
    Seqs.Join(bits, m, m + 8);
    PeekBound(bits, m, 8);
  }

  lemma NextByteValue(bits: seq<bool>, m: nat, n: nat)
    requires 8 <= n
    ensures Peek(bits, m, n) == Peek(bits, m, 8) * Pow2(n - 8) + Peek(bits, m + 8, n - 8)
    ensures Peek(bits, m + 8, n - 8) < Pow2(n - 8)
  {
    hide *;
    PeekBound(bits, m + 8, n - 8);
    PeekSplit(bits, m, 8, n - 8);
  }

  /** `buf` holds, left-justified in its low 24 bits, the `n` bits that follow the complete bytes. */
  ghost predicate Accumulates(bits: seq<bool>, bytes: seq<nat>, buf: nat, n: nat) {
    && n < 24
    && AreBytes(bytes)
    && Unpack(bytes) <= bits
    && |bits| == |Unpack(bytes)| + n
    && buf % 0x100_0000 == Peek(bits, |Unpack(bytes)|, n) * Pow2(24 - n)
  }

  /** The byte about to leave the accumulator. */
  function HighByte(buf: nat): (c: nat) { buf / 0x1_0000 % 256 }

  /** The accumulator after that byte is shifted out of its low 24 bits (32-bit arithmetic). */
  function ShiftByte(buf: nat): (b: nat) { buf * 256 % 0x1_0000_0000 }

  /** The accumulator after the low `size` bits of `code` are merged below `n` pending bits. */
  function Merge(buf: nat, n: nat, code: int, size: nat): (b: nat)
    requires n + size <= 24
  {
    BitOr(code % Pow2(size) * Pow2(24 - (n + size)), buf)
  }

  /** One round of the output loop. */
  lemma TakeByte(bits: seq<bool>, bytes: seq<nat>, buf: nat, n: nat)
    requires Accumulates(bits, bytes, buf, n) && 8 <= n
    ensures HighByte(buf) == Peek(bits, |Unpack(bytes)|, 8)
    ensures Accumulates(bits, bytes + [HighByte(buf)], ShiftByte(buf), n - 8)
  {
    hide Pow2, Peek, Unpack, ToBits;
    var m := |Unpack(bytes)|;
    NextByteValue(bits, m, n);
    NextBytePacks(bits, bytes, m);
    TopByte(buf, Peek(bits, m, 8), Peek(bits, m + 8, n - 8), n);
  }

  /** Accepting a field. */
  lemma PutField(bits: seq<bool>, bytes: seq<nat>, buf: nat, n: nat, code: int, size: nat)
    requires Accumulates(bits, bytes, buf, n) && n <= 7 && size <= 16
    ensures Accumulates(bits + ToBits(code, size), bytes, Merge(buf, n, code, size), n + size)
  {
    hide Pow2, Peek, Unpack, ToBits, BitOr;
    var m := |Unpack(bytes)|;
    PeekBound(bits, m, n);
    MergeField(buf, Peek(bits, m, n), n, code % Pow2(size), size);
    AppendField(bits, m, n, code, size);
  }

  lemma AppendField(bits: seq<bool>, m: nat, n: nat, code: int, size: nat)
    requires |bits| == m + n
    ensures Peek(bits + ToBits(code, size), m, n + size) == Peek(bits, m, n) * Pow2(size) + code % Pow2(size)
  {
    var b := bits + ToBits(code, size);
    PeekSplit(b, m, n, size);
    PeekPrefix(bits, b, m, n);
    PeekField(bits, code, size, []);
    assert bits + ToBits(code, size) + [] == b;
  }

  class BitWriter {
    var out: seq<nat>          // bytes handed to the destination
    var putBuffer: nat         // bit accumulator; its low 24 bits hold the pending bits, left-justified
    var putBits: nat
    ghost var done: seq<(seq<nat>, nat)>  // finished segments: data bytes and the marker after them
    ghost var bytes: seq<nat>             // complete data bytes of the current segment
    ghost var bits: seq<bool>             // everything written to the current segment

    ghost predicate Valid()
      reads this
    {
      putBits <= 7 && out == Join(done) + Stuff(bytes) && Accumulates(bits, bytes, putBuffer, putBits)
    }

    constructor ()
      ensures Valid() && done == [] && bits == [] && out == []
    {
      out, putBuffer, putBits := [], 0, 0;
      done, bytes, bits := [], [], [];
    }

    /** Hands a data byte to the destination, stuffing a zero byte after FF. */
    method EmitByte(c: nat)
      requires out == Join(done) + Stuff(bytes)
      modifies this`out, this`bytes
      ensures out == Join(done) + Stuff(bytes) && bytes == old(bytes) + [c]
    {
      StuffSnoc(bytes, c);
      Seqs.Assoc(Join(done), Stuff(bytes), StuffByte(c));
      out := out + [c];
      if c == 0xFF {
        out := out + [0];
      }
      bytes := bytes + [c];
    }

    /** Appends the low `size` bits of `code`; a size of 0 marks a symbol without a code and is refused. */
    method EmitBits(code: int, size: nat) returns (ok: bool)
      requires Valid() && size <= 16
      modifies this
      ensures Valid() && done == old(done)
      ensures ok == (size != 0)
      ensures bits == old(bits) + ToBits(code, size)
    {
      if size == 0 {
        assert bits + ToBits(code, 0) == bits;
        return false;
      }
      hide Accumulates, Merge, HighByte, ShiftByte, Join, Stuff, ToBits;
      PutField(bits, bytes, putBuffer, putBits, code, size);
      var n: nat := putBits + size;
      var buf := Merge(putBuffer, putBits, code, size);
      bits := bits + ToBits(code, size);
      while n >= 8
        invariant out == Join(done) + Stuff(bytes) && Accumulates(bits, bytes, buf, n)
        invariant done == old(done) && bits == old(bits) + ToBits(code, size)
      {
        TakeByte(bits, bytes, buf, n);
        EmitByte(HighByte(buf));
        buf, n := ShiftByte(buf), n - 8;
      }
      putBuffer, putBits := buf, n;
      ok := true;
    }

    /** Completes the last byte with one-bits and empties the accumulator. */
    method FlushBits()
      requires Valid()
      modifies this
      ensures Valid() && done == old(done)
      ensures putBits == 0 && bits == Padded(old(bits)) && Unpack(bytes) == bits && AreBytes(bytes)
    {
      hide Join, Stuff, ToBits, Padded, Accumulates;
      var ok := EmitBits(0x7F, 7);
      Flushed(old(bits), bits, bytes, putBuffer, putBits);
      putBuffer, putBits := 0, 0;
      bits := Unpack(bytes);
    }

    /** Ends the segment with a marker, as `emit_restart` does after flushing. */
    method EmitMarker(m: nat)
      requires Valid() && putBits == 0 && IsMarker(m)
      modifies this
      ensures Valid() && bits == [] && putBits == 0
      ensures done == old(done) + [(old(bytes), m)]
    {
      out := out + [0xFF, m];
      done := done + [(bytes, m)];
      assert done[..|done| - 1] == old(done);
      assert (Join(old(done)) + Stuff(bytes)) + [0xFF, m] == Join(old(done)) + (Stuff(bytes) + [0xFF, m]);
      bytes, bits := [], [];
    }
  }

  /** What is left of the seven one-bits is dropped; the accumulator then holds nothing. */
  lemma Flushed(before: seq<bool>, after: seq<bool>, bytes: seq<nat>, buf: nat, n: nat)
    requires after == before + ToBits(0x7F, 7) && Accumulates(after, bytes, buf, n) && n <= 7
    ensures AreBytes(bytes) && Unpack(bytes) == Padded(before) && Accumulates(Unpack(bytes), bytes, 0, 0)
  {
    hide ToBits, Padded, Peek;
    FlushedBits(before, after, Unpack(bytes));
    PeekNone(Unpack(bytes), |Unpack(bytes)|);
  }

  lemma PeekNone(bits: seq<bool>, n: nat)
    ensures Peek(bits, n, 0) == 0
  {
  }

  lemma FlushedBits(before: seq<bool>, after: seq<bool>, whole: seq<bool>)
    requires after == before + ToBits(0x7F, 7)
    requires whole <= after && |whole| % 8 == 0 && |after| <= |whole| + 7
    ensures whole == Padded(before)
  {
    SevenOnes();
  }

  lemma SevenOnes()
    ensures ToBits(0x7F, 7) == Ones(7)
  {
    assert ToBits(1, 1) == [true];
    assert ToBits(7, 3) == [true, true, true];
    assert ToBits(0x7F, 7) == [true, true, true, true, true, true, true];
  }
}
