/** The bit-level input of the entropy decoders: `jpeg_fill_bit_buffer` and the bit-fetching macros. */
module BitInput {
  import opened Arith
  import opened Bits
  import opened Segments
  import Seqs

  const MIN_GET_BITS := 25

  /** The working copy of the bit-reading state; `left` low bits of `buf` are unread. */
  datatype BitState = BitState(pos: nat, buf: nat, left: nat)

  /** At most 31 bits are unread, so that their number fits five bits. */
  predicate Packable(st: BitState) { st.left <= 31 }

  /** The low `left` bits of `buf` are the bits of `data` from position `n` on. */
  ghost predicate Holds(buf: nat, left: nat, data: seq<bool>, n: nat) {
    left <= 32 && buf % Pow2(left) == Peek(data, n, left)
  }

  lemma HoldsAtMost32(buf: nat, left: nat, data: seq<bool>, n: nat)
    requires Holds(buf, left, data, n)
    ensures left <= 32
  {
  }

  function ShiftIn(buf: nat, c: nat): (b: nat) { BitOr(buf * 256 % 0x1_0000_0000, c) }

  function ShiftZeros(buf: nat, k: nat): (b: nat) { buf * Pow2(k) % 0x1_0000_0000 }

  /** PEEK_BITS: the top `k` of the `left` unread bits. */
  function TopBits(buf: nat, left: nat, k: nat): (v: nat)
    requires k <= left
  {
    buf / Pow2(left - k) % Pow2(k)
  }

  lemma ShiftInSum(buf: nat, c: nat)
    requires c < 256
    ensures ShiftIn(buf, c) == buf * 256 % 0x1_0000_0000 + c
  {
    Pow2Literals();
    var q := buf % 0x100_0000;
    DivModUnique(buf / 0x100_0000, q * 256, 0x1_0000_0000, buf * 256);
    BitOrDisjoint(q, c, 8);
  }

  /** Loading a byte. */
  lemma LoadByte(buf: nat, left: nat, data: seq<bool>, n: nat, c: nat)
    requires Holds(buf, left, data, n) && left <= 24 && c < 256 && Peek(data, n + left, 8) == c
    ensures Holds(ShiftIn(buf, c), left + 8, data, n)
  {
    hide Pow2, Peek, ShiftIn, BitOr;
    Pow2Literals();
    ShiftInSum(buf, c);
    Pow2Add(left, 8);
    Pow2Add(left + 8, 24 - left);
    PeekSplit(data, n, left, 8);
    var p, r := Pow2(left + 8), Pow2(24 - left);
    ScaleAdd(buf, Pow2(left), 256, Peek(data, n, left), c);
    LowSum(buf * 256, c, p, r);
  }

  lemma {:induction false} PeekBeyond(data: seq<bool>, n: nat, k: nat)
    requires |data| <= n
    ensures Peek(data, n, k) == 0
  {
    if k > 0 { PeekBeyond(data, n, k - 1); }
  }

  /** Stuffing zero bits once the segment is exhausted. */
  lemma LoadZeros(buf: nat, left: nat, data: seq<bool>, n: nat, k: nat)
    requires Holds(buf, left, data, n) && left + k <= 32 && |data| <= n + left
    ensures Holds(ShiftZeros(buf, k), left + k, data, n)
  {
    hide Pow2, Peek;
    Pow2Literals();
    PeekSplit(data, n, left, k);
    PeekBeyond(data, n + left, k);
    Pow2Add(left, k);
    Pow2Add(left + k, 32 - (left + k));
    ScaleAdd(buf, Pow2(left), Pow2(k), Peek(data, n, left), 0);
    LowSum(buf * Pow2(k), 0, Pow2(left + k), Pow2(32 - (left + k)));
  }

  /** Reading and dropping `k` bits. */
  lemma TakeBits(buf: nat, left: nat, data: seq<bool>, n: nat, k: nat)
    requires Holds(buf, left, data, n) && k <= left
    ensures TopBits(buf, left, k) == Peek(data, n, k)
    ensures Holds(buf, left - k, data, n + k)
  {
    hide Pow2, Peek;
    PeekSplit(data, n, k, left - k);
    PeekBound(data, n, k);
    PeekBound(data, n + k, left - k);
    Pow2Add(k, left - k);
    SplitResidue(buf, Pow2(k), Pow2(left - k), Peek(data, n, k), Peek(data, n + k, left - k));
  }

  /** `data` from position `m` on is what the stream holds from byte `pos` to the end of the segment. */
  ghost predicate Follows(file: seq<nat>, pos: nat, seg: Segment, data: seq<bool>, m: nat) {
    && pos <= |file| && m <= |data|
    && Scan(file, pos).marker == seg.marker
    && Scan(file, pos).next == seg.next
    && data[m..] == Unpack(Scan(file, pos).data)
  }

  lemma FollowsBounds(file: seq<nat>, pos: nat, seg: Segment, data: seq<bool>, m: nat)
    requires Follows(file, pos, seg, data, m)
    ensures pos <= |file| && m <= |data| && Scan(file, pos).marker == seg.marker && Scan(file, pos).next == seg.next
  {
  }

  lemma MarkerFollows(file: seq<nat>, pos: nat, seg: Segment, data: seq<bool>, m: nat, marker: nat, pos': nat)
    requires Follows(file, pos, seg, data, m) && Scan(file, pos) == Segment([], marker, pos')
    ensures marker == seg.marker && pos' == seg.next && m == |data|
  {
    assert |data[m..]| == 0;
  }

  /** Consuming one data byte of the stream. */
  lemma NextByteFollows(file: seq<nat>, pos: nat, seg: Segment, data: seq<bool>, m: nat, c: nat, pos': nat)
    requires Follows(file, pos, seg, data, m) && pos' <= |file| && c < 256
    requires Scan(file, pos) == Scan(file, pos').(data := [c] + Scan(file, pos').data)
    ensures m + 8 <= |data| && Follows(file, pos', seg, data, m + 8)
    ensures Peek(data, m, 8) == c
  {
    hide Scan, Peek;
    var rest := Scan(file, pos').data;
    UnpackPrefix([c], rest);
    UnpackOne(c);
    assert data[m..] == ToBits(c, 8) + Unpack(rest);
    assert data[m + 8..] == data[m..][8..];
    Pow2Literals();
    ToBitsPeek(c, 8);
    PeekSlice(data, m, ToBits(c, 8));
  }

  lemma PeekSlice(data: seq<bool>, m: nat, w: seq<bool>)
    requires m + |w| <= |data| && w <= data[m..]
    ensures Peek(data, m, |w|) == Peek(w, 0, |w|)
  {
    hide Peek;
    forall i | m <= i < m + |w| ensures BitAt(data, i) == BitAt(w, i - m + 0) {
      assert data[i] == data[m..][i - m];
    }
    PeekAgree(data, m, w, 0, |w|);
  }

  /** The input side of a decompressor: the data source and the flags that outlive an MCU. */
  class BitSource {
    const file: seq<nat>         // everything the source will ever deliver
    var avail: nat               // how much of it has been delivered
    var unreadMarker: nat        // marker that stopped the reader, 0 if none
    var insufficient: bool       // zero bits have been made up for this segment
    ghost var seg: Segment       // the segment being read
    ghost var data: seq<bool>    // its bits

    constructor (file: seq<nat>, avail: nat, pos: nat)
      requires pos <= avail <= |file|
      ensures this.file == file && this.avail == avail && unreadMarker == 0 && !insufficient
      ensures seg == Scan(file, pos) && data == Unpack(seg.data)
    {
      this.file, this.avail, unreadMarker, insufficient := file, avail, 0, false;
      seg, data := Scan(file, pos), Unpack(Scan(file, pos).data);
    }

    /** The application delivers more input. */
    method Deliver(more: nat)
      requires avail <= |file|
      modifies this`avail
      ensures avail == if old(avail) + more <= |file| then old(avail) + more else |file|
    {
      avail := if avail + more <= |file| then avail + more else |file|;
    }

    /** In working state `st`, the next bit is bit `n` of the segment. */
    ghost predicate At(st: BitState, n: nat)
      reads this
    {
      && avail <= |file| && AreBytes(file)
      && st.pos <= avail && Holds(st.buf, st.left, data, n)
      && seg.marker < 256
      && if unreadMarker == 0 then
           !insufficient && Follows(file, st.pos, seg, data, n + st.left)
         else
           && unreadMarker == seg.marker && st.pos == seg.next && |data| <= n + st.left
           && insufficient == (|data| < n + st.left)
    }

    /** The whole of the segment, with its marker, has been delivered. */
    ghost predicate Delivered()
      reads this
    {
      seg.marker != 0 && seg.next <= avail
    }

    /** A marker once met, and the shortage flag once raised, stay. */
    twostate predicate Kept()
      reads this
    {
      (old(unreadMarker) != 0 ==> unreadMarker == old(unreadMarker)) && (old(insufficient) ==> insufficient)
    }

    /** No marker has been met, then or now: only then can a reader be forced to suspend. */
    twostate predicate Untouched()
      reads this
    {
      unreadMarker == old(unreadMarker) == 0 && insufficient == old(insufficient)
    }

    /** The inner part of the filling loop: the next data byte, or the marker that ends the segment. */
    method NextDataByte(pos: nat) returns (ok: bool, c: nat, marker: nat, pos': nat)
      requires pos <= avail <= |file| && AreBytes(file)
      ensures pos <= pos' <= avail && c < 256 && marker < 256
      ensures ok && marker == 0 ==> Scan(file, pos) == Scan(file, pos').(data := [c] + Scan(file, pos').data)
      ensures ok && marker != 0 ==> Scan(file, pos) == Segment([], marker, pos')
      ensures !ok ==> Scan(file, pos).marker == 0 || Scan(file, pos).next > avail
    {
      c, marker, pos' := 0, 0, pos;
      if pos' == avail { return false, c, marker, pos'; }
      assert IsByte(file[pos']);
      c, pos' := file[pos'], pos' + 1;
      if c == 0xFF {
        ghost var from := pos';
        while c == 0xFF
          invariant from <= pos' <= avail
          invariant c < 256
          invariant c == 0xFF ==> SkipFF(file, from) == SkipFF(file, pos')
          invariant c != 0xFF ==> pos' > from && SkipFF(file, from) == pos' - 1 && c == file[pos' - 1]
          decreases avail - pos', c == 0xFF
        {
          if pos' == avail { return false, 0, 0, pos'; }
          assert IsByte(file[pos']);
          c, pos' := file[pos'], pos' + 1;
        }
        if c == 0 {
          c := 0xFF;
        } else {
          marker := c;
        }
      }
      ok := true;
    }

    /** Loads the buffer to a depth of at least `nbits`, and as far beyond as it will go. */
    method FillBitBuffer(st: BitState, nbits: nat, ghost n: nat) returns (ok: bool, st': BitState)
      requires At(st, n) && nbits <= MIN_GET_BITS
      modifies this`unreadMarker, this`insufficient
      ensures ok ==> At(st', n) && nbits <= st'.left
      ensures ok && unreadMarker == 0 ==> MIN_GET_BITS <= st'.left && n + MIN_GET_BITS <= |data|
      ensures ok ==> st'.left <= 32
      ensures ok && insufficient && !old(insufficient) ==> st.left < nbits && |data| < n + nbits
      ensures (ok && Kept()) || (!ok && Untouched() && !Delivered())
    {
      var cur := st;
      hide Holds, Follows, Scan;
      HoldsAtMost32(st.buf, st.left, data, n);
      while cur.left < MIN_GET_BITS && unreadMarker == 0
        invariant At(cur, n) && st.left <= cur.left <= 32
        invariant insufficient == old(insufficient) && Kept()
        decreases avail - cur.pos, unreadMarker == 0
      {
        FollowsBounds(file, cur.pos, seg, data, n + cur.left);
        var more, c, marker, pos' := NextDataByte(cur.pos);
        if !more { return false, st; }
        if marker == 0 {
          NextByteFollows(file, cur.pos, seg, data, n + cur.left, c, pos');
          LoadByte(cur.buf, cur.left, data, n, c);
          cur := BitState(pos', ShiftIn(cur.buf, c), cur.left + 8);
        } else {
          MarkerFollows(file, cur.pos, seg, data, n + cur.left, marker, pos');
          unreadMarker := marker;
          cur := cur.(pos := pos');
        }
      }
      if unreadMarker == 0 { FollowsBounds(file, cur.pos, seg, data, n + cur.left); }
      if unreadMarker != 0 && cur.left < nbits {
        insufficient := true;
        LoadZeros(cur.buf, cur.left, data, n, MIN_GET_BITS - cur.left);
        cur := BitState(cur.pos, ShiftZeros(cur.buf, MIN_GET_BITS - cur.left), MIN_GET_BITS);
      }
      return true, cur;
    }

    /** CHECK_BIT_BUFFER followed by GET_BITS. */
    method GetBits(st: BitState, k: nat, ghost n: nat) returns (ok: bool, v: nat, st': BitState)
      requires At(st, n) && k <= MIN_GET_BITS
      modifies this`unreadMarker, this`insufficient
      ensures ok ==> v == Peek(data, n, k) && At(st', n + k)
      ensures ok && (k > 0 || Packable(st)) ==> Packable(st')
      ensures ok && insufficient && !old(insufficient) ==> |data| < n + k
      ensures (ok && Kept()) || (!ok && Untouched() && !Delivered())
    {
      hide Holds, Follows, Scan, Peek;
      HoldsAtMost32(st.buf, st.left, data, n);
      ok, st' := true, st;
      if st.left < k {
        ok, st' := FillBitBuffer(st, k, n);
        if !ok { return false, 0, st; }
      }
      TakeBits(st'.buf, st'.left, data, n, k);
      v, st' := TopBits(st'.buf, st'.left, k), st'.(left := st'.left - k);
    }
  }

  /** Bits are made up only after a marker has been met. */
  lemma NoMarkerNoShortage(src: BitSource, st: BitState, n: nat)
    requires src.At(st, n)
    ensures src.unreadMarker == 0 ==> !src.insufficient
  {
  }
}
