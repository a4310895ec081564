/** Finding and swallowing restart markers: `next_marker` and `read_restart_marker`. */
module Restarts {
  import opened Bits
  import opened BitInput
  import opened Segments

  lemma {:induction false} ScanByteMarker(bytes: seq<nat>, i: nat)
    requires i <= |bytes| && AreBytes(bytes)
    ensures Scan(bytes, i).marker < 256 && AreBytes(Scan(bytes, i).data)
    decreases |bytes| - i
  {
    if i < |bytes| {
      assert IsByte(bytes[i]);
      if bytes[i] != 0xFF {
        ScanByteMarker(bytes, i + 1);
      } else {
        var j := SkipFF(bytes, i + 1);
        if j < |bytes| {
          assert IsByte(bytes[j]);
          if bytes[j] == 0 { ScanByteMarker(bytes, j + 1); }
        }
      }
    }
  }

  /** The same marker ends what follows either position. */
  predicate SameEnd(bytes: seq<nat>, i: nat, j: nat) {
    i <= j <= |bytes| && Scan(bytes, j).marker == Scan(bytes, i).marker && Scan(bytes, j).next == Scan(bytes, i).next
  }

  lemma SameEndByte(bytes: seq<nat>, i: nat, j: nat)
    requires SameEnd(bytes, i, j) && j < |bytes| && bytes[j] != 0xFF
    ensures SameEnd(bytes, i, j + 1)
  {
  }

  lemma SameEndStuffed(bytes: seq<nat>, i: nat, j: nat, k: nat)
    requires SameEnd(bytes, i, j) && j < |bytes| && bytes[j] == 0xFF
    requires SkipFF(bytes, j + 1) == k < |bytes| && bytes[k] == 0
    ensures SameEnd(bytes, i, k + 1)
  {
  }

  lemma FoundMarker(bytes: seq<nat>, i: nat, j: nat)
    requires i < |bytes| && bytes[i] == 0xFF && SkipFF(bytes, i + 1) == j < |bytes| && bytes[j] != 0
    ensures Scan(bytes, i) == Segment([], bytes[j], j + 1)
  {
  }

  /** `next_marker`; when input runs out, `pos'` is as far as has been skipped for good. */
  method NextMarker(src: BitSource, pos: nat) returns (ok: bool, marker: nat, pos': nat)
    requires pos <= src.avail <= |src.file| && AreBytes(src.file)
    ensures pos' <= src.avail
    ensures ok ==> 0 < marker < 256 && marker == Scan(src.file, pos).marker && pos' == Scan(src.file, pos).next
    ensures !ok ==> SameEnd(src.file, pos, pos')
    ensures !ok ==> Scan(src.file, pos).marker == 0 || Scan(src.file, pos).next > src.avail
  {
    hide Scan, SkipFF;
    pos' := pos;
    while true
      invariant pos' <= src.avail && SameEnd(src.file, pos, pos')
      decreases src.avail - pos'
    {
      if pos' == src.avail { ScanEndsLater(src.file, pos'); return false, 0, pos'; }
      ghost var start := pos';
      while src.file[pos'] != 0xFF
        invariant start <= pos' < src.avail && SameEnd(src.file, pos, pos')
        decreases src.avail - pos'
      {
        SameEndByte(src.file, pos, pos');
        pos' := pos' + 1;
        if pos' == src.avail { ScanEndsLater(src.file, pos'); return false, 0, pos'; }
      }
      var more, c, cur := SkipFill(src, pos' + 1);
      if !more { ScanEndsLater(src.file, pos'); return false, 0, pos'; }
      if c != 0 { FoundMarker(src.file, pos', cur - 1); return true, c, cur; }
      SameEndStuffed(src.file, pos, pos', cur - 1);
      pos' := cur;
    }
  }

  /** Swallows duplicate FF bytes; returns the byte after them. */
  method SkipFill(src: BitSource, from: nat) returns (ok: bool, c: nat, cur: nat)
    requires from <= src.avail <= |src.file| && AreBytes(src.file)
    ensures ok ==> from < cur <= src.avail && SkipFF(src.file, from) == cur - 1 && c == src.file[cur - 1] && c != 0xFF
    ensures ok ==> c < 256
    ensures !ok ==> SkipFF(src.file, from) >= src.avail
  {
    c, cur := 0xFF, from;
    while c == 0xFF
      invariant from <= cur <= src.avail && c < 256
      invariant c == 0xFF ==> SkipFF(src.file, from) == SkipFF(src.file, cur)
      invariant c != 0xFF ==> cur > from && SkipFF(src.file, from) == cur - 1 && c == src.file[cur - 1]
      decreases src.avail - cur, c == 0xFF
    {
      if cur == src.avail { return false, 0, cur; }
      assert IsByte(src.file[cur]);
      c, cur := src.file[cur], cur + 1;
    }
    ok := true;
  }

  /** A marker lies beyond the bytes that belong to data. */
  lemma ScanEndsLater(bytes: seq<nat>, i: nat)
    requires i <= |bytes|
    ensures Scan(bytes, i).marker != 0 ==> Scan(bytes, i).next > i
    ensures i < |bytes| && bytes[i] == 0xFF && Scan(bytes, i).marker != 0 ==> Scan(bytes, i).next > SkipFF(bytes, i + 1)
  {
    NextBeyond(bytes, i);
  }

  lemma {:induction false} NextBeyond(bytes: seq<nat>, i: nat)
    requires i <= |bytes|
    ensures Scan(bytes, i).marker != 0 ==> Scan(bytes, i).next > i
    decreases |bytes| - i
  {
    if i < |bytes| {
      if bytes[i] != 0xFF {
        NextBeyond(bytes, i + 1);
      } else {
        var j := SkipFF(bytes, i + 1);
        if j < |bytes| && bytes[j] == 0 { NextBeyond(bytes, j + 1); }
      }
    }
  }

  /** From byte `pos` on, the stream leads to the marker that ends the current segment. */
  ghost predicate ToMarker(src: BitSource, pos: nat)
    reads src
  {
    && pos <= src.avail <= |src.file| && AreBytes(src.file) && src.seg.marker < 256
    && if src.unreadMarker == 0 then
         !src.insufficient && Scan(src.file, pos).marker == src.seg.marker && Scan(src.file, pos).next == src.seg.next
       else src.unreadMarker == src.seg.marker && pos == src.seg.next
  }

  lemma AtToMarker(src: BitSource, st: BitState, n: nat)
    requires src.At(st, n)
    ensures ToMarker(src, st.pos)
  {
  }

  datatype RestartOutcome = RestartRead | RestartSuspended | RestartMissing

  /**
   `read_restart_marker` for the marker RST0 + `num`.  A marker other than the expected one is left unread; what
   `jpeg_resync_to_restart` would make of it is not part of this model.
   */
  method ReadRestartMarker(src: BitSource, pos: nat, num: nat) returns (o: RestartOutcome, pos': nat)
    requires ToMarker(src, pos)
    modifies src`unreadMarker, src`insufficient, src`seg, src`data
    ensures o.RestartSuspended? ==> src.Untouched() && ToMarker(src, pos') && !src.Delivered()
                                    && src.seg == old(src.seg) && src.data == old(src.data)
    ensures o.RestartMissing? ==> old(src.seg.marker) != RST0 + num && ToMarker(src, pos')
                                  && src.seg == old(src.seg) && src.data == old(src.data)
    ensures o.RestartRead? ==>
              && old(src.seg.marker) == RST0 + num && pos' == old(src.seg.next)
              && src.seg == Scan(src.file, pos') && src.data == Unpack(src.seg.data)
              && src.unreadMarker == 0 && !src.insufficient
              && forall buf :: src.At(BitState(pos', buf, 0), 0)
  {
    pos' := pos;
    if src.unreadMarker == 0 {
      var ok, marker;
      ok, marker, pos' := NextMarker(src, pos);
      if !ok { return RestartSuspended, pos'; }
      src.unreadMarker := marker;
    }
    if src.unreadMarker == RST0 + num {
      src.unreadMarker := 0;
      src.insufficient := false;
      src.seg := Scan(src.file, pos');
      src.data := Unpack(src.seg.data);
      ScanByteMarker(src.file, pos');
      forall buf ensures src.At(BitState(pos', buf, 0), 0) { StartsSegment(src, pos', buf); }
      o := RestartRead;
    } else {
      o := RestartMissing;
    }
  }

  lemma StartsSegment(src: BitSource, pos: nat, buf: nat)
    requires pos <= src.avail <= |src.file| && AreBytes(src.file) && src.unreadMarker == 0 && !src.insufficient
    requires src.seg == Scan(src.file, pos) && src.seg.marker < 256 && src.data == Unpack(src.seg.data)
    ensures src.At(BitState(pos, buf, 0), 0)
  {
    hide Scan, Unpack;
    assert Pow2(0) == 1 && Peek(src.data, 0, 0) == 0;
    assert src.data[0..] == src.data;
  }
}
