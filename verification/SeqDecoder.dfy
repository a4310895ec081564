/** Sequential Huffman decoding: `decode_mcu` and `decode_mcu_discard_coef`. */
module SeqDecoder {
  import opened Arith
  import opened BandDecoder
  import opened Bits
  import opened BitInput
  import opened Coefficients
  import opened HuffDecoding
  import opened HuffTables
  import opened Restarts
  import opened RunLength
  import opened Scans
  import opened Segments

  // ----- What the bits mean -----

  /** A table whose symbols announce at most 15 bits, as `jpeg_make_d_derived_tbl` demands of DC tables. */
  ghost predicate DcTable(h: HuffTable) {
    && h.WellTyped() && Count(h.bits, 16) <= 256
    && forall p :: 0 <= p < Count(h.bits, 16) ==> h.huffval[p] <= 15
  }

  lemma DcSymbolSmall(h: HuffTable, data: seq<bool>, n: nat)
    requires DcTable(h)
    ensures DecodeSymbol(h, data, n) <= 15
  {
  }

  /** A DC difference and the position after it. */
  function ReadDc(h: HuffTable, data: seq<bool>, n: nat): (r: (int, nat))
    requires h.WellTyped() && Count(h.bits, 16) <= 256
  {
    var s, n1 := DecodeSymbol(h, data, n), n + DecodeLength(h.bits, data, n);
    if s == 0 then (0, n1) else (Extend(Peek(data, n1, s), s), n1 + s)
  }

  datatype BlockCode = BlockCode(diff: int, ac: BandCode)

  function ReadBlock(dc: HuffTable, ac: HuffTable, data: seq<bool>, n: nat): (c: BlockCode)
    requires dc.WellTyped() && Count(dc.bits, 16) <= 256 && ac.WellTyped() && Count(ac.bits, 16) <= 256
    ensures forall w <- c.ac.writes :: 1 <= w.0 < 64
  {
    var (diff, m) := ReadDc(dc, data, n);
    BlockCode(diff, ReadBand(ac, data, m, 1, 63))
  }

  /** Whether the DC and the AC coefficients of a block are wanted. */
  datatype Need = Need(dc: bool, ac: bool)

  /** The coefficients of a block in zigzag order, given the DC prediction. */
  function FilledBlock(code: BlockCode, need: Need, pred: int, z: seq<int>): (z': seq<int>)
    requires |z| == 64 && forall w <- code.ac.writes :: w.0 < 64
    ensures |z'| == 64
  {
    var z1 := if need.dc then z[0 := ToShort(pred + code.diff)] else z;
    if need.ac then Apply(z1, code.ac.writes, 0) else z1
  }

  function NextPred(code: BlockCode, need: Need, pred: int): (p: int) { if need.dc then pred + code.diff else pred }

  // ----- One block -----

  method DecodeDc(src: BitSource, h: HuffTable, d: DecTable, st: BitState, ghost n: nat)
    returns (ok: bool, diff: int, st': BitState)
    requires src.At(st, n) && Derived(h, d) && DcTable(h)
    modifies src`unreadMarker, src`insufficient
    ensures ok ==> diff == ReadDc(h, src.data, n).0 && src.At(st', ReadDc(h, src.data, n).1)
    ensures ok && src.insufficient && !old(src.insufficient) ==> |src.data| < ReadDc(h, src.data, n).1
    ensures ok && st.left < HUFF_LOOKAHEAD && src.unreadMarker == 0 ==> n + MIN_GET_BITS <= |src.data|
    ensures ok && Packable(st) ==> Packable(st')
    ensures (ok && src.Kept()) || (!ok && src.Untouched() && !src.Delivered())
  {
    hide Peek, Derived, DecodeLength, DecodeSymbol, Follows, Holds, Extend, Count, BitSource.At, BitSource.Delivered;
    diff := 0;
    var s;
    NoMarkerNoShortage(src, st, n);
    ok, s, st' := HuffDecode(src, h, d, st, n);
    if !ok { return; }
    DcSymbolSmall(h, src.data, n);
    if s != 0 {
      ghost var n1 := n + DecodeLength(h.bits, src.data, n);
      NoMarkerNoShortage(src, st', n1);
      var r: nat;
      ok, r, st' := src.GetBits(st', s, n1);
      if !ok { return; }
      diff := Extend(r, s);
    }
  }

  /** One block of an MCU. */
  method DecodeBlock(src: BitSource, dcH: HuffTable, dcD: DecTable, acH: HuffTable, acD: DecTable, need: Need,
                     st: BitState, pred: int, block: array<int>, ghost n: nat)
    returns (ok: bool, st': BitState, pred': int)
    requires src.At(st, n) && Derived(dcH, dcD) && DcTable(dcH) && Derived(acH, acD) && Decodable(acH)
    requires block.Length == 64
    modifies src`unreadMarker, src`insufficient, block
    ensures ok ==>
              var c := ReadBlock(dcH, acH, src.data, n);
              && src.At(st', c.ac.end) && pred' == NextPred(c, need, pred)
              && Zigzag(block[..]) == FilledBlock(c, need, pred, Zigzag(old(block[..])))
    ensures ok && src.insufficient && !old(src.insufficient) ==>
              |src.data| < ReadBlock(dcH, acH, src.data, n).ac.end
    ensures ok && st.left < HUFF_LOOKAHEAD && src.unreadMarker == 0 ==> n + MIN_GET_BITS <= |src.data|
    ensures ok && Packable(st) ==> Packable(st')
    ensures (ok && src.Kept()) || (!ok && src.Untouched() && !src.Delivered())
    ensures !ok ==>
              var c := ReadBlock(dcH, acH, src.data, n);
              FilledBlock(c, need, pred, Zigzag(block[..])) == FilledBlock(c, need, pred, Zigzag(old(block[..])))
  {
    hide Derived, Count, Apply, NaturalOrder, ReadBand, ReadDc, ToShort, BitSource.At, BitSource.Delivered, Zigzag;
    ghost var z0 := Zigzag(block[..]);
    var s;
    pred' := pred;
    NoMarkerNoShortage(src, st, n);
    ok, s, st' := DecodeDc(src, dcH, dcD, st, n);
    if !ok { return; }
    ghost var m := ReadDc(dcH, src.data, n).1;
    ghost var c := ReadBlock(dcH, acH, src.data, n);
    if need.dc {
      s := s + pred;
      pred' := s;
      ZigzagDc(block[..], ToShort(s));
      ghost var next := block[..][0 := ToShort(s)];
      block[0] := ToShort(s);
      assert block[..] == next;
    }
    ghost var z1 := Zigzag(block[..]);
    NoMarkerNoShortage(src, st', m);
    if need.ac {
      var eob;
      ok, eob, st' := DecodeBandInto(src, acH, acD, st', 1, 63, 0, block, m);
      if !ok { SecondAttempt(c, need, pred, z0, Zigzag(block[..])); }
    } else {
      ok, st' := SkipBand(src, acH, acD, st', 1, 63, m);
      if !ok { SecondAttempt(c, need, pred, z0, Zigzag(block[..])); }
    }
  }

  lemma ZigzagDc(block: seq<int>, v: int)
    requires |block| == 64
    ensures Zigzag(block[0 := v]) == Zigzag(block)[0 := v]
  {
    ZigzagUpdate(block, 0, v);
  }

  /** After an attempt that got as far as the AC coefficients, a new attempt fills the block as the first would have. */
  lemma SecondAttempt(c: BlockCode, need: Need, pred: int, z: seq<int>, z': seq<int>)
    requires |z| == |z'| == 64 && forall w <- c.ac.writes :: w.0 < 64
    requires var z1 := if need.dc then z[0 := ToShort(pred + c.diff)] else z;
             if need.ac then Apply(z', c.ac.writes, 0) == Apply(z1, c.ac.writes, 0) && z'[0] == z1[0]
             else z' == z1
    ensures FilledBlock(c, need, pred, z') == FilledBlock(c, need, pred, z)
  {
    hide Apply, ToShort;
    if need.dc { assert z'[0 := z'[0]] == z'; }
  }

  /** One block of an MCU whose coefficients are not wanted. */
  method DiscardBlock(src: BitSource, dcH: HuffTable, dcD: DecTable, acH: HuffTable, acD: DecTable, need: Need,
                      st: BitState, pred: int, ghost n: nat)
    returns (ok: bool, st': BitState, pred': int)
    requires src.At(st, n) && Derived(dcH, dcD) && DcTable(dcH) && Derived(acH, acD) && Decodable(acH)
    modifies src`unreadMarker, src`insufficient
    ensures ok ==>
              var c := ReadBlock(dcH, acH, src.data, n);
              src.At(st', c.ac.end) && pred' == NextPred(c, need, pred)
    ensures ok && src.insufficient && !old(src.insufficient) ==>
              |src.data| < ReadBlock(dcH, acH, src.data, n).ac.end
    ensures ok && Packable(st) ==> Packable(st')
    ensures (ok && src.Kept()) || (!ok && src.Untouched() && !src.Delivered())
  {
    hide Derived, Count, ReadBand, ReadDc, BitSource.At, BitSource.Delivered;
    var s;
    pred' := pred;
    NoMarkerNoShortage(src, st, n);
    ok, s, st' := DecodeDc(src, dcH, dcD, st, n);
    if !ok { return; }
    ghost var m := ReadDc(dcH, src.data, n).1;
    if need.dc {
      s := s + pred;
      pred' := s;
    }
    NoMarkerNoShortage(src, st', m);
    ok, st' := SkipBand(src, acH, acD, st', 1, 63, m);
  }
}
