/** The coefficient loop shared by `decode_mcu` and `decode_mcu_AC_first`, and its discarding twin. */
module BandDecoder {
  import opened Arith
  import opened Bits
  import opened BitInput
  import opened Coefficients
  import opened HuffTables
  import opened HuffDecoding
  import opened RunLength
  import Seqs

  /** From coefficient `k` on, what remains of `whole` is found at bit `n`, after `ws` has been written. */
  ghost predicate Remains(h: HuffTable, data: seq<bool>, whole: BandCode, ws: seq<(nat, int)>, n: nat, k: nat, se: nat) {
    && h.WellTyped() && Count(h.bits, 16) <= 256 && se < 64
    && (var rest := ReadBand(h, data, n, k, se);
        whole.writes == ws + rest.writes && whole.end == rest.end && whole.eob == rest.eob)
  }

  lemma RemainsAll(h: HuffTable, data: seq<bool>, n: nat, k: nat, se: nat)
    requires h.WellTyped() && Count(h.bits, 16) <= 256 && se < 64
    ensures Remains(h, data, ReadBand(h, data, n, k, se), [], n, k, se)
  {
  }

  lemma RemainsValue(h: HuffTable, data: seq<bool>, whole: BandCode, ws: seq<(nat, int)>, n: nat, k: nat, se: nat)
    requires Remains(h, data, whole, ws, n, k, se) && k <= se && DecodeSymbol(h, data, n) % 16 != 0
    ensures var s, n1 := DecodeSymbol(h, data, n), n + DecodeLength(h.bits, data, n);
            Remains(h, data, whole, ws + [(Place(k + s / 16), Extend(Peek(data, n1, s % 16), s % 16))],
                    n1 + s % 16, k + s / 16 + 1, se)
  {
    hide DecodeSymbol, DecodeLength, Peek, Extend, Count;
    var s, n1 := DecodeSymbol(h, data, n), n + DecodeLength(h.bits, data, n);
    Seqs.Assoc(ws, [(Place(k + s / 16), Extend(Peek(data, n1, s % 16), s % 16))],
               ReadBand(h, data, n1 + s % 16, k + s / 16 + 1, se).writes);
  }

  lemma RemainsZrl(h: HuffTable, data: seq<bool>, whole: BandCode, ws: seq<(nat, int)>, n: nat, k: nat, se: nat)
    requires Remains(h, data, whole, ws, n, k, se) && k <= se && DecodeSymbol(h, data, n) == ZRL
    ensures Remains(h, data, whole, ws, n + DecodeLength(h.bits, data, n), k + 16, se)
  {
    hide DecodeSymbol, DecodeLength, Peek, Extend, Count;
  }

  lemma RemainsEob(h: HuffTable, data: seq<bool>, whole: BandCode, ws: seq<(nat, int)>, n: nat, k: nat, se: nat)
    requires Remains(h, data, whole, ws, n, k, se) && k <= se
    requires DecodeSymbol(h, data, n) % 16 == 0 && DecodeSymbol(h, data, n) != ZRL
    ensures whole == BandCode(ws, n + DecodeLength(h.bits, data, n), DecodeSymbol(h, data, n) / 16)
  {
    hide DecodeSymbol, DecodeLength, Peek, Extend, Count;
    assert ws + [] == ws;
  }

  lemma RemainsNothing(h: HuffTable, data: seq<bool>, whole: BandCode, ws: seq<(nat, int)>, n: nat, k: nat, se: nat)
    requires Remains(h, data, whole, ws, n, k, se) && k > se
    ensures whole == BandCode(ws, n, -1)
  {
    assert ws + [] == ws;
  }

  lemma RemainsShape(h: HuffTable, data: seq<bool>, whole: BandCode, ws: seq<(nat, int)>, n: nat, k: nat, se: nat)
    requires Remains(h, data, whole, ws, n, k, se) && forall w <- whole.writes :: w.0 < 64
    ensures (forall w <- ws :: w.0 < 64) && exists more :: whole.writes == ws + more && forall w <- more :: w.0 < 64
  {
    var rest := ReadBand(h, data, n, k, se);
    forall w | w in ws ensures w.0 < 64 { assert w in whole.writes; }
    assert whole.writes == ws + rest.writes;
  }

  /** A broken-off attempt leaves a block from which the next attempt arrives at the same coefficients. */
  lemma AttemptHarmless(h: HuffTable, data: seq<bool>, whole: BandCode, ws: seq<(nat, int)>, n: nat, k: nat, se: nat,
                        z: seq<int>, al: nat)
    requires Remains(h, data, whole, ws, n, k, se) && |z| == 64 && forall w <- whole.writes :: w.0 < 64
    ensures (forall w <- ws :: w.0 < 64) && Apply(Apply(z, ws, al), whole.writes, al) == Apply(z, whole.writes, al)
  {
    hide Apply, Remains;
    RemainsShape(h, data, whole, ws, n, k, se);
    var more :| whole.writes == ws + more && forall w <- more :: w.0 < 64;
    Rewrite(z, ws, more, al);
  }

  /** The band decoder writes nothing below its band. */
  lemma BelowUntouched(h: HuffTable, data: seq<bool>, n: nat, ss: nat, se: nat, ws: seq<(nat, int)>, m: nat, k: nat,
                       z: seq<int>, al: nat)
    requires h.WellTyped() && Count(h.bits, 16) <= 256 && se < 64 && |z| == 64 && ss <= 63
    requires Remains(h, data, ReadBand(h, data, n, ss, se), ws, m, k, se)
    ensures (forall w <- ws :: w.0 < 64) && forall i :: 0 <= i < ss ==> Apply(z, ws, al)[i] == z[i]
  {
    hide Apply, Count, ReadBand;
    var whole := ReadBand(h, data, n, ss, se);
    forall w | w in ws ensures w.0 < 64 && w.0 >= ss { assert w in whole.writes; }
    ApplyFrame(z, ws, al);
  }

  lemma ApplySnoc(z: seq<int>, ws: seq<(nat, int)>, p: nat, v: int, al: nat)
    requires |z| == 64 && p < 64 && forall w <- ws :: w.0 < 64
    ensures forall w <- ws + [(p, v)] :: w.0 < 64
    ensures Apply(z, ws + [(p, v)], al) == Apply(z, ws, al)[p := ToShort(v * Pow2(al))]
  {
    hide ToShort, Pow2;
    ApplyConcat(z, ws, [(p, v)], al);
    var u := Apply(z, ws, al);
    assert [(p, v)][1..] == [];
    assert Apply(u, [(p, v)], al) == Apply(u[p := ToShort(v * Pow2(al))], [], al);
  }

  /** The symbol at coefficient `k` and the bits of its value. */
  method ReadCoef(src: BitSource, h: HuffTable, d: DecTable, st: BitState, ghost n: nat)
    returns (ok: bool, r: nat, s: nat, v: int, st': BitState, ghost n': nat)
    requires src.At(st, n) && Derived(h, d) && h.WellTyped() && Count(h.bits, 16) <= 256
    modifies src`unreadMarker, src`insufficient
    ensures ok ==>
              var sym, n1 := DecodeSymbol(h, src.data, n), n + DecodeLength(h.bits, src.data, n);
              && r == sym / 16 && s == sym % 16 && n' == n1 + s && src.At(st', n')
              && (s != 0 ==> v == Extend(Peek(src.data, n1, s), s))
    ensures ok && src.insufficient && !old(src.insufficient) ==> |src.data| < n'
    ensures ok && Packable(st) ==> Packable(st')
    ensures (ok && src.Kept()) || (!ok && src.Untouched() && !src.Delivered())
  {
    hide Peek, Derived, DecodeLength, DecodeSymbol, Follows, Holds, Extend, Count;
    r, s, v, n' := 0, 0, 0, n;
    var sym;
    ok, sym, st' := HuffDecode(src, h, d, st, n);
    if !ok { return; }
    r, s, n' := sym / 16, sym % 16, n + DecodeLength(h.bits, src.data, n) + sym % 16;
    if s != 0 {
      var x: nat;
      ok, x, st' := src.GetBits(st', s, n + DecodeLength(h.bits, src.data, n));
      if !ok { return; }
      v := Extend(x, s);
    }
  }

  /** Decodes a band into a block. */
  method DecodeBandInto(src: BitSource, h: HuffTable, d: DecTable, st: BitState, ss: nat, se: nat, al: nat,
                        block: array<int>, ghost n: nat)
    returns (ok: bool, eob: int, st': BitState)
    requires src.At(st, n) && Derived(h, d) && h.WellTyped() && Count(h.bits, 16) <= 256
    requires block.Length == 64 && ss <= se < 64
    modifies src`unreadMarker, src`insufficient, block
    ensures ok ==>
              var c := ReadBand(h, src.data, n, ss, se);
              && Zigzag(block[..]) == Apply(Zigzag(old(block[..])), c.writes, al)
              && eob == c.eob && src.At(st', c.end)
    ensures ok && src.insufficient && !old(src.insufficient) ==> |src.data| < ReadBand(h, src.data, n, ss, se).end
    ensures ok && Packable(st) ==> Packable(st')
    ensures (ok && src.Kept()) || (!ok && src.Untouched() && !src.Delivered())
    ensures !ok ==>
              var ws := ReadBand(h, src.data, n, ss, se).writes;
              && Apply(Zigzag(block[..]), ws, al) == Apply(Zigzag(old(block[..])), ws, al)
              && forall i :: 0 <= i < ss ==> Zigzag(block[..])[i] == Zigzag(old(block[..]))[i]
  {
    hide Peek, Derived, DecodeLength, DecodeSymbol, Follows, Holds, Extend, Count, Remains, Apply, NaturalOrder, ReadBand,
         ToShort, Pow2, BitSource.At, BitSource.Delivered, Zigzag, Place;
    ghost var c := ReadBand(h, src.data, n, ss, se);
    ghost var z0, ws, m := Zigzag(block[..]), [], n;
    var k: nat := ss;
    st', eob := st, -1;
    RemainsAll(h, src.data, n, ss, se);
    NoMarkerNoShortage(src, st, n);
    NothingApplied(z0, al);
    while k <= se
      invariant ss <= k && src.At(st', m) && Remains(h, src.data, c, ws, m, k, se)
      invariant (forall w <- ws :: w.0 < 64) && Zigzag(block[..]) == Apply(z0, ws, al)
      invariant src.Kept() && (Packable(st) ==> Packable(st'))
      invariant src.insufficient && !old(src.insufficient) ==> |src.data| < m
      decreases 64 - k
    {
      var r, s, v;
      ghost var m';
      NoMarkerNoShortage(src, st', m);
      ok, r, s, v, st', m' := ReadCoef(src, h, d, st', m);
      if !ok {
        AttemptHarmless(h, src.data, c, ws, m, k, se, z0, al);
        BelowUntouched(h, src.data, n, ss, se, ws, m, k, z0, al);
        return false, -1, st;
      }
      if s != 0 {
        RemainsValue(h, src.data, c, ws, m, k, se);
        k := k + r;
        ApplySnoc(z0, ws, Place(k), v, al);
        ZigzagUpdate(block[..], k, ToShort(v * Pow2(al)));
        ghost var next := block[..][NaturalOrder(k) := ToShort(v * Pow2(al))];
        block[NaturalOrder(k)] := ToShort(v * Pow2(al));
        assert block[..] == next;
        ws := ws + [(Place(k), v)];
      } else if r == 15 {
        RemainsZrl(h, src.data, c, ws, m, k, se);
        k := k + 15;
      } else {
        RemainsEob(h, src.data, c, ws, m, k, se);
        return true, r, st';
      }
      m, k := m', k + 1;
    }
    RemainsNothing(h, src.data, c, ws, m, k, se);
    ok := true;
  }

  lemma NothingApplied(z: seq<int>, al: nat)
    requires |z| == 64
    ensures Apply(z, [], al) == z
  {
  }

  /** Runs over a band without keeping its coefficients. */
  method SkipBand(src: BitSource, h: HuffTable, d: DecTable, st: BitState, ss: nat, se: nat, ghost n: nat)
    returns (ok: bool, st': BitState)
    requires src.At(st, n) && Derived(h, d) && h.WellTyped() && Count(h.bits, 16) <= 256 && ss <= se < 64
    modifies src`unreadMarker, src`insufficient
    ensures ok ==> src.At(st', ReadBand(h, src.data, n, ss, se).end)
    ensures ok && src.insufficient && !old(src.insufficient) ==> |src.data| < ReadBand(h, src.data, n, ss, se).end
    ensures ok && Packable(st) ==> Packable(st')
    ensures (ok && src.Kept()) || (!ok && src.Untouched() && !src.Delivered())
  {
    hide Peek, Derived, DecodeLength, DecodeSymbol, Follows, Holds, Extend, Count, Remains, Apply, ReadBand, BitSource.At,
         BitSource.Delivered;
    ghost var c := ReadBand(h, src.data, n, ss, se);
    ghost var ws, m := [], n;
    var k: nat := ss;
    st' := st;
    RemainsAll(h, src.data, n, ss, se);
    NoMarkerNoShortage(src, st, n);
    while k <= se
      invariant ss <= k && src.At(st', m) && Remains(h, src.data, c, ws, m, k, se)
      invariant src.Kept() && (Packable(st) ==> Packable(st'))
      invariant src.insufficient && !old(src.insufficient) ==> |src.data| < m
      decreases 64 - k
    {
      var r, s, v;
      ghost var m';
      NoMarkerNoShortage(src, st', m);
      ok, r, s, v, st', m' := ReadCoef(src, h, d, st', m);
      if !ok { return false, st; }
      if s != 0 {
        RemainsValue(h, src.data, c, ws, m, k, se);
        ws := ws + [(Place(k + r), v)];
        k := k + r;
      } else if r == 15 {
        RemainsZrl(h, src.data, c, ws, m, k, se);
        k := k + 15;
      } else {
        RemainsEob(h, src.data, c, ws, m, k, se);
        return true, st';
      }
      m, k := m', k + 1;
    }
    RemainsNothing(h, src.data, c, ws, m, k, se);
    ok := true;
  }
}
