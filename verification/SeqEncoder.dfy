/** Sequential Huffman encoding of one block: `encode_one_block` and `htest_one_block`. */
module SeqEncoder {
  import opened Bits
  import opened BitOutput
  import opened Coefficients
  import opened HuffTables
  import opened RunLength
  import opened Statistics
  import opened Tokens
  import Seqs

  function DcTokens(t: nat, diff: int): (toks: seq<Token>) {
    if diff == 0 then [Sym(t, 0)] else ValueTokens(t, 0, diff)
  }

  function AcTokens(t: nat, z: seq<int>): (toks: seq<Token>)
    requires |z| == 64
  {
    RunTokens(z, t, 1, 63) + if RunEnd(z, 1, 63) <= 63 then [Sym(t, 0)] else []
  }

  /** What is emitted for a block whose coefficients in zigzag order are `z`. */
  function BlockTokens(dcT: nat, acT: nat, z: seq<int>, lastDc: int): (toks: seq<Token>)
    requires |z| == 64
  {
    DcTokens(dcT, z[0] - lastDc) + AcTokens(acT, z)
  }

  predicate DcInRange(diff: int) { NumBits(Abs(diff)) <= MAX_COEF_BITS + 1 }

  predicate AcInRange(z: seq<int>, n: nat)
    requires n <= |z|
  {
    forall k :: 1 <= k < n ==> NumBits(Abs(z[k])) <= MAX_COEF_BITS
  }

  predicate InRange(z: seq<int>, lastDc: int)
    requires |z| == 64
  {
    DcInRange(z[0] - lastDc) && AcInRange(z, 64)
  }

  /** A failure is reported for its cause. */
  predicate Explained(st: Status, inRange: bool, coded: bool) {
    && (st.Success? <==> inRange && coded)
    && (st.Failure? ==> st.error == BadDctCoef || st.error == HuffMissingCode)
    && (st == Failure(BadDctCoef) ==> !inRange)
    && (st == Failure(HuffMissingCode) ==> !coded)
  }

  /** `emit_bits` with the code of a symbol. */
  method EmitSymbol(w: BitWriter, e: EncTable, s: nat, ghost ets: seq<EncTable>, ghost t: nat) returns (ok: bool)
    requires w.Valid() && AllWellFormed(ets) && t < |ets| && ets[t] == e && s < 256
    modifies w
    ensures w.Valid() && w.done == old(w.done)
    ensures ok == HasCode(ets, Sym(t, s))
    ensures w.bits == old(w.bits) + TokenBit(ets, Sym(t, s))
  {
    hide ToBits, BitWriter.Valid;
    assert WellFormed(e);
    ok := w.EmitBits(e.ehufco[s], e.ehufsi[s]);
  }

  /** A field of `n` bits. */
  method EmitField(w: BitWriter, v: int, n: nat, ghost ets: seq<EncTable>)
    requires w.Valid() && 1 <= n <= 16
    modifies w
    ensures w.Valid() && w.done == old(w.done)
    ensures HasCode(ets, Raw(v, n)) && w.bits == old(w.bits) + TokenBit(ets, Raw(v, n))
  {
    hide ToBits, BitWriter.Valid;
    var ok := w.EmitBits(v, n);
  }

  /** A symbol that announces a value, and the bits of the value. */
  method EmitValue(w: BitWriter, e: EncTable, r: nat, v: int, nbits: nat, ghost ets: seq<EncTable>, ghost t: nat)
    returns (ok: bool)
    requires w.Valid() && AllWellFormed(ets) && t < |ets| && ets[t] == e
    requires v != 0 && r <= 15 && nbits == NumBits(Abs(v)) <= 15
    modifies w
    ensures w.Valid() && w.done == old(w.done)
    ensures ok == AllCoded(ets, ValueTokens(t, r, v))
    ensures ok ==> Sent(old(w.bits), w.bits, ets, ValueTokens(t, r, v))
  {
    hide NumBits, BitWriter.Valid, AllWellFormed, HasCode, TokenBit, TokenBits, ValueBits, AllCoded, Sent;
    ghost var sym, raw := Sym(t, r * 16 + nbits), Raw(ValueBits(v), nbits);
    assert ValueTokens(t, r, v) == [] + [sym] + [raw] == [] + ([sym] + [raw]);
    SentNothing(w.bits, ets);
    ok := EmitSymbol(w, e, r * 16 + nbits, ets, t);
    if !ok { Uncoded(ets, [], sym, [raw]); return; }
    label afterSymbol:
    SentMore(old(w.bits), old(w.bits), w.bits, ets, [], sym);
    EmitField(w, ValueBits(v), nbits, ets);
    SentMore(old(w.bits), old@afterSymbol(w.bits), w.bits, ets, [] + [sym], raw);
    SentCoded(old(w.bits), w.bits, ets, ValueTokens(t, r, v));
  }

  lemma SentCoded(before: seq<bool>, after: seq<bool>, ets: seq<EncTable>, toks: seq<Token>)
    requires Sent(before, after, ets, toks)
    ensures AllCoded(ets, toks)
  {
  }

  /** The DC coefficient difference (section F.1.2.1 of ITU-T T.81). */
  method EncodeDc(w: BitWriter, dctbl: EncTable, dc: int, lastDc: int, ghost ets: seq<EncTable>, ghost t: nat)
    returns (st: Status)
    requires w.Valid() && AllWellFormed(ets) && t < |ets| && ets[t] == dctbl
    modifies w
    ensures w.Valid() && w.done == old(w.done)
    ensures Explained(st, DcInRange(dc - lastDc), AllCoded(ets, DcTokens(t, dc - lastDc)))
    ensures st.Success? ==> Sent(old(w.bits), w.bits, ets, DcTokens(t, dc - lastDc))
  {
    hide NumBits, BitWriter.Valid, AllWellFormed, HasCode, TokenBit, TokenBits, AllCoded, Sent, ValueTokens;
    var temp := dc - lastDc;
    var nbits := BitLength(Abs(temp));
    if nbits > MAX_COEF_BITS + 1 { return Failure(BadDctCoef); }
    var ok;
    if nbits == 0 {
      ok := EmitSymbol(w, dctbl, 0, ets, t);
      if !ok { Uncoded(ets, [], Sym(t, 0), []); assert [] + ([Sym(t, 0)] + []) == [Sym(t, 0)]; return Failure(HuffMissingCode); }
      SentNothing(old(w.bits), ets);
      SentMore(old(w.bits), old(w.bits), w.bits, ets, [], Sym(t, 0));
      assert [] + [Sym(t, 0)] == [Sym(t, 0)];
      SentCoded(old(w.bits), w.bits, ets, [Sym(t, 0)]);
    } else {
      ok := EmitValue(w, dctbl, 0, temp, nbits, ets, t);
      if !ok { return Failure(HuffMissingCode); }
    }
    return Success;
  }

  /** Emits ZRL symbols until at most 15 zeros are left before the value at `k`. */
  method EmitZrls(w: BitWriter, actbl: EncTable, r0: nat, ghost ets: seq<EncTable>, ghost t: nat, ghost z: seq<int>,
                  ghost k: nat)
    returns (ok: bool, r: nat, ghost zrls: seq<Token>)
    requires w.Valid() && AllWellFormed(ets) && t < |ets| && ets[t] == actbl
    requires |z| == 64 && r0 <= k <= 63 && z[k] != 0 && forall i :: k - r0 <= i < k ==> z[i] == 0
    modifies w
    ensures w.Valid() && w.done == old(w.done)
    ensures ok ==> r <= 15 && r <= r0 && Sent(old(w.bits), w.bits, ets, zrls)
    ensures ok ==> RunTokens(z, t, k - r0, 63) == zrls + RunTokens(z, t, k - r, 63)
    ensures ok ==> RunEnd(z, k - r0, 63) == RunEnd(z, k - r, 63)
    ensures !ok ==> !AllCoded(ets, RunTokens(z, t, k - r0, 63))
  {
    hide NumBits, BitWriter.Valid, AllWellFormed, HasCode, TokenBit, TokenBits, AllCoded, Sent, RunTokens, RunEnd;
    r, zrls, ok := r0, [], true;
    SentNothing(w.bits, ets);
    while r > 15
      invariant r <= r0 && w.Valid() && w.done == old(w.done)
      invariant Sent(old(w.bits), w.bits, ets, zrls)
      invariant RunTokens(z, t, k - r0, 63) == zrls + RunTokens(z, t, k - r, 63)
      invariant RunEnd(z, k - r0, 63) == RunEnd(z, k - r, 63)
    {
      ghost var before := w.bits;
      RunOver(z, t, k - r, k, 63);
      ok := EmitSymbol(w, actbl, ZRL, ets, t);
      if !ok { Uncoded(ets, zrls, Sym(t, ZRL), RunTokens(z, t, k - r + 16, 63)); return; }
      SentMore(old(w.bits), before, w.bits, ets, zrls, Sym(t, ZRL));
      Seqs.Assoc(zrls, [Sym(t, ZRL)], RunTokens(z, t, k - r + 16, 63));
      zrls, r := zrls + [Sym(t, ZRL)], r - 16;
    }
  }

  /** The nonzero coefficient at `k`, after `r0` zeros. */
  method EncodeCoef(w: BitWriter, actbl: EncTable, r0: nat, temp: int, ghost ets: seq<EncTable>, ghost t: nat,
                    ghost z: seq<int>, ghost k: nat)
    returns (st: Status, ghost toks: seq<Token>)
    requires w.Valid() && AllWellFormed(ets) && t < |ets| && ets[t] == actbl
    requires |z| == 64 && r0 <= k <= 63 && temp == z[k] != 0 && forall i :: k - r0 <= i < k ==> z[i] == 0
    modifies w
    ensures w.Valid() && w.done == old(w.done)
    ensures st.Success? ==> Sent(old(w.bits), w.bits, ets, toks)
    ensures st.Success? ==> RunTokens(z, t, k - r0, 63) == toks + RunTokens(z, t, k + 1, 63)
    ensures st.Success? ==> RunEnd(z, k - r0, 63) == RunEnd(z, k + 1, 63)
    ensures st.Success? ==> NumBits(Abs(temp)) <= MAX_COEF_BITS
    ensures st.Failure? ==> st == Failure(BadDctCoef) || st == Failure(HuffMissingCode)
    ensures st == Failure(BadDctCoef) ==> NumBits(Abs(temp)) > MAX_COEF_BITS
    ensures st == Failure(HuffMissingCode) ==> !AllCoded(ets, RunTokens(z, t, k - r0, 63))
  {
    hide NumBits, BitWriter.Valid, AllWellFormed, HasCode, TokenBit, TokenBits, AllCoded, Sent, RunTokens, RunEnd,
         ValueTokens;
    var ok, r;
    ghost var zrls;
    ok, r, zrls := EmitZrls(w, actbl, r0, ets, t, z, k);
    toks := zrls;
    if !ok { return Failure(HuffMissingCode), toks; }
    ghost var before := w.bits;
    var nbits := BitLengthNonzero(Abs(temp));
    if nbits > MAX_COEF_BITS { return Failure(BadDctCoef), toks; }
    RunValue(z, t, k - r, k, 63);
    ghost var val, rest := ValueTokens(t, r, temp), RunTokens(z, t, k + 1, 63);
    Seqs.Assoc(zrls, val, rest);
    ok := EmitValue(w, actbl, r, temp, nbits, ets, t);
    if !ok { UncodedPart(ets, zrls, val, rest); return Failure(HuffMissingCode), toks; }
    SentJoin(old(w.bits), before, w.bits, ets, zrls, val);
    return Success, zrls + val;
  }

  lemma UncodedPart(ets: seq<EncTable>, a: seq<Token>, m: seq<Token>, b: seq<Token>)
    requires !AllCoded(ets, m)
    ensures !AllCoded(ets, a + (m + b))
  {
    hide HasCode;
    var tok :| tok in m && !HasCode(ets, tok);
    assert tok in a + (m + b);
  }

  /** The AC coefficients (section F.1.2.2 of ITU-T T.81). */
  method EncodeAc(w: BitWriter, actbl: EncTable, block: seq<int>, ghost ets: seq<EncTable>, ghost t: nat)
    returns (st: Status)
    requires w.Valid() && AllWellFormed(ets) && t < |ets| && ets[t] == actbl && |block| == 64
    modifies w
    ensures w.Valid() && w.done == old(w.done)
    ensures Explained(st, AcInRange(Zigzag(block), 64), AllCoded(ets, AcTokens(t, Zigzag(block))))
    ensures st.Success? ==> Sent(old(w.bits), w.bits, ets, AcTokens(t, Zigzag(block)))
  {
    hide NumBits, BitWriter.Valid, AllWellFormed, HasCode, TokenBit, TokenBits, AllCoded, Sent, RunTokens, RunEnd,
         NaturalOrder;
    ghost var z := Zigzag(block);
    ghost var toks: seq<Token> := [];
    ghost var more: seq<Token>;
    var r: nat, k: nat := 0, 1;
    SentNothing(w.bits, ets);
    while k < DCTSIZE2
      invariant 1 <= k <= 64 && r < k && w.Valid() && w.done == old(w.done)
      invariant forall i :: k - r <= i < k ==> z[i] == 0
      invariant Sent(old(w.bits), w.bits, ets, toks) && AcInRange(z, k)
      invariant RunTokens(z, t, 1, 63) == toks + RunTokens(z, t, k - r, 63)
      invariant RunEnd(z, 1, 63) == RunEnd(z, k - r, 63)
    {
      var temp := block[NaturalOrder(k)];
      if temp == 0 {
        r := r + 1;
      } else {
        ghost var before := w.bits;
        st, more := EncodeCoef(w, actbl, r, temp, ets, t, z, k);
        if st.Failure? {
          if st.error == HuffMissingCode { AcUncoded(ets, t, z, toks, k - r); }
          return;
        }
        SentJoin(old(w.bits), before, w.bits, ets, toks, more);
        Seqs.Assoc(toks, more, RunTokens(z, t, k + 1, 63));
        toks, r := toks + more, 0;
      }
      k := k + 1;
    }
    st := FinishAc(w, actbl, r, old(w.bits), toks, z, ets, t);
  }

  lemma AcUncoded(ets: seq<EncTable>, t: nat, z: seq<int>, toks: seq<Token>, g: nat)
    requires |z| == 64 && 1 <= g <= 64 && !AllCoded(ets, RunTokens(z, t, g, 63))
    requires RunTokens(z, t, 1, 63) == toks + RunTokens(z, t, g, 63)
    ensures !AllCoded(ets, AcTokens(t, z))
  {
    hide RunTokens, RunEnd, HasCode, AllCoded;
    var eob := if RunEnd(z, 1, 63) <= 63 then [Sym(t, 0)] else [];
    UncodedPart(ets, toks, RunTokens(z, t, g, 63), eob);
    Seqs.Assoc(toks, RunTokens(z, t, g, 63), eob);
  }

  /** If the last coefficients were zero, an end-of-block code. */
  method FinishAc(w: BitWriter, actbl: EncTable, r: nat, ghost before: seq<bool>, ghost toks: seq<Token>,
                  ghost z: seq<int>, ghost ets: seq<EncTable>, ghost t: nat)
    returns (st: Status)
    requires w.Valid() && AllWellFormed(ets) && t < |ets| && ets[t] == actbl
    requires |z| == 64 && r < 64 && (forall i :: 64 - r <= i < 64 ==> z[i] == 0) && AcInRange(z, 64)
    requires Sent(before, w.bits, ets, toks)
    requires RunTokens(z, t, 1, 63) == toks + RunTokens(z, t, 64 - r, 63)
    requires RunEnd(z, 1, 63) == RunEnd(z, 64 - r, 63)
    modifies w
    ensures w.Valid() && w.done == old(w.done)
    ensures Explained(st, AcInRange(z, 64), AllCoded(ets, AcTokens(t, z)))
    ensures st.Success? ==> Sent(before, w.bits, ets, AcTokens(t, z))
  {
    hide NumBits, BitWriter.Valid, AllWellFormed, HasCode, TokenBit, TokenBits, AllCoded, Sent, RunTokens, RunEnd;
    RunOut(z, t, 64 - r, 63);
    assert toks + [] == toks;
    if r > 0 {
      ghost var mid := w.bits;
      var ok := EmitSymbol(w, actbl, 0, ets, t);
      if !ok {
        Uncoded(ets, toks, Sym(t, 0), []);
        assert [Sym(t, 0)] + [] == [Sym(t, 0)];
        return Failure(HuffMissingCode);
      }
      SentMore(before, mid, w.bits, ets, toks, Sym(t, 0));
    } else {
      assert AcTokens(t, z) == toks;
    }
    SentCoded(before, w.bits, ets, AcTokens(t, z));
    return Success;
  }

  /** `encode_one_block`. */
  method EncodeOneBlock(w: BitWriter, dctbl: EncTable, actbl: EncTable, block: seq<int>, lastDc: int,
                        ghost ets: seq<EncTable>, ghost dcT: nat, ghost acT: nat)
    returns (st: Status)
    requires w.Valid() && AllWellFormed(ets) && |block| == 64
    requires dcT < |ets| && ets[dcT] == dctbl && acT < |ets| && ets[acT] == actbl
    modifies w
    ensures w.Valid() && w.done == old(w.done)
    ensures Explained(st, InRange(Zigzag(block), lastDc), AllCoded(ets, BlockTokens(dcT, acT, Zigzag(block), lastDc)))
    ensures st.Success? ==> Sent(old(w.bits), w.bits, ets, BlockTokens(dcT, acT, Zigzag(block), lastDc))
  {
    hide BitWriter.Valid, AllWellFormed, HasCode, TokenBits, Sent, DcTokens, AcTokens, AcInRange, DcInRange;
    ghost var z := Zigzag(block);
    BothCoded(ets, DcTokens(dcT, z[0] - lastDc), AcTokens(acT, z));
    st := EncodeDc(w, dctbl, block[0], lastDc, ets, dcT);
    if st.Failure? { return; }
    ghost var before := w.bits;
    st := EncodeAc(w, actbl, block, ets, acT);
    if st.Success? { SentJoin(old(w.bits), before, w.bits, ets, DcTokens(dcT, z[0] - lastDc), AcTokens(acT, z)); }
  }

  lemma BothCoded(ets: seq<EncTable>, a: seq<Token>, b: seq<Token>)
    ensures AllCoded(ets, a + b) <==> AllCoded(ets, a) && AllCoded(ets, b)
  {
    hide HasCode;
    if AllCoded(ets, a + b) {
      forall tok | tok in a ensures HasCode(ets, tok) { assert tok in a + b; }
      forall tok | tok in b ensures HasCode(ets, tok) { assert tok in a + b; }
    }
  }

  // ----- Gathering statistics -----

  /** The DC part of `htest_one_block`. */
  method GatherDc(dcCounts: array<nat>, dc: int, lastDc: int, ghost t: nat) returns (st: Status)
    requires dcCounts.Length == 257
    modifies dcCounts
    ensures Explained(st, DcInRange(dc - lastDc), true)
    ensures st.Success? ==> Tallied(old(dcCounts[..]), dcCounts[..], t, DcTokens(t, dc - lastDc))
  {
    hide Tallied, NumBits;
    var temp := dc - lastDc;
    var nbits := BitLength(Abs(temp));
    if nbits > MAX_COEF_BITS + 1 { return Failure(BadDctCoef); }
    TalliedNothing(dcCounts[..], t);
    CountSymbol(dcCounts, nbits, dcCounts[..], t, []);
    assert [] + [Sym(t, nbits)] == [Sym(t, nbits)];
    if temp != 0 {
      ghost var raw := Raw(ValueBits(temp), nbits);
      TalliedRaw(old(dcCounts[..]), dcCounts[..], t, [Sym(t, nbits)], raw);
      assert [Sym(t, nbits)] + [raw] == ValueTokens(t, 0, temp);
    }
    return Success;
  }

  /** Counts the ZRL symbols before the value at `k`. */
  method GatherZrls(acCounts: array<nat>, r0: nat, ghost before: seq<nat>, ghost t: nat, ghost toks0: seq<Token>,
                    ghost z: seq<int>, ghost k: nat)
    returns (r: nat, ghost toks: seq<Token>)
    requires acCounts.Length == 257 && Tallied(before, acCounts[..], t, toks0)
    requires |z| == 64 && r0 <= k <= 63 && z[k] != 0 && forall i :: k - r0 <= i < k ==> z[i] == 0
    modifies acCounts
    ensures r <= 15 && r <= r0 && Tallied(before, acCounts[..], t, toks)
    ensures toks0 + RunTokens(z, t, k - r0, 63) == toks + RunTokens(z, t, k - r, 63)
    ensures RunEnd(z, k - r0, 63) == RunEnd(z, k - r, 63)
  {
    hide Tallied, RunTokens, RunEnd;
    r, toks := r0, toks0;
    while r > 15
      invariant r <= r0 && Tallied(before, acCounts[..], t, toks)
      invariant toks0 + RunTokens(z, t, k - r0, 63) == toks + RunTokens(z, t, k - r, 63)
      invariant RunEnd(z, k - r0, 63) == RunEnd(z, k - r, 63)
    {
      RunOver(z, t, k - r, k, 63);
      CountSymbol(acCounts, ZRL, before, t, toks);
      Seqs.Assoc(toks, [Sym(t, ZRL)], RunTokens(z, t, k - r + 16, 63));
      toks, r := toks + [Sym(t, ZRL)], r - 16;
    }
  }

  /** Counts the symbols for the nonzero coefficient at `k`, after `r0` zeros. */
  method GatherCoef(acCounts: array<nat>, r0: nat, temp: int, ghost before: seq<nat>, ghost t: nat,
                    ghost toks0: seq<Token>, ghost z: seq<int>, ghost k: nat)
    returns (st: Status, ghost toks: seq<Token>)
    requires acCounts.Length == 257 && Tallied(before, acCounts[..], t, toks0)
    requires |z| == 64 && r0 <= k <= 63 && temp == z[k] != 0 && forall i :: k - r0 <= i < k ==> z[i] == 0
    modifies acCounts
    ensures Explained(st, NumBits(Abs(temp)) <= MAX_COEF_BITS, true)
    ensures st.Success? ==> Tallied(before, acCounts[..], t, toks)
    ensures st.Success? ==> toks0 + RunTokens(z, t, k - r0, 63) == toks + RunTokens(z, t, k + 1, 63)
    ensures st.Success? ==> RunEnd(z, k - r0, 63) == RunEnd(z, k + 1, 63)
  {
    hide Tallied, RunTokens, RunEnd, NumBits, ValueTokens;
    var r;
    r, toks := GatherZrls(acCounts, r0, before, t, toks0, z, k);
    var nbits := BitLengthNonzero(Abs(temp));
    if nbits > MAX_COEF_BITS { return Failure(BadDctCoef), toks; }
    CountSymbol(acCounts, r * 16 + nbits, before, t, toks);
    ghost var sym, raw := Sym(t, r * 16 + nbits), Raw(ValueBits(temp), nbits);
    TalliedRaw(before, acCounts[..], t, toks + [sym], raw);
    RunValue(z, t, k - r, k, 63);
    ValueStep(toks, t, r, temp, RunTokens(z, t, k + 1, 63));
    return Success, (toks + [sym]) + [raw];
  }

  lemma ValueStep(toks: seq<Token>, t: nat, r: nat, v: int, rest: seq<Token>)
    ensures var sym, raw := Sym(t, r * 16 + NumBits(Abs(v))), Raw(ValueBits(v), NumBits(Abs(v)));
            toks + (ValueTokens(t, r, v) + rest) == ((toks + [sym]) + [raw]) + rest
  {
    hide NumBits, ValueBits;
  }

  /** The AC part of `htest_one_block`. */
  method GatherAc(acCounts: array<nat>, block: seq<int>, ghost t: nat) returns (st: Status)
    requires acCounts.Length == 257 && |block| == 64
    modifies acCounts
    ensures Explained(st, AcInRange(Zigzag(block), 64), true)
    ensures st.Success? ==> Tallied(old(acCounts[..]), acCounts[..], t, AcTokens(t, Zigzag(block)))
  {
    hide Tallied, RunTokens, RunEnd, NumBits, NaturalOrder;
    ghost var z := Zigzag(block);
    ghost var before, toks: seq<Token> := acCounts[..], [];
    var r: nat, k: nat := 0, 1;
    TalliedNothing(before, t);
    assert RunTokens(z, t, 1, 63) == [] + RunTokens(z, t, 1, 63);
    while k < DCTSIZE2
      invariant 1 <= k <= 64 && r < k && Tallied(before, acCounts[..], t, toks)
      invariant (forall i :: k - r <= i < k ==> z[i] == 0) && AcInRange(z, k)
      invariant RunTokens(z, t, 1, 63) == toks + RunTokens(z, t, k - r, 63)
      invariant RunEnd(z, 1, 63) == RunEnd(z, k - r, 63)
    {
      var temp := block[NaturalOrder(k)];
      if temp == 0 {
        r := r + 1;
      } else {
        st, toks := GatherCoef(acCounts, r, temp, before, t, toks, z, k);
        if st.Failure? { return; }
        r := 0;
      }
      k := k + 1;
    }
    RunOut(z, t, 64 - r, 63);
    assert toks + [] == toks;
    if r > 0 {
      CountSymbol(acCounts, 0, before, t, toks);
    } else {
      assert AcTokens(t, z) == toks;
    }
    return Success;
  }

  /** `htest_one_block`: the symbols counted are those that `encode_one_block` emits. */
  method HtestOneBlock(dcCounts: array<nat>, acCounts: array<nat>, block: seq<int>, lastDc: int,
                       ghost dcT: nat, ghost acT: nat)
    returns (st: Status)
    requires dcCounts.Length == acCounts.Length == 257 && dcCounts != acCounts && |block| == 64 && dcT != acT
    modifies dcCounts, acCounts
    ensures Explained(st, InRange(Zigzag(block), lastDc), true)
    ensures st.Success? ==> Tallied(old(dcCounts[..]), dcCounts[..], dcT, BlockTokens(dcT, acT, Zigzag(block), lastDc))
    ensures st.Success? ==> Tallied(old(acCounts[..]), acCounts[..], acT, BlockTokens(dcT, acT, Zigzag(block), lastDc))
  {
    hide Tallied, DcTokens, AcTokens, AcInRange, DcInRange;
    ghost var z := Zigzag(block);
    assert z[0] == block[0];
    st := GatherDc(dcCounts, block[0], lastDc, dcT);
    if st.Failure? { return; }
    ghost var dc := dcCounts[..];
    st := GatherAc(acCounts, block, acT);
    if st.Failure? { return; }
    assert dcCounts[..] == dc;
    OwnTable(dcT, acT, z, lastDc);
    TalliedOwn(old(dcCounts[..]), dcCounts[..], dcT, DcTokens(dcT, z[0] - lastDc), BlockTokens(dcT, acT, z, lastDc));
    TalliedOwn(old(acCounts[..]), acCounts[..], acT, AcTokens(acT, z), BlockTokens(dcT, acT, z, lastDc));
  }

  lemma TalliedOwn(before: seq<nat>, after: seq<nat>, t: nat, a: seq<Token>, b: seq<Token>)
    requires Tallied(before, after, t, a) && forall s :: 0 <= s < 256 ==> Tally(t, s, a) == Tally(t, s, b)
    ensures Tallied(before, after, t, b)
  {
    hide Tally;
  }

  lemma {:induction false} RunsOfTable(z: seq<int>, t: nat, k: nat, se: nat)
    requires se < |z| && k <= se + 1
    ensures OfTable(RunTokens(z, t, k, se), t)
    decreases se + 1 - k
  {
    hide NumBits, ValueBits, NextNonzero;
    var p := NextNonzero(z, k, se);
    if p <= se {
      if p - k > 15 { RunsOfTable(z, t, k + 16, se); } else { RunsOfTable(z, t, p + 1, se); }
    }
  }

  lemma OwnTable(dcT: nat, acT: nat, z: seq<int>, lastDc: int)
    requires |z| == 64 && dcT != acT
    ensures forall s :: 0 <= s < 256 ==>
              Tally(dcT, s, BlockTokens(dcT, acT, z, lastDc)) == Tally(dcT, s, DcTokens(dcT, z[0] - lastDc))
    ensures forall s :: 0 <= s < 256 ==>
              Tally(acT, s, BlockTokens(dcT, acT, z, lastDc)) == Tally(acT, s, AcTokens(acT, z))
  {
    hide Tally, RunTokens, RunEnd, NumBits, ValueBits;
    var a, b := DcTokens(dcT, z[0] - lastDc), AcTokens(acT, z);
    RunsOfTable(z, acT, 1, 63);
    assert OfTable(a, dcT) && OfTable(b, acT);
    forall s | 0 <= s < 256 ensures Tally(dcT, s, a + b) == Tally(dcT, s, a) && Tally(acT, s, a + b) == Tally(acT, s, b) {
      TallyConcat(dcT, s, a, b);
      TallyConcat(acT, s, a, b);
      NoneOfTable(b, acT, dcT, s);
      NoneOfTable(a, dcT, acT, s);
    }
  }
}
