/**
 Huffman decoding: what a canonical code means on a bit stream, the decoder's derived table, and the fast
 decoding procedure (`jpeg_make_d_derived_tbl`, `jpeg_huff_decode`, HUFF_DECODE) that refines it.
 */
module HuffDecoding {
  import opened Arith
  import opened Bits
  import opened BitInput
  import opened HuffTables

  // ----- Meaning -----

  /** The least length from `l` on at which the next bits are below the end of that length's codes; 17 if none. */
  function FindLength(bits: seq<nat>, data: seq<bool>, n: nat, l: nat): (r: nat)
    requires |bits| == 17 && 1 <= l <= 17
    ensures l <= r <= 17
    ensures r <= 16 ==> Peek(data, n, r) < NextCode(bits, r)
    ensures forall k :: l <= k < r ==> Peek(data, n, k) >= NextCode(bits, k)
    decreases 17 - l
  {
    if l == 17 then 17
    else if Peek(data, n, l) < NextCode(bits, l) then l
    else FindLength(bits, data, n, l + 1)
  }

  function DecodeLength(bits: seq<nat>, data: seq<bool>, n: nat): (r: nat)
    requires |bits| == 17
    ensures 1 <= r <= 17
  {
    FindLength(bits, data, n, 1)
  }

  /** Bits at or beyond the codes of length `l` extend to bits at or beyond the first code of length `l + 1`. */
  lemma PastShorter(bits: seq<nat>, data: seq<bool>, n: nat, l: nat)
    requires 1 <= l <= 17 == |bits|
    requires l == 1 || Peek(data, n, l - 1) >= NextCode(bits, l - 1)
    ensures Peek(data, n, l) >= FirstCode(bits, l)
  {
  }

  /** The position in the symbol list of the code that stands at bit `n`. */
  function DecodeIndex(bits: seq<nat>, data: seq<bool>, n: nat): (p: nat)
    requires |bits| == 17 && DecodeLength(bits, data, n) <= 16
    ensures p < Count(bits, 16)
  {
    var l := DecodeLength(bits, data, n);
    PastShorter(bits, data, n, l);
    CountMono(bits, l, 16);
    Count(bits, l - 1) + (Peek(data, n, l) - FirstCode(bits, l))
  }

  /** The decoded symbol; 0 stands in when no code matches. */
  function DecodeSymbol(h: HuffTable, data: seq<bool>, n: nat): (s: nat)
    requires h.WellTyped() && Count(h.bits, 16) <= 256
    ensures s < 256
  {
    if DecodeLength(h.bits, data, n) == 17 then 0 else h.huffval[DecodeIndex(h.bits, data, n)]
  }

  /** The p-th code, of length `l`, stands at bit `n`. */
  predicate CodeAt(bits: seq<nat>, data: seq<bool>, n: nat, p: nat, l: nat) {
    HasLength(bits, p, l) && Peek(data, n, l) == CodeOf(bits, p, l)
  }

  /** Bits that start a longer code lie beyond all codes of each shorter length. */
  lemma {:induction false} BeyondShorter(bits: seq<nat>, data: seq<bool>, n: nat, k: nat, l: nat)
    requires 1 <= k < l <= 16 && |bits| == 17 && Peek(data, n, l) >= FirstCode(bits, l)
    ensures Peek(data, n, k) >= NextCode(bits, k)
    decreases l
  {
    assert Peek(data, n, l - 1) >= NextCode(bits, l - 1);
    if k < l - 1 { BeyondShorter(bits, data, n, k, l - 1); }
  }

  /** Whatever code stands at bit `n` is the one that is decoded: no code is a prefix of another. */
  lemma DecodesCode(bits: seq<nat>, data: seq<bool>, n: nat, p: nat, l: nat)
    requires |bits| == 17 && CodeAt(bits, data, n, p, l)
    ensures DecodeLength(bits, data, n) == l && DecodeIndex(bits, data, n) == p
  {
    var r := DecodeLength(bits, data, n);
    if r < l { BeyondShorter(bits, data, n, r, l); }
  }

  /** Conversely, a decoded symbol stems from a code that stands at bit `n`. */
  lemma DecodedIsCode(bits: seq<nat>, data: seq<bool>, n: nat)
    requires |bits| == 17 && DecodeLength(bits, data, n) <= 16
    ensures CodeAt(bits, data, n, DecodeIndex(bits, data, n), DecodeLength(bits, data, n))
  {
    var l := DecodeLength(bits, data, n);
    PastShorter(bits, data, n, l);
    NextIsEnd(bits, l);
  }

  /** Length 17 means that no code stands at bit `n`. */
  lemma UndecodedIsNoCode(bits: seq<nat>, data: seq<bool>, n: nat, p: nat, l: nat)
    requires |bits| == 17 && DecodeLength(bits, data, n) == 17
    ensures !CodeAt(bits, data, n, p, l)
  {
    if CodeAt(bits, data, n, p, l) { DecodesCode(bits, data, n, p, l); }
  }

  /** Where no code stands, symbol 0 is taken, and only 17 bits are gone. */
  lemma NoCodeIsZero(h: HuffTable, data: seq<bool>, n: nat)
    requires h.WellTyped() && Count(h.bits, 16) <= 256 && forall p: nat, l: nat :: !CodeAt(h.bits, data, n, p, l)
    ensures DecodeSymbol(h, data, n) == 0 && DecodeLength(h.bits, data, n) == 17
  {
    if DecodeLength(h.bits, data, n) <= 16 { DecodedIsCode(h.bits, data, n); }
  }

  /** A table that does not list more symbols than it has room for. */
  ghost predicate Decodable(h: HuffTable) { h.WellTyped() && Count(h.bits, 16) <= 256 }

  // ----- Derived table -----

  const HUFF_LOOKAHEAD := 8

  /** `d_derived_tbl`: per-length bounds, and the answers for codes of at most eight bits. */
  datatype DecTable = DecTable(maxcode: seq<int>, valoffset: seq<int>, lookNbits: seq<nat>, lookSym: seq<nat>)

  ghost predicate BoundsAt(bits: seq<nat>, maxcode: int, valoffset: int, l: nat)
    requires 1 <= l < |bits|
  {
    if bits[l] == 0 then maxcode == -1
    else maxcode == NextCode(bits, l) - 1 && valoffset == Count(bits, l - 1) - FirstCode(bits, l)
  }

  /** The entry for the eight bits `look`: the code they start with, if it has at most eight bits. */
  ghost predicate LookAt(h: HuffTable, nbits: nat, sym: nat, look: nat)
    requires h.WellTyped() && Count(h.bits, 16) <= 256
  {
    if nbits == 0 then look >= NextCode(h.bits, 8)
    else
      && nbits <= 8
      && FirstCode(h.bits, nbits) <= look / Pow2(8 - nbits) < NextCode(h.bits, nbits)
      && IsSymbol(h, Count(h.bits, nbits - 1) + (look / Pow2(8 - nbits) - FirstCode(h.bits, nbits)), sym)
  }

  ghost predicate Derived(h: HuffTable, d: DecTable) {
    && h.WellTyped() && Count(h.bits, 16) <= 256
    && |d.maxcode| == 18 && |d.valoffset| == 17 && |d.lookNbits| == |d.lookSym| == 256
    && d.maxcode[17] == 0xFFFFF
    && (forall l :: 1 <= l <= 16 ==> BoundsAt(h.bits, d.maxcode[l], d.valoffset[l], l))
    && (forall look :: 0 <= look < 256 ==> LookAt(h, d.lookNbits[look], d.lookSym[look], look))
  }

  /** Figure F.15: bounds for bit-sequential decoding. */
  method DeriveBounds(bits: seq<nat>, huffsize: seq<nat>, huffcode: seq<nat>)
    returns (maxcode: seq<int>, valoffset: seq<int>)
    requires |bits| == 17 && |huffsize| == |huffcode| == Count(bits, 16)
    requires forall q :: 0 <= q < |huffsize| ==>
               HasLength(bits, q, huffsize[q]) && huffcode[q] == CodeOf(bits, q, huffsize[q])
    ensures |maxcode| == 18 && |valoffset| == 17 && maxcode[17] == 0xFFFFF
    ensures forall l :: 1 <= l <= 16 ==> BoundsAt(bits, maxcode[l], valoffset[l], l)
  {
    maxcode, valoffset := seq(18, i => 0), seq(17, i => 0);
    var p, l := 0, 1;
    while l <= 16
      invariant 1 <= l <= 17 && p == Count(bits, l - 1) && |maxcode| == 18 && |valoffset| == 17
      invariant forall k :: 1 <= k < l ==> BoundsAt(bits, maxcode[k], valoffset[k], k)
    {
      if bits[l] != 0 {
        CountMono(bits, l, 16);
        CodeInLength(bits, p, l, huffsize[p]);
        CodeInLength(bits, p + bits[l] - 1, l, huffsize[p + bits[l] - 1]);
        valoffset := valoffset[l := p - huffcode[p]];
        p := p + bits[l];
        maxcode := maxcode[l := huffcode[p - 1]];
      } else {
        maxcode := maxcode[l := -1];
      }
      l := l + 1;
    }
    maxcode := maxcode[17 := 0xFFFFF];
  }

  lemma CodeInLength(bits: seq<nat>, p: nat, l: nat, l': nat)
    requires HasLength(bits, p, l) && HasLength(bits, p, l')
    ensures l == l' && CodeOf(bits, p, l') == FirstCode(bits, l) + (p - Count(bits, l - 1))
  {
    LengthUnique(bits, p, l, l');
  }

  /** Entries below `edge` answer for the codes entered so far; the rest are still 0. */
  ghost predicate Filled(h: HuffTable, nbits: seq<nat>, sym: seq<nat>, edge: nat)
    requires h.WellTyped() && Count(h.bits, 16) <= 256
  {
    && |nbits| == |sym| == 256
    && (forall look :: 0 <= look < 256 && look < edge ==> nbits[look] != 0 && LookAt(h, nbits[look], sym[look], look))
    && (forall look :: 0 <= look < 256 && edge <= look ==> nbits[look] == 0)
  }

  /** The first eight-bit value whose top `l` bits are `c`. */
  function Edge(c: nat, l: nat): (e: nat)
    requires l <= 8
  {
    MulNonNeg(c, Pow2(8 - l));
    c * Pow2(8 - l)
  }

  lemma BlockBounds(code: nat, l: nat)
    requires 1 <= l <= 8 && code < Pow2(l)
    ensures Edge(code + 1, l) == Edge(code, l) + Pow2(8 - l) <= 256
  {
    hide Pow2;
    Pow2Add(l, 8 - l);
    MulDistrib(code, 1, Pow2(8 - l));
    MulMono(code + 1, Pow2(l), Pow2(8 - l));
    Pow2Literals();
  }

  lemma EntryAnswers(h: HuffTable, p: nat, l: nat, code: nat, look: nat)
    requires h.WellTyped() && Legal(h.bits) && l <= 8 && HasLength(h.bits, p, l) && code == CodeOf(h.bits, p, l)
    requires look < 256 && Edge(code, l) <= look < Edge(code, l) + Pow2(8 - l)
    ensures p < 256 && LookAt(h, l, h.huffval[p], look)
  {
    hide Pow2, FirstCode, Count;
    CountMono(h.bits, l, 16);
    NextIsEnd(h.bits, l);
    DivModUnique(code, look - Edge(code, l), Pow2(8 - l), look);
  }

  lemma CodeBound(bits: seq<nat>, p: nat, l: nat)
    requires Legal(bits) && HasLength(bits, p, l)
    ensures CodeOf(bits, p, l) < NextCode(bits, l) < Pow2(l)
  {
  }

  /** All bit sequences that start with the p-th code, whose length is `l`. */
  method FillBlock(h: HuffTable, p: nat, l: nat, code: nat, nbits0: seq<nat>, sym0: seq<nat>)
    returns (nbits: seq<nat>, sym: seq<nat>)
    requires h.WellTyped() && Legal(h.bits) && l <= 8 && HasLength(h.bits, p, l) && code == CodeOf(h.bits, p, l)
    requires Filled(h, nbits0, sym0, Edge(code, l))
    ensures Filled(h, nbits, sym, Edge(code + 1, l))
  {
    hide Pow2, FirstCode, Count, LookAt, Edge;
    nbits, sym := nbits0, sym0;
    CodeBound(h.bits, p, l);
    BlockBounds(code, l);
    CountMono(h.bits, l, 16);
    var look: nat, ctr: nat := Edge(code, l), Pow2(8 - l);
    while ctr > 0
      invariant 0 <= ctr <= Pow2(8 - l) && look + ctr == Edge(code + 1, l)
      invariant Filled(h, nbits, sym, look)
    {
      EntryAnswers(h, p, l, code, look);
      nbits, sym := nbits[look := l], sym[look := h.huffval[p]];
      look, ctr := look + 1, ctr - 1;
    }
  }

  lemma EdgeCarries(c: nat, l: nat)
    requires 1 <= l < 8
    ensures Edge(c, l) == Edge(2 * c, l + 1)
  {
    MulAssoc(c, 2, Pow2(8 - (l + 1)));
    MulAssoc(2, c, Pow2(8 - (l + 1)));
  }

  /** The entries for all codes of length `l`, which begin with the p-th code. */
  method FillLength(h: HuffTable, huffcode: seq<nat>, l: nat, p: nat, nbits0: seq<nat>, sym0: seq<nat>)
    returns (nbits: seq<nat>, sym: seq<nat>)
    requires h.WellTyped() && Legal(h.bits) && 1 <= l <= 8 && p == Count(h.bits, l - 1)
    requires Count(h.bits, l) <= |huffcode|
    requires forall q :: p <= q < Count(h.bits, l) ==> HasLength(h.bits, q, l) && huffcode[q] == CodeOf(h.bits, q, l)
    requires Filled(h, nbits0, sym0, Edge(FirstCode(h.bits, l), l))
    ensures Filled(h, nbits, sym, Edge(NextCode(h.bits, l), l))
  {
    hide Pow2, Count, LookAt, FirstCode, Filled, Edge;
    nbits, sym := nbits0, sym0;
    NextIsEnd(h.bits, l);
    var i := 1;
    while i <= h.bits[l]
      invariant 1 <= i <= h.bits[l] + 1
      invariant Filled(h, nbits, sym, Edge(FirstCode(h.bits, l) + (i - 1), l))
    {
      nbits, sym := FillBlock(h, p + (i - 1), l, huffcode[p + (i - 1)], nbits, sym);
      i := i + 1;
    }
  }

  /** The lookahead tables. */
  method DeriveLookahead(h: HuffTable, huffsize: seq<nat>, huffcode: seq<nat>)
    returns (nbits: seq<nat>, sym: seq<nat>)
    requires h.WellTyped() && Legal(h.bits) && |huffsize| == |huffcode| == Count(h.bits, 16)
    requires forall q :: 0 <= q < |huffsize| ==>
               HasLength(h.bits, q, huffsize[q]) && huffcode[q] == CodeOf(h.bits, q, huffsize[q])
    ensures Filled(h, nbits, sym, NextCode(h.bits, 8))
  {
    nbits, sym := seq(256, i => 0), seq(256, i => 0);
    var l := 1;
    while l <= HUFF_LOOKAHEAD
      invariant 1 <= l <= 9
      invariant Filled(h, nbits, sym, if l <= 8 then Edge(FirstCode(h.bits, l), l) else NextCode(h.bits, 8))
    {
      hide Pow2, LookAt, Filled, FirstCode, Edge;
      CountMono(h.bits, l, 16);
      forall q | Count(h.bits, l - 1) <= q < Count(h.bits, l)
        ensures HasLength(h.bits, q, l) && huffcode[q] == CodeOf(h.bits, q, l)
      {
        CodeInLength(h.bits, q, l, huffsize[q]);
      }
      nbits, sym := FillLength(h, huffcode, l, Count(h.bits, l - 1), nbits, sym);
      NextIsEnd(h.bits, l);
      if l < 8 { EdgeCarries(NextCode(h.bits, l), l); } else { EdgeLast(NextCode(h.bits, l)); }
      l := l + 1;
    }
  }

  lemma EdgeLast(c: nat)
    ensures Edge(c, 8) == c
  {
  }

  /** `jpeg_make_d_derived_tbl`. */
  method MakeDecTable(isDC: bool, h: HuffTable) returns (r: Result<DecTable>)
    requires h.WellTyped()
    ensures r.Ok? <==> Legal(h.bits) && (isDC ==> forall p :: 0 <= p < Count(h.bits, 16) ==> h.huffval[p] <= 15)
    ensures r.Err? ==> r.error == BadHuffTable
    ensures r.Ok? ==> Derived(h, r.value)
  {
    var c1 := CodeLengths(h.bits);
    if c1.Err? { return Err(c1.error); }
    var (huffsize, numsymbols) := c1.value;
    var c2 := AssignCodes(h.bits, huffsize, numsymbols);
    if c2.Err? { return Err(c2.error); }
    var sizes, codes := huffsize[..numsymbols], c2.value[..numsymbols];
    var maxcode, valoffset := DeriveBounds(h.bits, sizes, codes);
    var nbits, sym := DeriveLookahead(h, sizes, codes);
    var d := DecTable(maxcode, valoffset, nbits, sym);
    DerivedIntro(h, d);
    if isDC {
      var i := 0;
      while i < numsymbols
        invariant 0 <= i <= numsymbols
        invariant forall p :: 0 <= p < i ==> h.huffval[p] <= 15
      {
        if h.huffval[i] > 15 { return Err(BadHuffTable); }
        i := i + 1;
      }
    }
    return Ok(d);
  }

  lemma DerivedIntro(h: HuffTable, d: DecTable)
    requires h.WellTyped() && Legal(h.bits) && |d.maxcode| == 18 && |d.valoffset| == 17 && d.maxcode[17] == 0xFFFFF
    requires forall l :: 1 <= l <= 16 ==> BoundsAt(h.bits, d.maxcode[l], d.valoffset[l], l)
    requires Filled(h, d.lookNbits, d.lookSym, NextCode(h.bits, 8))
    ensures Derived(h, d)
  {
  }

  // ----- Decoding -----

  /** The bit-serial loop decides correctly at length `l`. */
  lemma SerialStep(h: HuffTable, d: DecTable, data: seq<bool>, n: nat, l: nat)
    requires Derived(h, d) && 1 <= l <= 17 && DecodeLength(h.bits, data, n) >= l
    ensures l == 17 ==> Peek(data, n, l) <= d.maxcode[l]
    ensures l <= 16 ==> (Peek(data, n, l) > d.maxcode[l] <==> DecodeLength(h.bits, data, n) > l)
    ensures l <= 16 && Peek(data, n, l) <= d.maxcode[l] ==>
              var p := Peek(data, n, l) + d.valoffset[l];
              0 <= p < 256 && DecodeSymbol(h, data, n) == h.huffval[p]
  {
    hide Pow2, Peek, LookAt, Count, FirstCode;
    assert l == 1 || Peek(data, n, l - 1) >= NextCode(h.bits, l - 1);
    PastShorter(h.bits, data, n, l);
    PeekBound(data, n, l);
    Pow2Literals();
    if l <= 16 {
      assert BoundsAt(h.bits, d.maxcode[l], d.valoffset[l], l);
      CountMono(h.bits, l, 16);
      NextIsEnd(h.bits, l);
    }
  }

  /** The lookahead entry is the decoded code, or tells that the code has more than eight bits. */
  lemma LookupIsDecode(h: HuffTable, d: DecTable, data: seq<bool>, n: nat)
    requires Derived(h, d)
    ensures var look := Peek(data, n, 8);
            && look < 256
            && if d.lookNbits[look] == 0 then DecodeLength(h.bits, data, n) >= 9
               else DecodeLength(h.bits, data, n) == d.lookNbits[look] <= 8
                    && DecodeSymbol(h, data, n) == d.lookSym[look]
  {
    hide Pow2, Peek, Count, FirstCode;
    Pow2Literals();
    PeekBound(data, n, 8);
    var look := Peek(data, n, 8);
    var nb := d.lookNbits[look];
    assert LookAt(h, nb, d.lookSym[look], look);
    if nb == 0 {
      var l := DecodeLength(h.bits, data, n);
      if l < 8 { BeyondShorter(h.bits, data, n, l, 8); }
    } else {
      PeekDivMod(data, n, nb, 8 - nb);
      var p := Count(h.bits, nb - 1) + (Peek(data, n, nb) - FirstCode(h.bits, nb));
      NextIsEnd(h.bits, nb);
      assert CodeAt(h.bits, data, n, p, nb);
      DecodesCode(h.bits, data, n, p, nb);
    }
  }

  /** `jpeg_huff_decode`: bit-serial decoding of a code known to have at least `minBits` bits. */
  method SlowDecode(src: BitSource, h: HuffTable, d: DecTable, st: BitState, minBits: nat, ghost n: nat)
    returns (ok: bool, sym: nat, st': BitState)
    requires src.At(st, n) && Derived(h, d) && 1 <= minBits <= 9 && DecodeLength(h.bits, src.data, n) >= minBits
    modifies src`unreadMarker, src`insufficient
    ensures ok ==> sym == DecodeSymbol(h, src.data, n) && src.At(st', n + DecodeLength(h.bits, src.data, n))
    ensures ok && src.insufficient && !old(src.insufficient) ==> |src.data| < n + DecodeLength(h.bits, src.data, n)
    ensures ok ==> Packable(st')
    ensures (ok && src.Kept()) || (!ok && src.Untouched() && !src.Delivered())
  {
    hide Peek, Derived, DecodeLength, DecodeSymbol, BitOr, Count;
    DerivedShape(h, d);
    var l, code, b: nat := minBits, 0, 0;
    ok, code, st' := src.GetBits(st, l, n);
    if !ok { return false, 0, st; }
    SerialStep(h, d, src.data, n, l);
    while code > d.maxcode[l]
      invariant 1 <= l <= 17 && l <= DecodeLength(h.bits, src.data, n) <= 17
      invariant code == Peek(src.data, n, l) && src.At(st', n + l) && Packable(st')
      invariant src.Kept()
      invariant src.insufficient && !old(src.insufficient) ==> |src.data| < n + l
      decreases 17 - l
    {
      SerialStep(h, d, src.data, n, l);
      code := code * 2;
      ok, b, st' := src.GetBits(st', 1, n + l);
      if !ok { return false, 0, st; }
      PeekOneMore(src.data, n, l);
      code, l := BitOr(code, b), l + 1;
    }
    SerialStep(h, d, src.data, n, l);
    if l > 16 {
      NoCode(h, src.data, n);
      return true, 0, st';
    }
    return true, h.huffval[code + d.valoffset[l]], st';
  }

  lemma DerivedShape(h: HuffTable, d: DecTable)
    requires Derived(h, d)
    ensures h.WellTyped() && Count(h.bits, 16) <= 256 && |d.maxcode| == 18 && |d.valoffset| == 17
    ensures |d.lookNbits| == |d.lookSym| == 256
  {
  }

  lemma NoCode(h: HuffTable, data: seq<bool>, n: nat)
    requires h.WellTyped() && Count(h.bits, 16) <= 256 && DecodeLength(h.bits, data, n) == 17
    ensures DecodeSymbol(h, data, n) == 0
  {
  }

  lemma PeekOneMore(data: seq<bool>, n: nat, l: nat)
    ensures Peek(data, n, l + 1) == BitOr(Peek(data, n, l) * 2, Peek(data, n + l, 1))
  {
    assert Peek(data, n + l, 0) == 0;
    assert Pow2(1) == 2;
    BitOrDisjoint(Peek(data, n, l), Peek(data, n + l, 1), 1);
  }

  /** The lookup in the table for the next eight bits, which the buffer holds. */
  method LookAhead(src: BitSource, h: HuffTable, d: DecTable, st: BitState, ghost n: nat)
    returns (ok: bool, sym: nat, st': BitState)
    requires src.At(st, n) && Derived(h, d) && HUFF_LOOKAHEAD <= st.left
    modifies src`unreadMarker, src`insufficient
    ensures ok ==> sym == DecodeSymbol(h, src.data, n) && src.At(st', n + DecodeLength(h.bits, src.data, n))
    ensures ok && src.insufficient && !old(src.insufficient) ==> |src.data| < n + DecodeLength(h.bits, src.data, n)
    ensures ok ==> Packable(st')
    ensures (ok && src.Kept()) || (!ok && src.Untouched() && !src.Delivered())
  {
    hide Peek, Derived, DecodeLength, DecodeSymbol, Follows, Holds, BitSource.Delivered;
    DerivedShape(h, d);
    LengthRange(h, src.data, n);
    HoldsAtMost32(st.buf, st.left, src.data, n);
    TakeBits(st.buf, st.left, src.data, n, HUFF_LOOKAHEAD);
    LookupIsDecode(h, d, src.data, n);
    var look := TopBits(st.buf, st.left, HUFF_LOOKAHEAD);
    var nb := d.lookNbits[look];
    if nb != 0 {
      TakeBits(st.buf, st.left, src.data, n, nb);
      ok, sym, st' := true, d.lookSym[look], st.(left := st.left - nb);
    } else {
      ok, sym, st' := SlowDecode(src, h, d, st, HUFF_LOOKAHEAD + 1, n);
    }
  }

  /** HUFF_DECODE: the next symbol of the stream. */
  method HuffDecode(src: BitSource, h: HuffTable, d: DecTable, st: BitState, ghost n: nat)
    returns (ok: bool, sym: nat, st': BitState)
    requires src.At(st, n) && Derived(h, d)
    modifies src`unreadMarker, src`insufficient
    ensures ok ==> sym == DecodeSymbol(h, src.data, n) && src.At(st', n + DecodeLength(h.bits, src.data, n))
    ensures ok && src.insufficient && !old(src.insufficient) ==> |src.data| < n + DecodeLength(h.bits, src.data, n)
    ensures ok && st.left < HUFF_LOOKAHEAD && src.unreadMarker == 0 ==> n + MIN_GET_BITS <= |src.data|
    ensures ok && Packable(st) ==> Packable(st')
    ensures (ok && src.Kept()) || (!ok && src.Untouched() && !src.Delivered())
  {
    hide Peek, Derived, DecodeLength, DecodeSymbol, Follows, Holds, BitSource.Delivered, BitSource.At;
    DerivedShape(h, d);
    LengthRange(h, src.data, n);
    ok, st' := true, st;
    if st'.left < HUFF_LOOKAHEAD {
      ok, st' := src.FillBitBuffer(st, 0, n);
      if !ok { return false, 0, st; }
      if st'.left < HUFF_LOOKAHEAD {
        ok, sym, st' := SlowDecode(src, h, d, st', 1, n);
        return;
      }
    }
    ok, sym, st' := LookAhead(src, h, d, st', n);
  }

  lemma LengthRange(h: HuffTable, data: seq<bool>, n: nat)
    requires h.WellTyped()
    ensures 1 <= DecodeLength(h.bits, data, n) <= 17
  {
  }
}
