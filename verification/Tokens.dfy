/** What the entropy coders emit, as a sequence of Huffman symbols and raw bit fields. */
module Tokens {
  import opened Arith
  import opened Bits
  import opened HuffTables
  import opened HuffDecoding
  import Seqs

  /** A symbol of table `t`, or the low `n` bits of `v`. */
  datatype Token = Sym(t: nat, s: nat) | Raw(v: int, n: nat)

  predicate WellFormed(e: EncTable) {
    |e.ehufco| == |e.ehufsi| == 256 && forall s :: 0 <= s < 256 ==> e.ehufsi[s] <= 16
  }

  predicate AllWellFormed(ets: seq<EncTable>) { forall e <- ets :: WellFormed(e) }

  predicate InTable(ets: seq<EncTable>, t: nat, s: nat) {
    t < |ets| && s < |ets[t].ehufco| && s < |ets[t].ehufsi|
  }

  /** The token can be emitted: its symbol has a code. */
  predicate HasCode(ets: seq<EncTable>, tok: Token) {
    match tok
    case Sym(t, s) => InTable(ets, t, s) && ets[t].ehufsi[s] != 0
    case Raw(v, n) => 1 <= n <= 16
  }

  predicate AllCoded(ets: seq<EncTable>, toks: seq<Token>) { forall tok <- toks :: HasCode(ets, tok) }

  function TokenBit(ets: seq<EncTable>, tok: Token): (w: seq<bool>) {
    match tok
    case Sym(t, s) => if InTable(ets, t, s) then ToBits(ets[t].ehufco[s], ets[t].ehufsi[s]) else []
    case Raw(v, n) => ToBits(v, n)
  }

  function TokenBits(ets: seq<EncTable>, toks: seq<Token>): (w: seq<bool>)
    decreases |toks|
  {
    if toks == [] then [] else TokenBit(ets, toks[0]) + TokenBits(ets, toks[1..])
  }

  lemma {:induction false} TokenBitsConcat(ets: seq<EncTable>, a: seq<Token>, b: seq<Token>)
    ensures TokenBits(ets, a + b) == TokenBits(ets, a) + TokenBits(ets, b)
    decreases |a|
  {
    if a == [] {
      assert a + b == b;
    } else {
      assert (a + b)[0] == a[0] && (a + b)[1..] == a[1..] + b;
      hide TokenBit;
      TokenBitsConcat(ets, a[1..], b);
      Seqs.Assoc(TokenBit(ets, a[0]), TokenBits(ets, a[1..]), TokenBits(ets, b));
    }
  }

  lemma TokenBitsOne(ets: seq<EncTable>, tok: Token)
    ensures TokenBits(ets, [tok]) == TokenBit(ets, tok)
  {
    assert [tok][1..] == [];
    assert TokenBits(ets, []) == [];
  }

  lemma TokenBitsSnoc(ets: seq<EncTable>, a: seq<Token>, tok: Token)
    ensures TokenBits(ets, a + [tok]) == TokenBits(ets, a) + TokenBit(ets, tok)
  {
    TokenBitsConcat(ets, a, [tok]);
    TokenBitsOne(ets, tok);
  }

  datatype Status = Success | Failure(error: Error)

  /** `toks` have been emitted, all of them with codes. */
  ghost predicate Sent(before: seq<bool>, after: seq<bool>, ets: seq<EncTable>, toks: seq<Token>) {
    AllCoded(ets, toks) && after == before + TokenBits(ets, toks)
  }

  lemma SentNothing(bits: seq<bool>, ets: seq<EncTable>)
    ensures Sent(bits, bits, ets, [])
  {
    assert TokenBits(ets, []) == [];
  }

  lemma SentMore(before: seq<bool>, mid: seq<bool>, after: seq<bool>, ets: seq<EncTable>, toks: seq<Token>, tok: Token)
    requires Sent(before, mid, ets, toks) && HasCode(ets, tok) && after == mid + TokenBit(ets, tok)
    ensures Sent(before, after, ets, toks + [tok])
  {
    hide HasCode, TokenBit, TokenBits;
    TokenBitsSnoc(ets, toks, tok);
    Seqs.Assoc(before, TokenBits(ets, toks), TokenBit(ets, tok));
  }

  lemma SentJoin(before: seq<bool>, mid: seq<bool>, after: seq<bool>, ets: seq<EncTable>, a: seq<Token>, b: seq<Token>)
    requires Sent(before, mid, ets, a) && Sent(mid, after, ets, b)
    ensures Sent(before, after, ets, a + b)
  {
    hide HasCode, TokenBit, TokenBits;
    TokenBitsConcat(ets, a, b);
    Seqs.Assoc(before, TokenBits(ets, a), TokenBits(ets, b));
  }

  /** A token without a code spoils every sequence it occurs in. */
  lemma Uncoded(ets: seq<EncTable>, a: seq<Token>, tok: Token, b: seq<Token>)
    requires !HasCode(ets, tok)
    ensures !AllCoded(ets, a + ([tok] + b))
  {
    assert tok in a + ([tok] + b);
  }

  /** The counts of the symbols of table `t`. */
  function Tally(t: nat, s: nat, toks: seq<Token>): (c: nat)
    ensures c <= |toks|
  {
    if toks == [] then 0 else
      var last := toks[|toks| - 1];
      Tally(t, s, toks[..|toks| - 1]) + if last == Sym(t, s) then 1 else 0
  }

  lemma TallySnoc(t: nat, s: nat, toks: seq<Token>, tok: Token)
    ensures Tally(t, s, toks + [tok]) == Tally(t, s, toks) + if tok == Sym(t, s) then 1 else 0
  {
    Seqs.SnocInit(toks, tok);
  }

  lemma {:induction false} TallyConcat(t: nat, s: nat, a: seq<Token>, b: seq<Token>)
    ensures Tally(t, s, a + b) == Tally(t, s, a) + Tally(t, s, b)
    decreases |b|
  {
    if b == [] {
      assert a + b == a;
    } else {
      TallyConcat(t, s, a, b[..|b| - 1]);
      Seqs.InitLast(b);
      Seqs.Assoc(a, b[..|b| - 1], [b[|b| - 1]]);
      TallySnoc(t, s, a + b[..|b| - 1], b[|b| - 1]);
    }
  }

  /** Exactly the symbols that occur are counted. */
  lemma {:induction false} TallyOccurs(t: nat, s: nat, toks: seq<Token>)
    ensures Tally(t, s, toks) > 0 <==> Sym(t, s) in toks
  {
    if toks != [] {
      TallyOccurs(t, s, toks[..|toks| - 1]);
      Seqs.InitLast(toks);
      assert forall x :: x in toks <==> x in toks[..|toks| - 1] || x == toks[|toks| - 1];
    }
  }

  // ----- Reading back -----

  /** `w` stands at bit `n`. */
  predicate Stands(data: seq<bool>, n: nat, w: seq<bool>) {
    n + |w| <= |data| && forall i :: n <= i < n + |w| ==> data[i] == w[i - n]
  }

  lemma StandsSplit(data: seq<bool>, n: nat, a: seq<bool>, b: seq<bool>)
    requires Stands(data, n, a + b)
    ensures Stands(data, n, a) && Stands(data, n + |a|, b)
  {
    forall i | n <= i < n + |a| + |b| ensures data[i] == (a + b)[i - n] {}
  }

  lemma StandsPrefix(data: seq<bool>, w: seq<bool>)
    requires w <= data
    ensures Stands(data, 0, w)
  {
  }

  lemma RawReads(data: seq<bool>, n: nat, v: int, k: nat)
    requires Stands(data, n, ToBits(v, k))
    ensures Peek(data, n, k) == v % Pow2(k)
  {
    hide Peek, ToBits;
    PeekAgree(data, n, ToBits(v, k), 0, k);
    ToBitsPeek(v, k);
  }

  /** The decoder's table `h` and the encoder's table `e` describe the same code. */
  ghost predicate Matches(h: HuffTable, e: EncTable) {
    h.WellTyped() && Legal(h.bits) && |e.ehufco| == |e.ehufsi| == 256 && Encodes(h, e)
  }

  lemma CodedSymbol(h: HuffTable, e: EncTable, s: nat)
    requires Matches(h, e) && s < 256 && e.ehufsi[s] != 0
    ensures exists p: nat :: p < Count(h.bits, 16) && h.huffval[p] == s && HasLength(h.bits, p, e.ehufsi[s])
                             && e.ehufco[s] == CodeOf(h.bits, p, e.ehufsi[s])
  {
    hide Count, FirstCode, CodeOf, HasLength;
    var p :| IsSymbol(h, p, s);
    assert EncodesAt(h, e, p);
  }

  /** A symbol emitted with one table is the symbol decoded with the other, and takes up just its code. */
  lemma SymbolDecodes(h: HuffTable, e: EncTable, data: seq<bool>, n: nat, s: nat)
    requires Matches(h, e) && s < 256 && e.ehufsi[s] != 0
    requires Stands(data, n, ToBits(e.ehufco[s], e.ehufsi[s]))
    ensures DecodeLength(h.bits, data, n) == e.ehufsi[s] <= 16 && DecodeSymbol(h, data, n) == s
  {
    hide Count, FirstCode, Peek, ToBits, Pow2, CodeOf, DecodeLength, DecodeIndex, Encodes;
    CodedSymbol(h, e, s);
    var l := e.ehufsi[s];
    var p: nat :| p < Count(h.bits, 16) && h.huffval[p] == s && HasLength(h.bits, p, l) && e.ehufco[s] == CodeOf(h.bits, p, l);
    CodeBound(h.bits, p, l);
    RawReads(data, n, e.ehufco[s], l);
    DivModUnique(0, e.ehufco[s], Pow2(l), e.ehufco[s]);
    DecodesCode(h.bits, data, n, p, l);
  }

  lemma EncodesWellFormed(h: HuffTable, e: EncTable)
    requires Matches(h, e)
    ensures WellFormed(e)
  {
    hide Count, FirstCode, CodeOf;
    forall s | 0 <= s < 256 ensures e.ehufsi[s] <= 16 {
      if e.ehufsi[s] != 0 { CodedSymbol(h, e, s); }
    }
  }
}
