/**
 Run-length coding of a band of coefficients (sections F.1.2.2 and G.1.2.2 of ITU-T T.81): zero runs and values, as
 tokens and as the decoder reads them.
 */
module RunLength {
  import opened Arith
  import opened Bits
  import opened Coefficients
  import opened HuffTables
  import opened HuffDecoding
  import opened Tokens
  import Seqs

  const ZRL: nat := 0xF0

  // ----- Encoding -----

  /** The first position from `k` on that holds a nonzero value; beyond `se` if there is none. */
  function NextNonzero(z: seq<int>, k: nat, se: nat): (p: nat)
    requires se < |z| && k <= se + 1
    ensures k <= p <= se + 1
    ensures p <= se ==> z[p] != 0
    ensures forall i :: k <= i < p ==> z[i] == 0
    decreases se + 1 - k
  {
    if k > se || z[k] != 0 then k else NextNonzero(z, k + 1, se)
  }

  /** A value with the zeros before it: its symbol and its bits. */
  function ValueTokens(t: nat, r: nat, v: int): (toks: seq<Token>) {
    [Sym(t, r * 16 + NumBits(Abs(v))), Raw(ValueBits(v), NumBits(Abs(v)))]
  }

  /** The tokens for the values from `k` on, up to the last nonzero one. */
  function RunTokens(z: seq<int>, t: nat, k: nat, se: nat): (toks: seq<Token>)
    requires se < |z| && k <= se + 1
    decreases se + 1 - k
  {
    var p := NextNonzero(z, k, se);
    if p > se then []
    else if p - k > 15 then [Sym(t, ZRL)] + RunTokens(z, t, k + 16, se)
    else ValueTokens(t, p - k, z[p]) + RunTokens(z, t, p + 1, se)
  }

  /** The position after the last nonzero value. */
  function RunEnd(z: seq<int>, k: nat, se: nat): (g: nat)
    requires se < |z| && k <= se + 1
    ensures k <= g <= se + 1
    ensures forall i :: g <= i <= se ==> z[i] == 0
    decreases se + 1 - k
  {
    var p := NextNonzero(z, k, se);
    if p > se then k
    else if p - k > 15 then RunEnd(z, k + 16, se)
    else RunEnd(z, p + 1, se)
  }

  lemma {:induction false} NextNonzeroIs(z: seq<int>, k: nat, se: nat, p: nat)
    requires se < |z| && k <= p <= se && z[p] != 0 && forall i :: k <= i < p ==> z[i] == 0
    ensures NextNonzero(z, k, se) == p
    decreases p - k
  {
    if k < p { NextNonzeroIs(z, k + 1, se, p); }
  }

  lemma {:induction false} NextNonzeroNone(z: seq<int>, k: nat, se: nat)
    requires se < |z| && k <= se + 1 && forall i :: k <= i <= se ==> z[i] == 0
    ensures NextNonzero(z, k, se) == se + 1
    decreases se + 1 - k
  {
    if k <= se { NextNonzeroNone(z, k + 1, se); }
  }

  /** A run of more than 15 zeros before a value. */
  lemma RunOver(z: seq<int>, t: nat, g: nat, k: nat, se: nat)
    requires g <= k <= se < |z| && z[k] != 0 && k - g > 15 && forall i :: g <= i < k ==> z[i] == 0
    ensures RunTokens(z, t, g, se) == [Sym(t, ZRL)] + RunTokens(z, t, g + 16, se)
    ensures RunEnd(z, g, se) == RunEnd(z, g + 16, se)
  {
    hide NextNonzero, ValueTokens;
    NextNonzeroIs(z, g, se, k);
  }

  /** A value after at most 15 zeros. */
  lemma RunValue(z: seq<int>, t: nat, g: nat, k: nat, se: nat)
    requires g <= k <= se < |z| && z[k] != 0 && k - g <= 15 && forall i :: g <= i < k ==> z[i] == 0
    ensures RunTokens(z, t, g, se) == ValueTokens(t, k - g, z[k]) + RunTokens(z, t, k + 1, se)
    ensures RunEnd(z, g, se) == RunEnd(z, k + 1, se)
  {
    hide NextNonzero, ValueTokens;
    NextNonzeroIs(z, g, se, k);
  }

  /** Only zeros are left. */
  lemma RunOut(z: seq<int>, t: nat, g: nat, se: nat)
    requires se < |z| && g <= se + 1 && forall i :: g <= i <= se ==> z[i] == 0
    ensures RunTokens(z, t, g, se) == [] && RunEnd(z, g, se) == g
  {
    NextNonzeroNone(z, g, se);
  }

  // ----- Decoding -----

  /** What the decoder finds: coefficients to write, where it ends, and the run nibble of an EOB symbol (or -1). */
  datatype BandCode = BandCode(writes: seq<(nat, int)>, end: nat, eob: int)

  /** The decoding loop, from coefficient `k` on. */
  function ReadBand(h: HuffTable, data: seq<bool>, n: nat, k: nat, se: nat): (c: BandCode)
    requires h.WellTyped() && Count(h.bits, 16) <= 256 && se < 64
    ensures -1 <= c.eob < 15 && n <= c.end
    ensures forall w <- c.writes :: w.0 < 64 && (k <= w.0 || w.0 == 63)
    decreases 64 - k
  {
    if k > se then BandCode([], n, -1)
    else
      var s, n1 := DecodeSymbol(h, data, n), n + DecodeLength(h.bits, data, n);
      var r, w := s / 16, s % 16;
      if w != 0 then
        var c := ReadBand(h, data, n1 + w, k + r + 1, se);
        c.(writes := [(Place(k + r), Extend(Peek(data, n1, w), w))] + c.writes)
      else if r == 15 then ReadBand(h, data, n1, k + 16, se)
      else BandCode([], n1, r)
  }

  /** Writing decoded values, scaled by the point transform. */
  function Apply(z: seq<int>, writes: seq<(nat, int)>, al: nat): (z': seq<int>)
    requires |z| == 64 && forall w <- writes :: w.0 < 64
    ensures |z'| == 64
    decreases |writes|
  {
    if writes == [] then z else Apply(z[writes[0].0 := ToShort(writes[0].1 * Pow2(al))], writes[1..], al)
  }

  /** The values of a band as the decoder should find them. */
  function ValueWrites(z: seq<int>, k: nat, se: nat): (ws: seq<(nat, int)>)
    requires se < |z| && |z| == 64 && k <= se + 1
    ensures forall w <- ws :: w.0 < 64
    decreases se + 1 - k
  {
    var p := NextNonzero(z, k, se);
    if p > se then []
    else if p - k > 15 then ValueWrites(z, k + 16, se)
    else [(p, z[p])] + ValueWrites(z, p + 1, se)
  }

  /** Every value fits the 15 bits that a run-length symbol can announce. */
  predicate SmallValues(z: seq<int>, k: nat, se: nat)
    requires se < |z|
  {
    forall i :: k <= i <= se ==> NumBits(Abs(z[i])) <= 15
  }

  lemma ReadsValue(h: HuffTable, ets: seq<EncTable>, t: nat, data: seq<bool>, n: nat, r: nat, v: int)
    requires t < |ets| && Matches(h, ets[t]) && AllCoded(ets, ValueTokens(t, r, v))
    requires Stands(data, n, TokenBits(ets, ValueTokens(t, r, v)))
    requires v != 0 && r <= 15 && NumBits(Abs(v)) <= 15
    ensures var s := NumBits(Abs(v));
            && DecodeSymbol(h, data, n) == r * 16 + s
            && Extend(Peek(data, n + DecodeLength(h.bits, data, n), s), s) == v
            && |TokenBits(ets, ValueTokens(t, r, v))| == DecodeLength(h.bits, data, n) + s
  {
    hide NumBits, DecodeSymbol, DecodeLength, ToBits, Peek, ValueBits, Extend, Matches, Stands;
    var s := NumBits(Abs(v));
    var sym, raw := Sym(t, r * 16 + s), Raw(ValueBits(v), s);
    assert ValueTokens(t, r, v) == [sym] + [raw];
    assert HasCode(ets, sym) by { assert sym in ValueTokens(t, r, v); }
    TokenBitsConcat(ets, [sym], [raw]);
    TokenBitsOne(ets, sym);
    TokenBitsOne(ets, raw);
    StandsSplit(data, n, TokenBit(ets, sym), TokenBit(ets, raw));
    MatchesShape(h, ets[t]);
    SymbolDecodes(h, ets[t], data, n, r * 16 + s);
    RawReads(data, n + DecodeLength(h.bits, data, n), ValueBits(v), s);
    ExtendInverse(v);
  }

  lemma MatchesShape(h: HuffTable, e: EncTable)
    requires Matches(h, e)
    ensures |e.ehufco| == |e.ehufsi| == 256 && h.WellTyped() && Legal(h.bits)
  {
  }

  lemma ReadsSymbol(h: HuffTable, ets: seq<EncTable>, t: nat, data: seq<bool>, n: nat, s: nat)
    requires t < |ets| && Matches(h, ets[t]) && HasCode(ets, Sym(t, s)) && s < 256
    requires Stands(data, n, TokenBits(ets, [Sym(t, s)]))
    ensures DecodeSymbol(h, data, n) == s
    ensures |TokenBits(ets, [Sym(t, s)])| == DecodeLength(h.bits, data, n)
  {
    hide DecodeSymbol, DecodeLength, ToBits, Matches, Stands;
    TokenBitsOne(ets, Sym(t, s));
    MatchesShape(h, ets[t]);
    SymbolDecodes(h, ets[t], data, n, s);
  }

  /** Splits off the first tokens of what stands at bit `n`. */
  lemma StandsTokens(ets: seq<EncTable>, data: seq<bool>, n: nat, a: seq<Token>, b: seq<Token>)
    requires Stands(data, n, TokenBits(ets, a + b)) && AllCoded(ets, a + b)
    ensures Stands(data, n, TokenBits(ets, a)) && AllCoded(ets, a)
    ensures Stands(data, n + |TokenBits(ets, a)|, TokenBits(ets, b)) && AllCoded(ets, b)
    ensures |TokenBits(ets, a + b)| == |TokenBits(ets, a)| + |TokenBits(ets, b)|
  {
    hide TokenBits, HasCode, Stands;
    TokenBitsConcat(ets, a, b);
    StandsSplit(data, n, TokenBits(ets, a), TokenBits(ets, b));
    forall tok | tok in a ensures HasCode(ets, tok) { assert tok in a + b; }
    forall tok | tok in b ensures HasCode(ets, tok) { assert tok in a + b; }
  }

  /** The decoder reads back the runs and values, and goes on where they end. */
  lemma {:induction false} RunsRead(h: HuffTable, ets: seq<EncTable>, t: nat, z: seq<int>, data: seq<bool>, n: nat,
                                    k: nat, se: nat)
    requires se < 64 == |z| && k <= se + 1 && SmallValues(z, k, se)
    requires t < |ets| && Matches(h, ets[t]) && h.WellTyped() && Count(h.bits, 16) <= 256
    requires AllCoded(ets, RunTokens(z, t, k, se)) && Stands(data, n, TokenBits(ets, RunTokens(z, t, k, se)))
    ensures var rest := ReadBand(h, data, n + |TokenBits(ets, RunTokens(z, t, k, se))|, RunEnd(z, k, se), se);
            ReadBand(h, data, n, k, se) == rest.(writes := ValueWrites(z, k, se) + rest.writes)
    decreases se + 1 - k
  {
    hide *;
    var p := NextNonzero(z, k, se);
    if p > se {
      RunsDone(h, ets, t, z, data, n, k, se);
    } else if p - k > 15 {
      var tail := RunTokens(z, t, k + 16, se);
      RunOver(z, t, k, p, se);
      ValuesOver(z, k, p, se);
      StandsTokens(ets, data, n, [Sym(t, ZRL)], tail);
      OneCoded(ets, Sym(t, ZRL));
      FewerSmall(z, k, k + 16, se);
      ReadZrlStep(h, ets, t, data, n, k, se);
      RunsRead(h, ets, t, z, data, n + |TokenBits(ets, [Sym(t, ZRL)])|, k + 16, se);
    } else {
      var head, tail := ValueTokens(t, p - k, z[p]), RunTokens(z, t, p + 1, se);
      RunValue(z, t, k, p, se);
      ValuesValue(z, k, p, se);
      StandsTokens(ets, data, n, head, tail);
      FewerSmall(z, k, p, se);
      FewerSmall(z, k, p + 1, se);
      ReadsValue(h, ets, t, data, n, p - k, z[p]);
      var n1 := n + |TokenBits(ets, head)|;
      RunsRead(h, ets, t, z, data, n1, p + 1, se);
      ReadValueStep(h, data, n, k, se, p, z[p]);
      var rest := ReadBand(h, data, n1 + |TokenBits(ets, tail)|, RunEnd(z, p + 1, se), se);
      Seqs.Assoc([(p, z[p])], ValueWrites(z, p + 1, se), rest.writes);
    }
  }

  lemma RunsDone(h: HuffTable, ets: seq<EncTable>, t: nat, z: seq<int>, data: seq<bool>, n: nat, k: nat, se: nat)
    requires se < 64 == |z| && k <= se + 1 && NextNonzero(z, k, se) > se
    requires h.WellTyped() && Count(h.bits, 16) <= 256
    ensures TokenBits(ets, RunTokens(z, t, k, se)) == [] && RunEnd(z, k, se) == k
    ensures var c := ReadBand(h, data, n, k, se); c == c.(writes := ValueWrites(z, k, se) + c.writes)
  {
    hide ReadBand;
    assert ValueWrites(z, k, se) == [];
  }

  lemma FewerSmall(z: seq<int>, k: nat, k': nat, se: nat)
    requires se < |z| && SmallValues(z, k, se) && k <= k'
    ensures SmallValues(z, k', se)
    ensures k' <= se ==> NumBits(Abs(z[k'])) <= 15
  {
  }

  lemma ValuesOver(z: seq<int>, g: nat, k: nat, se: nat)
    requires |z| == 64 && g <= k <= se < |z| && z[k] != 0 && k - g > 15 && forall i :: g <= i < k ==> z[i] == 0
    ensures ValueWrites(z, g, se) == ValueWrites(z, g + 16, se)
  {
    hide NextNonzero, ValueTokens;
    NextNonzeroIs(z, g, se, k);
  }

  lemma ValuesValue(z: seq<int>, g: nat, k: nat, se: nat)
    requires |z| == 64 && g <= k <= se < |z| && z[k] != 0 && k - g <= 15 && forall i :: g <= i < k ==> z[i] == 0
    ensures ValueWrites(z, g, se) == [(k, z[k])] + ValueWrites(z, k + 1, se)
  {
    hide NextNonzero, ValueTokens;
    NextNonzeroIs(z, g, se, k);
  }

  lemma ReadZrlStep(h: HuffTable, ets: seq<EncTable>, t: nat, data: seq<bool>, n: nat, k: nat, se: nat)
    requires h.WellTyped() && Count(h.bits, 16) <= 256 && k <= se < 64
    requires t < |ets| && Matches(h, ets[t]) && HasCode(ets, Sym(t, ZRL))
    requires Stands(data, n, TokenBits(ets, [Sym(t, ZRL)]))
    ensures ReadBand(h, data, n, k, se) == ReadBand(h, data, n + |TokenBits(ets, [Sym(t, ZRL)])|, k + 16, se)
  {
    hide TokenBits, Matches, Stands, DecodeSymbol, DecodeLength, Peek, Count;
    ReadsSymbol(h, ets, t, data, n, ZRL);
  }

  lemma ReadValueStep(h: HuffTable, data: seq<bool>, n: nat, k: nat, se: nat, p: nat, v: int)
    requires h.WellTyped() && Count(h.bits, 16) <= 256 && k <= p <= se < 64 && p - k <= 15 && v != 0
    requires var s := NumBits(Abs(v));
             && s <= 15 && DecodeSymbol(h, data, n) == (p - k) * 16 + s
             && Extend(Peek(data, n + DecodeLength(h.bits, data, n), s), s) == v
    ensures var c := ReadBand(h, data, n + DecodeLength(h.bits, data, n) + NumBits(Abs(v)), p + 1, se);
            ReadBand(h, data, n, k, se) == c.(writes := [(p, v)] + c.writes)
  {
    hide NumBits, DecodeSymbol, DecodeLength, Peek, Extend, Count;
    var s := NumBits(Abs(v));
    assert s > 0;
    DivModUnique(p - k, s, 16, DecodeSymbol(h, data, n));
  }

  lemma NoTokens(ets: seq<EncTable>)
    ensures TokenBits(ets, []) == []
  {
  }

  lemma OneCoded(ets: seq<EncTable>, tok: Token)
    requires AllCoded(ets, [tok])
    ensures HasCode(ets, tok)
  {
    assert tok in [tok];
  }

  // ----- Writing the coefficients -----

  lemma {:induction false} ApplyConcat(z: seq<int>, a: seq<(nat, int)>, b: seq<(nat, int)>, al: nat)
    requires |z| == 64 && (forall w <- a :: w.0 < 64) && forall w <- b :: w.0 < 64
    ensures forall w <- a + b :: w.0 < 64
    ensures Apply(z, a + b, al) == Apply(Apply(z, a, al), b, al)
    decreases |a|
  {
    if a == [] {
      assert a + b == b;
    } else {
      assert (a + b)[0] == a[0] && (a + b)[1..] == a[1..] + b;
      ApplyConcat(z[a[0].0 := ToShort(a[0].1 * Pow2(al))], a[1..], b, al);
    }
  }

  /** The nonzero values land in their places; the other places keep what they held. */
  lemma {:induction false} ApplyValues(z0: seq<int>, z: seq<int>, k: nat, se: nat, al: nat)
    requires |z0| == |z| == 64 && se < 64 && k <= se + 1
    ensures var z' := Apply(z0, ValueWrites(z, k, se), al);
            forall i :: 0 <= i < 64 ==>
              z'[i] == if k <= i <= se && z[i] != 0 then ToShort(z[i] * Pow2(al)) else z0[i]
    decreases se + 1 - k
  {
    hide Pow2, ToShort;
    var p := NextNonzero(z, k, se);
    if p > se {
    } else if p - k > 15 {
      ApplyValues(z0, z, k + 16, se, al);
    } else {
      var ws := ValueWrites(z, p + 1, se);
      assert ([(p, z[p])] + ws)[1..] == ws;
      ApplyValues(z0[p := ToShort(z[p] * Pow2(al))], z, p + 1, se, al);
    }
  }

  /** Where nothing more is written, the outcome does not depend on the start beyond the places left alone. */
  lemma {:induction false} ApplySame(z: seq<int>, z': seq<int>, ws: seq<(nat, int)>, al: nat)
    requires |z| == |z'| == 64 && forall w <- ws :: w.0 < 64
    requires forall i :: 0 <= i < 64 ==> z[i] == z'[i] || exists w <- ws :: w.0 == i
    ensures Apply(z, ws, al) == Apply(z', ws, al)
    decreases |ws|
  {
    if ws != [] {
      hide Pow2, ToShort;
      var p, v := ws[0].0, ToShort(ws[0].1 * Pow2(al));
      var u, u' := z[p := v], z'[p := v];
      forall i | 0 <= i < 64 ensures u[i] == u'[i] || exists w <- ws[1..] :: w.0 == i {
        if i != p && z[i] != z'[i] {
          var w :| w in ws && w.0 == i;
          assert w in ws[1..];
        }
      }
      ApplySame(u, u', ws[1..], al);
    }
  }

  /** Only written places change. */
  lemma {:induction false} ApplyFrame(z: seq<int>, ws: seq<(nat, int)>, al: nat)
    requires |z| == 64 && forall w <- ws :: w.0 < 64
    ensures forall i :: 0 <= i < 64 ==> Apply(z, ws, al)[i] == z[i] || exists w <- ws :: w.0 == i
    decreases |ws|
  {
    if ws != [] {
      hide Pow2, ToShort;
      var p, v := ws[0].0, ToShort(ws[0].1 * Pow2(al));
      ApplyFrame(z[p := v], ws[1..], al);
      forall i | 0 <= i < 64 ensures Apply(z, ws, al)[i] == z[i] || exists w <- ws :: w.0 == i {
        if i == p { assert ws[0] in ws; }
      }
    }
  }

  /** An attempt that was broken off does not matter: writing everything afterwards gives what it always gives. */
  lemma Rewrite(z: seq<int>, a: seq<(nat, int)>, b: seq<(nat, int)>, al: nat)
    requires |z| == 64 && (forall w <- a :: w.0 < 64) && forall w <- b :: w.0 < 64
    ensures forall w <- a + b :: w.0 < 64
    ensures Apply(Apply(z, a, al), a + b, al) == Apply(z, a + b, al)
  {
    hide Apply, ToShort;
    var z' := Apply(z, a, al);
    ApplyFrame(z, a, al);
    forall i | 0 <= i < 64 ensures z'[i] == z[i] || exists w <- a + b :: w.0 == i {
      if z'[i] != z[i] {
        var w :| w in a && w.0 == i;
        assert w in a + b;
      }
    }
    ApplySame(z', z, a + b, al);
  }
}
