/** Where tokens go: into the bit stream, or, in a statistics pass, into the symbol counts. */
module TokenOutput {
  import opened BitOutput
  import opened Bits
  import opened HuffTables
  import opened AcRefine
  import opened Scans
  import opened Segments
  import opened Statistics
  import opened Tokens
  import Seqs

  /** A finished segment of the stream holds the bits of the tokens, completed with one-bits. */
  ghost predicate TokenSegment(ets: seq<EncTable>, bytes: seq<nat>, toks: seq<Token>) {
    AllCoded(ets, toks) && AreBytes(bytes) && Unpack(bytes) == Padded(TokenBits(ets, toks))
  }

  lemma ClosesSegment(ets: seq<EncTable>, bytes: seq<nat>, bits: seq<bool>, toks: seq<Token>)
    requires Sent([], bits, ets, toks) && Unpack(bytes) == Padded(bits) && AreBytes(bytes)
    ensures TokenSegment(ets, bytes, toks)
  {
    hide Padded, Unpack, TokenBits, AllCoded, AreBytes;
    assert [] + TokenBits(ets, toks) == TokenBits(ets, toks);
  }

  /** The finished segments, each with its restart marker. */
  ghost predicate TokenSegments(ets: seq<EncTable>, done: seq<(seq<nat>, nat)>, segs: seq<seq<Token>>) {
    && |done| == |segs|
    && forall i :: 0 <= i < |segs| ==> TokenSegment(ets, done[i].0, segs[i]) && done[i].1 == RstMarker(i)
  }

  /** All tokens so far. */
  function AllOf(segs: seq<seq<Token>>): (toks: seq<Token>) {
    if segs == [] then [] else AllOf(segs[..|segs| - 1]) + segs[|segs| - 1]
  }

  lemma AllOfSnoc(segs: seq<seq<Token>>, toks: seq<Token>)
    ensures AllOf(segs + [toks]) == AllOf(segs) + toks
  {
    Seqs.SnocInit(segs, toks);
  }

  ghost predicate Separate(counts: seq<array<nat>>) {
    && |counts| == 2 * NUM_HUFF_TBLS
    && (forall t :: 0 <= t < |counts| ==> counts[t].Length == 257)
    && (forall t, t' :: 0 <= t < t' < |counts| ==> counts[t] != counts[t'])
  }

  ghost function CountsOf(counts: seq<array<nat>>): (c: seq<seq<nat>>)
    reads counts
    ensures |c| == |counts| && forall t :: 0 <= t < |counts| ==> c[t] == counts[t][..]
  {
    seq(|counts|, t requires 0 <= t < |counts| reads counts => counts[t][..])
  }

  /** One more use of symbol `s` of table `t`. */
  lemma CountsGrow(c: seq<seq<nat>>, toks: seq<Token>, t: nat, s: nat)
    requires AllTallied(c, toks) && t < |c| && s < 256
    ensures |c[t]| == 257 && AllTallied(c[t := c[t][s := c[t][s] + 1]], toks + [Sym(t, s)])
  {
    hide Tally;
    assert TalliedAt(c[t], t, toks);
    var c' := c[t := c[t][s := c[t][s] + 1]];
    forall t' | 0 <= t' < |c| ensures TalliedAt(c'[t'], t', toks + [Sym(t, s)]) {
      assert TalliedAt(c[t'], t', toks);
      forall s' | 0 <= s' < 256 ensures c'[t'][s'] == Tally(t', s', toks + [Sym(t, s)]) {
        TallySnoc(t', s', toks, Sym(t, s));
      }
    }
  }

  lemma CountsStay(c: seq<seq<nat>>, toks: seq<Token>, tok: Token)
    requires AllTallied(c, toks) && tok.Raw?
    ensures AllTallied(c, toks + [tok])
  {
    hide Tally;
    forall t | 0 <= t < |c| ensures TalliedAt(c[t], t, toks + [tok]) {
      assert TalliedAt(c[t], t, toks);
      forall s | 0 <= s < 256 ensures c[t][s] == Tally(t, s, toks + [tok]) { TallySnoc(t, s, toks, tok); }
    }
  }

  /** The output side of `phuff_entropy_encoder`. */
  class TokenSink {
    const gather: bool                  // statistics only
    const ets: seq<EncTable>            // DC tables, then AC tables
    const counts: seq<array<nat>>       // likewise
    const w: BitWriter
    ghost var segs: seq<seq<Token>>     // tokens of the finished restart intervals
    ghost var toks: seq<Token>          // tokens of the current one

    ghost predicate Valid()
      reads this, w, counts
    {
      && Separate(counts) && |ets| == 2 * NUM_HUFF_TBLS && AllWellFormed(ets)
      && if gather then AllTallied(CountsOf(counts), AllOf(segs) + toks)
         else w.Valid() && Sent([], w.bits, ets, toks) && TokenSegments(ets, w.done, segs)
    }

    constructor (gather: bool, ets: seq<EncTable>)
      requires |ets| == 2 * NUM_HUFF_TBLS && AllWellFormed(ets)
      ensures Valid() && fresh(this) && fresh(w) && fresh(counts) && this.gather == gather && this.ets == ets
      ensures segs == [] && toks == [] && w.out == []
    {
      this.gather, this.ets := gather, ets;
      w := new BitWriter();
      var c := ZeroCounts();
      counts := c;
      segs, toks := [], [];
      new;
      hide Sent, AllTallied, AllWellFormed;
      SentNothing([], ets);
      CountsStart(CountsOf(counts));
    }

    /** `emit_symbol`. */
    method EmitSymbol(t: nat, s: nat) returns (ok: bool)
      requires Valid() && t < 2 * NUM_HUFF_TBLS && s < 256
      modifies this`toks, w, counts
      ensures ok == (gather || HasCode(ets, Sym(t, s)))
      ensures ok ==> Valid() && toks == old(toks) + [Sym(t, s)]
    {
      hide BitWriter.Valid, AllTallied, Sent, TokenSegments, ToBits, AllWellFormed;
      if gather {
        CountsGrow(CountsOf(counts), AllOf(segs) + toks, t, s);
        ghost var before := CountsOf(counts);
        counts[t][s] := counts[t][s] + 1;
        assert CountsOf(counts) == before[t := before[t][s := before[t][s] + 1]];
        Seqs.Assoc(AllOf(segs), toks, [Sym(t, s)]);
        ok := true;
      } else {
        IsWellFormed(ets, t);
        ghost var before := w.bits;
        ok := w.EmitBits(ets[t].ehufco[s], ets[t].ehufsi[s]);
        if !ok { return; }
        SentMore([], before, w.bits, ets, toks, Sym(t, s));
      }
      toks := toks + [Sym(t, s)];
    }

    /** `emit_bits`, which does nothing in a statistics pass. */
    method EmitBits(v: int, n: nat)
      requires Valid() && 1 <= n <= 16
      modifies this`toks, w
      ensures Valid() && toks == old(toks) + [Raw(v, n)]
    {
      hide BitWriter.Valid, AllTallied, Sent, TokenSegments, ToBits, AllWellFormed;
      if gather {
        CountsStay(CountsOf(counts), AllOf(segs) + toks, Raw(v, n));
        Seqs.Assoc(AllOf(segs), toks, [Raw(v, n)]);
      } else {
        ghost var before := w.bits;
        var ok := w.EmitBits(v, n);
        SentMore([], before, w.bits, ets, toks, Raw(v, n));
      }
      toks := toks + [Raw(v, n)];
    }

    /** `emit_buffered_bits`. */
    method EmitBufferedBits(buffer: array<nat>, start: nat, nbits: nat)
      requires Valid() && start + nbits <= buffer.Length && buffer !in counts
      modifies this`toks, w
      ensures Valid() && toks == old(toks) + BitTokens(buffer[start..start + nbits])
    {
      hide Valid;
      var i := 0;
      assert old(toks) + [] == old(toks);
      while i < nbits
        invariant 0 <= i <= nbits && Valid() && toks == old(toks) + BitTokens(buffer[start..start + i])
      {
        EmitBits(buffer[start + i], 1);
        assert BitTokens(buffer[start..start + i + 1]) == BitTokens(buffer[start..start + i]) + [Raw(buffer[start + i], 1)];
        i := i + 1;
      }
    }

    /** Ends the restart interval: padding and a marker, except in a statistics pass. */
    method NextSegment(num: nat)
      requires Valid() && num == |segs| % 8
      modifies this, w
      ensures Valid() && toks == [] && segs == old(segs) + [old(toks)]
    {
      hide BitWriter.Valid, AllTallied, Sent, TokenSegment, Padded, Unpack, AllWellFormed, AreBytes, RstMarker;
      if gather {
        AllOfSnoc(segs, toks);
        assert AllOf(segs + [toks]) + [] == AllOf(segs + [toks]);
      } else {
        ghost var bits := w.bits;
        w.FlushBits();
        ClosesSegment(ets, w.bytes, bits, toks);
        w.EmitMarker(RstMarker(num));
        MarkerNumber(|segs|);
        SentNothing([], ets);
      }
      segs, toks := segs + [toks], [];
    }
  }

  lemma MarkerNumber(i: nat)
    ensures RstMarker(i % 8) == RstMarker(i)
  {
  }

  lemma IsWellFormed(ets: seq<EncTable>, t: nat)
    requires AllWellFormed(ets) && t < |ets|
    ensures WellFormed(ets[t])
  {
  }

  lemma CountsStart(c: seq<seq<nat>>)
    requires |c| == 2 * NUM_HUFF_TBLS
    requires forall t :: 0 <= t < |c| ==> |c[t]| == 257 && forall s :: 0 <= s < 257 ==> c[t][s] == 0
    ensures AllTallied(c, AllOf([]) + [])
  {
    assert AllOf([]) + [] == [];
  }
}
