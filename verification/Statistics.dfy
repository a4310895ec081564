/** Symbol statistics: counting, and the Huffman tables made from the counts. */
module Statistics {
  import opened Bits
  import opened HuffTables
  import opened HuffmanCost
  import opened HuffmanForest
  import opened HuffmanGen
  import opened LengthLimit
  import opened OptimalTable
  import opened Scans
  import opened Tokens
  import Seqs

  /** The symbols of `toks` have been counted. */
  ghost predicate Tallied(before: seq<nat>, after: seq<nat>, t: nat, toks: seq<Token>) {
    && |before| == |after| == 257 && after[256] == before[256]
    && forall s :: 0 <= s < 256 ==> after[s] == before[s] + Tally(t, s, toks)
  }

  lemma TalliedNothing(counts: seq<nat>, t: nat)
    requires |counts| == 257
    ensures Tallied(counts, counts, t, [])
  {
  }

  lemma TalliedMore(before: seq<nat>, mid: seq<nat>, t: nat, toks: seq<Token>, s: nat)
    requires Tallied(before, mid, t, toks) && s < 256
    ensures Tallied(before, mid[s := mid[s] + 1], t, toks + [Sym(t, s)])
  {
    hide Tally;
    forall s' | 0 <= s' < 256 ensures mid[s := mid[s] + 1][s'] == before[s'] + Tally(t, s', toks + [Sym(t, s)]) {
      TallySnoc(t, s', toks, Sym(t, s));
    }
  }

  lemma TalliedRaw(before: seq<nat>, mid: seq<nat>, t: nat, toks: seq<Token>, tok: Token)
    requires Tallied(before, mid, t, toks) && tok.Raw?
    ensures Tallied(before, mid, t, toks + [tok])
  {
    hide Tally;
    forall s | 0 <= s < 256 ensures mid[s] == before[s] + Tally(t, s, toks + [tok]) { TallySnoc(t, s, toks, tok); }
  }

  /** Counts one use of a symbol. */
  method CountSymbol(counts: array<nat>, s: nat, ghost before: seq<nat>, ghost t: nat, ghost toks: seq<Token>)
    requires counts.Length == 257 && s < 256 && Tallied(before, counts[..], t, toks)
    modifies counts
    ensures Tallied(before, counts[..], t, toks + [Sym(t, s)])
  {
    hide Tallied;
    TalliedMore(before, counts[..], t, toks, s);
    ghost var next := counts[..][s := counts[s] + 1];
    counts[s] := counts[s] + 1;
    assert counts[..] == next;
  }

  /** Table by table, the counts of the symbols of `toks`. */
  ghost predicate AllTallied(counts: seq<seq<nat>>, toks: seq<Token>) {
    |counts| == 2 * NUM_HUFF_TBLS && forall t :: 0 <= t < |counts| ==> TalliedAt(counts[t], t, toks)
  }

  ghost predicate TalliedAt(c: seq<nat>, t: nat, toks: seq<Token>) {
    |c| == 257 && c[256] == 0 && forall s :: 0 <= s < 256 ==> c[s] == Tally(t, s, toks)
  }

  lemma TalliedGrows(before: seq<nat>, after: seq<nat>, t: nat, toks: seq<Token>, more: seq<Token>)
    requires TalliedAt(before, t, toks) && Tallied(before, after, t, more)
    ensures TalliedAt(after, t, toks + more)
  {
    hide Tally;
    forall s | 0 <= s < 256 ensures after[s] == Tally(t, s, toks + more) { TallyConcat(t, s, toks, more); }
  }

  /** All symbols of the sequence belong to table `t`. */
  predicate OfTable(toks: seq<Token>, t: nat) { forall tok <- toks :: tok.Sym? ==> tok.t == t }

  lemma {:induction false} NoneOfTable(toks: seq<Token>, t: nat, t': nat, s: nat)
    requires OfTable(toks, t) && t != t'
    ensures Tally(t', s, toks) == 0
  {
    TallyOccurs(t', s, toks);
  }

  // ----- The symbols that can occur -----

  /** A token of an in-range coefficient: no symbol ends in a nibble above 11. */
  predicate Codable(tok: Token) {
    match tok
    case Sym(t, s) => t < 2 * NUM_HUFF_TBLS && s < 256 && s % 16 <= 11 && (t < NUM_HUFF_TBLS ==> s <= 11)
    case Raw(v, n) => 1 <= n <= 16
  }

  predicate AllCodable(toks: seq<Token>) { forall tok <- toks :: Codable(tok) }

  lemma NothingCodable()
    ensures AllCodable([])
  {
  }

  lemma BothCodable(a: seq<Token>, b: seq<Token>)
    requires AllCodable(a) && AllCodable(b)
    ensures AllCodable(a + b)
  {
    hide Codable;
  }

  ghost predicate UsesTable(toks: seq<Token>, t: nat) { exists s :: 0 <= s < 256 && Sym(t, s) in toks }

  lemma UsesMore(a: seq<Token>, b: seq<Token>, t: nat)
    requires UsesTable(a, t) || UsesTable(b, t)
    ensures UsesTable(a + b, t)
  {
    var s :| 0 <= s < 256 && (Sym(t, s) in a || Sym(t, s) in b);
    assert Sym(t, s) in a + b;
  }

  // ----- From counts to tables -----

  /** The frequency table of the symbols of table `t`. */
  function FreqOf(toks: seq<Token>, t: nat): (f: seq<nat>)
    ensures |f| == 257
  {
    seq(257, s requires 0 <= s < 257 => if s < 256 then Tally(t, s, toks) else 0)
  }

  lemma TalliedIsFreq(c: seq<nat>, toks: seq<Token>, t: nat)
    requires TalliedAt(c, t, toks)
    ensures c == FreqOf(toks, t)
  {
    hide Tally;
  }

  /** The counts of table `t` do not exceed what `jpeg_gen_optimal_table` can add up. */
  ghost predicate CountsFit(toks: seq<Token>, t: nat) { Sum(FreqOf(toks, t)) < MAX_FREQ }

  lemma {:induction false} NumCodedUpTo(f: seq<nat>, n: nat)
    requires 32 <= n <= |f| && f[15] == 0 && f[31] == 0
    ensures NumCoded(f, n) <= n - 2
    decreases n
  {
    if n == 32 { NumCodedFirst(f); } else { NumCodedUpTo(f, n - 1); }
  }

  lemma NumCodedFirst(f: seq<nat>)
    requires 32 <= |f| && f[15] == 0 && f[31] == 0
    ensures NumCoded(f, 32) <= 30
  {
    assert NumCoded(f, 16) == NumCoded(f, 15) <= 15;
    NumCodedSpan(f, 16, 31);
    assert NumCoded(f, 32) == NumCoded(f, 31);
  }

  lemma {:induction false} NumCodedSpan(f: seq<nat>, a: nat, b: nat)
    requires a <= b <= |f|
    ensures NumCoded(f, a) <= NumCoded(f, b) <= NumCoded(f, a) + (b - a)
    decreases b
  {
    if a < b { NumCodedSpan(f, a, b - 1); }
  }

  lemma {:induction false} SomeCoded(f: seq<nat>, s: nat, n: nat)
    requires s < n <= |f| && f[s] != 0
    ensures NumCoded(f, n) >= 1
    decreases n
  {
    if s < n - 1 { SomeCoded(f, s, n - 1); }
  }

  /** Gathered counts are within the domain of `jpeg_gen_optimal_table`. */
  lemma GatheredGood(toks: seq<Token>, t: nat)
    requires AllCodable(toks) && UsesTable(toks, t) && CountsFit(toks, t)
    ensures GoodCounts(FreqOf(toks, t))
  {
    hide Sum, NumCoded, Tally;
    var f := FreqOf(toks, t);
    var s :| 0 <= s < 256 && Sym(t, s) in toks;
    TallyOccurs(t, s, toks);
    SomeCoded(f, s, 256);
    TallyOccurs(t, 15, toks);
    TallyOccurs(t, 31, toks);
    assert Sym(t, 15) !in toks by { assert !Codable(Sym(t, 15)); }
    assert Sym(t, 31) !in toks by { assert !Codable(Sym(t, 31)); }
    NumCodedUpTo(f, 256);
    SumUpdate(f, 256, 1);
  }

  /** A table fit for both coders, with a code for exactly the symbols that occur, made from optimal lengths. */
  ghost predicate TableFor(h: HuffTable, toks: seq<Token>, t: nat) {
    && h.WellTyped() && Legal(h.bits) && GoodSymbols(h, if t < NUM_HUFF_TBLS then 15 else 255)
    && (forall s :: 0 <= s < 256 ==> (Sym(t, s) in toks <==> s in h.huffval[..Count(h.bits, 16)]))
    && exists cs :: OptimalFor(FreqOf(toks, t), cs, h)
  }

  /** Some optimal code length exceeds the histogram of `jpeg_gen_optimal_table`. */
  ghost predicate Overflows(toks: seq<Token>, t: nat) {
    exists cs :: TooLong(FreqOf(toks, t), cs)
  }

  ghost predicate TooLong(freq: seq<nat>, cs: seq<nat>)
    requires |freq| == 257
  {
    OptimalLengths(freq[256 := 1], cs) && exists s :: 0 <= s < N && cs[s] > MAX_CLEN
  }

  /** An overflow takes at least 9227464 counted symbols. */
  lemma OverflowNeeds(toks: seq<Token>, t: nat)
    requires Overflows(toks, t)
    ensures Sum(FreqOf(toks, t)) >= 9227464
  {
    hide Sum, Tally, OptimalLengths;
    var f := FreqOf(toks, t);
    var cs :| TooLong(f, cs);
    SumUpdate(f, 256, 1);
    if Sum(f[256 := 1]) < 9227465 { NoOverflowBelow(f[256 := 1], cs); }
  }

  lemma GeneratedTable(toks: seq<Token>, t: nat, cs: seq<nat>, h: HuffTable)
    requires AllCodable(toks) && OptimalFor(FreqOf(toks, t), cs, h) && GoodSymbols(h, 255)
    ensures TableFor(h, toks, t)
  {
    hide OptimalLengths, TightAt, SortedList, Count, Tally, NextCode, Pow2;
    var listed := h.huffval[..Count(h.bits, 16)];
    forall s | 0 <= s < 256 ensures Sym(t, s) in toks <==> s in listed { TallyOccurs(t, s, toks); }
    forall p | 0 <= p < Count(h.bits, 16) ensures h.huffval[p] <= if t < NUM_HUFF_TBLS then 15 else 255 {
      assert h.huffval[p] == listed[p] && listed[p] in listed;
      assert Codable(Sym(t, h.huffval[p]));
    }
  }

  /** Generates one table from gathered counts, over the table that was there before. */
  method GenTable(freq: array<nat>, previous: HuffTable, ghost toks: seq<Token>, ghost t: nat) returns (r: Result<HuffTable>)
    requires freq.Length == 257 && TalliedAt(freq[..], t, toks) && previous.WellTyped()
    requires AllCodable(toks) && UsesTable(toks, t) && CountsFit(toks, t)
    modifies freq
    ensures r.Ok? ==> TableFor(r.value, toks, t)
    ensures r.Err? ==> r.error == HuffClenOverflow && Overflows(toks, t)
  {
    hide *;
    TalliedIsFreq(freq[..], toks, t);
    GatheredGood(toks, t);
    var huffval := CopyList(previous);
    ghost var cs;
    r, cs := GenOptimalTable(freq, huffval);
    if r.Ok? { GeneratedTable(toks, t, cs, r.value); } else { OverflowIntro(toks, t, cs); }
  }

  lemma OverflowIntro(toks: seq<Token>, t: nat, cs: seq<nat>)
    requires OptimalLengths(FreqOf(toks, t)[256 := 1], cs) && |cs| == N
    requires exists s :: 0 <= s < N && cs[s] > MAX_CLEN
    ensures Overflows(toks, t)
  {
    hide OptimalLengths, Tally;
    assert TooLong(FreqOf(toks, t), cs);
  }

  method CopyList(h: HuffTable) returns (huffval: array<nat>)
    requires h.WellTyped()
    ensures fresh(huffval) && huffval.Length == 256 && forall k :: 0 <= k < 256 ==> huffval[k] < 256
  {
    huffval := new nat[256](k requires 0 <= k < 256 => h.huffval[k]);
  }

  /** Zeroed statistics tables. */
  method ZeroCounts() returns (counts: seq<array<nat>>)
    ensures |counts| == 2 * NUM_HUFF_TBLS && fresh(counts)
    ensures forall t :: 0 <= t < |counts| ==> counts[t].Length == 257 && forall s :: 0 <= s < 257 ==> counts[t][s] == 0
    ensures forall t, t' :: 0 <= t < t' < |counts| ==> counts[t] != counts[t']
  {
    counts := [];
    while |counts| < 2 * NUM_HUFF_TBLS
      invariant |counts| <= 2 * NUM_HUFF_TBLS && fresh(counts)
      invariant forall t :: 0 <= t < |counts| ==> counts[t].Length == 257 && forall s :: 0 <= s < 257 ==> counts[t][s] == 0
      invariant forall t, t' :: 0 <= t < t' < |counts| ==> counts[t] != counts[t']
    {
      var c := new nat[257](i => 0);
      counts := counts + [c];
    }
  }
}
