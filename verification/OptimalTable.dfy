/** `jpeg_gen_optimal_table` as a whole: from symbol frequencies to a Huffman table that the encoder accepts. */
module OptimalTable {
  import opened Bits
  import opened HuffTables
  import opened HuffmanCost
  import opened HuffmanDepth
  import opened HuffmanForest
  import opened HuffmanGen
  import opened LengthLimit
  import Seqs

  // ----- The list of symbols -----

  /** The symbols below `n` whose code length is `l`, in increasing order. */
  function WithLength(cs: seq<nat>, l: nat, n: nat): (r: seq<nat>)
    requires n <= |cs|
    ensures |r| <= n
    decreases n, l
  {
    if n == 0 then [] else WithLength(cs, l, n - 1) + if cs[n - 1] == l then [n - 1] else []
  }

  /** The symbols below 256 sorted by code length, up to length `l`. */
  function SortedByLength(cs: seq<nat>, l: nat): (r: seq<nat>)
    requires |cs| == N
    decreases l, cs
  {
    if l == 0 then [] else SortedByLength(cs, l - 1) + WithLength(cs, l, 256)
  }

  /** The number of symbols below `n` with a code of at most `l` bits. */
  function NumWithin(cs: seq<nat>, l: nat, n: nat): (u: nat)
    requires n <= |cs|
    ensures u <= n
    decreases n, l
  {
    if n == 0 then 0 else NumWithin(cs, l, n - 1) + if 1 <= cs[n - 1] <= l then 1 else 0
  }

  lemma {:induction false} WithinGrows(cs: seq<nat>, l: nat, n: nat)
    requires n <= |cs| && 1 <= l
    ensures NumWithin(cs, l, n) == NumWithin(cs, l - 1, n) + |WithLength(cs, l, n)|
    decreases n, l
  {
    if n > 0 { WithinGrows(cs, l, n - 1); }
  }

  lemma {:induction false} NoneWithin(cs: seq<nat>, n: nat)
    requires n <= |cs|
    ensures NumWithin(cs, 0, n) == 0
  {
    if n > 0 { NoneWithin(cs, n - 1); }
  }

  lemma {:induction false} SortedCount(cs: seq<nat>, l: nat)
    requires |cs| == N
    ensures |SortedByLength(cs, l)| == NumWithin(cs, l, 256)
    decreases l, cs
  {
    if l == 0 { NoneWithin(cs, 256); } else { SortedCount(cs, l - 1); WithinGrows(cs, l, 256); }
  }

  lemma {:induction false} AllWithin(cs: seq<nat>, n: nat)
    requires n <= |cs| && forall s :: 0 <= s < |cs| ==> cs[s] <= MAX_CLEN
    ensures NumWithin(cs, MAX_CLEN, n) == NumCoded(cs, n)
  {
    if n > 0 { AllWithin(cs, n - 1); }
  }

  /** A shorter code comes first; among equals the smaller symbol. */
  predicate Before(cs: seq<nat>, a: nat, b: nat)
    requires a < |cs| && b < |cs|
  {
    cs[a] < cs[b] || (cs[a] == cs[b] && a < b)
  }

  lemma {:induction false} WithLengthIs(cs: seq<nat>, l: nat, n: nat)
    requires n <= |cs|
    ensures forall s: nat :: s in WithLength(cs, l, n) <==> s < n && cs[s] == l
    ensures forall p, q :: 0 <= p < q < |WithLength(cs, l, n)| ==> WithLength(cs, l, n)[p] < WithLength(cs, l, n)[q]
    decreases n, l
  {
    if n > 0 {
      WithLengthIs(cs, l, n - 1);
      var a, r := WithLength(cs, l, n - 1), WithLength(cs, l, n);
      assert forall s :: s in r <==> s in a || (cs[n - 1] == l && s == n - 1);
      forall p, q | 0 <= p < q < |r| ensures r[p] < r[q] { assert r[p] in a; }
    }
  }

  /** The list holds exactly the symbols with a code of 1 to `l` bits. */
  ghost predicate Lists(cs: seq<nat>, list: seq<nat>, l: nat)
    requires |cs| == N
  {
    forall s: nat :: s in list <==> s < 256 && 1 <= cs[s] <= l
  }

  /** Its entries `p` and `q` are in order. */
  ghost predicate InOrder(cs: seq<nat>, list: seq<nat>, p: int, q: int)
    requires |cs| == N && 0 <= p < q < |list|
  {
    list[p] < 256 && list[q] < 256 && Before(cs, list[p], list[q])
  }

  /** The list is sorted by code length. */
  ghost predicate SortedList(cs: seq<nat>, list: seq<nat>, l: nat) {
    |cs| == N && Lists(cs, list, l) && forall p, q :: 0 <= p < q < |list| ==> InOrder(cs, list, p, q)
  }

  lemma {:induction false} SortedIs(cs: seq<nat>, l: nat)
    requires |cs| == N
    ensures SortedList(cs, SortedByLength(cs, l), l)
    decreases l, cs
  {
    if l > 0 {
      SortedIs(cs, l - 1);
      WithLengthIs(cs, l, 256);
      SortedAppend(cs, SortedByLength(cs, l - 1), WithLength(cs, l, 256), l);
    }
  }

  lemma SortedAppend(cs: seq<nat>, a: seq<nat>, b: seq<nat>, l: nat)
    requires 1 <= l && SortedList(cs, a, l - 1)
    requires |cs| == N && forall s: nat :: s in b <==> s < 256 && cs[s] == l
    requires forall p, q :: 0 <= p < q < |b| ==> b[p] < b[q]
    ensures SortedList(cs, a + b, l)
  {
    hide Lists, InOrder;
    AppendLists(cs, a, b, l);
    forall p, q | 0 <= p < q < |a + b| ensures InOrder(cs, a + b, p, q) { AppendedInOrder(cs, a, b, l, p, q); }
  }

  lemma AppendLists(cs: seq<nat>, a: seq<nat>, b: seq<nat>, l: nat)
    requires 1 <= l && |cs| == N && Lists(cs, a, l - 1) && forall s: nat :: s in b <==> s < 256 && cs[s] == l
    ensures Lists(cs, a + b, l)
  {
    var list := a + b;
    forall s: nat ensures s in list <==> s < 256 && 1 <= cs[s] <= l {
      if s in list { assert s in a || s in b; }
      if s in a || s in b { assert s in list; }
    }
  }

  lemma AppendedInOrder(cs: seq<nat>, a: seq<nat>, b: seq<nat>, l: nat, p: nat, q: nat)
    requires 1 <= l && SortedList(cs, a, l - 1) && p < q < |a + b|
    requires |cs| == N && forall s: nat :: s in b <==> s < 256 && cs[s] == l
    requires forall p, q :: 0 <= p < q < |b| ==> b[p] < b[q]
    ensures InOrder(cs, a + b, p, q)
  {
    var list := a + b;
    if q < |a| {
      assert list[p] == a[p] && list[q] == a[q] && InOrder(cs, a, p, q);
    } else if p >= |a| {
      assert list[p] == b[p - |a|] && list[q] == b[q - |a|];
      assert list[p] in b && list[q] in b;
    } else {
      assert list[p] == a[p] && list[q] == b[q - |a|];
      assert list[p] in a && list[q] in b;
    }
  }

  lemma {:induction false} WithLengthMono(cs: seq<nat>, l: nat, a: nat, b: nat)
    requires a <= b <= |cs|
    ensures |WithLength(cs, l, a)| <= |WithLength(cs, l, b)|
    decreases b
  {
    if a < b { WithLengthMono(cs, l, a, b - 1); }
  }

  lemma ListFits(cs: seq<nat>, i: nat, n: nat)
    requires |cs| == N && 1 <= i && n <= 256
    ensures |SortedByLength(cs, i - 1)| + |WithLength(cs, i, n)| <= 256
  {
    SortedCount(cs, i);
    WithLengthMono(cs, i, n, 256);
  }

  lemma SortedStep(cs: seq<nat>, i: nat, j: nat)
    requires |cs| == N && 1 <= i && j < 256
    ensures SortedByLength(cs, i - 1) + WithLength(cs, i, j + 1)
         == SortedByLength(cs, i - 1) + WithLength(cs, i, j) + if cs[j] == i then [j] else []
  {
    if cs[j] == i { Seqs.Assoc(SortedByLength(cs, i - 1), WithLength(cs, i, j), [j]); }
  }

  /** Lists the symbols of one code length. */
  method ListLength(codesize: array<nat>, huffval: array<nat>, p0: nat, i: nat) returns (p: nat)
    requires codesize.Length == N && huffval.Length == 256 && codesize != huffval && 1 <= i
    requires p0 <= 256 && huffval[..p0] == SortedByLength(codesize[..], i - 1)
    requires forall k :: 0 <= k < 256 ==> huffval[k] < 256
    modifies huffval
    ensures p <= 256 && huffval[..p] == SortedByLength(codesize[..], i)
    ensures forall k :: 0 <= k < 256 ==> huffval[k] < 256
  {
    hide SortedByLength, WithLength;
    ghost var cs := codesize[..];
    p := p0;
    var j := 0;
    StartLength(cs, i);
    while j <= 255
      invariant 0 <= j <= 256 && p <= 256 && codesize[..] == cs
      invariant huffval[..p] == SortedByLength(cs, i - 1) + WithLength(cs, i, j)
      invariant forall k :: 0 <= k < 256 ==> huffval[k] < 256
    {
      SortedStep(cs, i, j);
      ListFits(cs, i, j + 1);
      ghost var was := huffval[..p];
      if codesize[j] == i {
        assert |SortedByLength(cs, i - 1) + WithLength(cs, i, j + 1)| == p + 1;
        huffval[p] := j;
        assert huffval[..p + 1] == was + [j];
        p := p + 1;
      }
      j := j + 1;
    }
    EndLength(cs, i);
  }

  lemma StartLength(cs: seq<nat>, i: nat)
    requires |cs| == N && 1 <= i
    ensures SortedByLength(cs, i - 1) + WithLength(cs, i, 0) == SortedByLength(cs, i - 1)
  {
  }

  lemma EndLength(cs: seq<nat>, i: nat)
    requires |cs| == N && 1 <= i
    ensures SortedByLength(cs, i - 1) + WithLength(cs, i, 256) == SortedByLength(cs, i)
  {
  }

  /** The loop that lists all symbols. */
  method ListSymbols(codesize: array<nat>, huffval: array<nat>) returns (p: nat)
    requires codesize.Length == N && huffval.Length == 256 && codesize != huffval
    requires forall k :: 0 <= k < 256 ==> huffval[k] < 256
    modifies huffval
    ensures p <= 256 && huffval[..p] == SortedByLength(codesize[..], MAX_CLEN)
    ensures forall k :: 0 <= k < 256 ==> huffval[k] < 256
  {
    hide WithLength;
    p := 0;
    var i: nat := 1;
    while i <= MAX_CLEN
      invariant 1 <= i <= MAX_CLEN + 1 && p <= 256
      invariant huffval[..p] == SortedByLength(codesize[..], i - 1)
      invariant forall k :: 0 <= k < 256 ==> huffval[k] < 256
    {
      p := ListLength(codesize, huffval, p, i);
      i := i + 1;
    }
  }

  // ----- The whole procedure -----

  /** Frequencies that `jpeg_gen_optimal_table` can handle: 1 to 254 symbols in use, and no sum above its sentinel. */
  ghost predicate GoodCounts(freq: seq<nat>) {
    && |freq| == N
    && 1 <= NumCoded(freq, 256) <= 254
    && Sum(freq[256 := 1]) <= MAX_FREQ
  }

  /** The counts of code lengths that follow from the code lengths of the merge loop. */
  function TableBits(cs: seq<nat>): (bits: seq<nat>)
    ensures |bits| == 17
  {
    Reserved(Limited(Histogram(cs), MAX_CLEN))
  }

  /**
   What the table promises: it is legal and tight, it has as many codes of each length as optimal lengths lead to, and it lists exactly
   the symbols in use, shortest code first.
   */
  ghost predicate OptimalFor(freq: seq<nat>, cs: seq<nat>, h: HuffTable) {
    && |freq| == |cs| == N && h.WellTyped()
    && OptimalLengths(freq[256 := 1], cs) && Made(cs, h)
    && Legal(h.bits) && (exists len :: TightAt(h.bits, len))
    && SortedList(cs, h.huffval[..Count(h.bits, 16)], MAX_CLEN)
    && (forall s :: 0 <= s < 256 ==> (freq[s] != 0 <==> s in h.huffval[..Count(h.bits, 16)]))
  }

  /** The table made from the code lengths. */
  ghost predicate Made(cs: seq<nat>, h: HuffTable) {
    && |cs| == N && h.bits == TableBits(cs) && Count(h.bits, 16) <= |h.huffval|
    && h.huffval[..Count(h.bits, 16)] == SortedByLength(cs, MAX_CLEN)
    && forall s :: 0 <= s < N ==> cs[s] <= cs[PSEUDO] && cs[s] <= MAX_CLEN
  }

  lemma {:induction false} SameCoded(a: seq<nat>, b: seq<nat>, n: nat)
    requires n <= |a| && n <= |b| && forall s :: 0 <= s < n ==> (a[s] == 0 <==> b[s] == 0)
    ensures NumCoded(a, n) == NumCoded(b, n)
  {
    if n > 0 { SameCoded(a, b, n - 1); }
  }

  lemma {:induction false} SomeSymbol(freq: seq<nat>, n: nat)
    requires n <= |freq| && NumCoded(freq, n) > 0
    ensures exists a :: 0 <= a < n && freq[a] != 0
  {
    if freq[n - 1] == 0 { SomeSymbol(freq, n - 1); } else { assert 0 <= n - 1 < n; }
  }

  /** The code lengths of the merge loop are fit for counting. */
  lemma LengthsCountable(freq: seq<nat>, cs: seq<nat>)
    requires GoodCounts(freq) && OptimalLengths(freq[256 := 1], cs)
    ensures NumCoded(cs, N) == NumCoded(freq, 256) + 1 && NumCoded(cs, 256) == NumCoded(freq, 256)
    ensures SumR(CodedHalves(cs)) == 1.0
  {
    hide SumR, Sum, Cost, HuffCost, Half;
    SameCoded(freq, cs, 256);
    assert CodedHalves(cs) == UsedHalves(freq[256 := 1], cs);
    assert NumCoded(cs, N) == NumCoded(cs, 256) + if cs[256] == 0 then 0 else 1;
  }

  lemma TableIsOptimal(freq: seq<nat>, cs: seq<nat>, bits: seq<nat>, huffval: seq<nat>, p: nat)
    requires GoodCounts(freq) && OptimalLengths(freq[256 := 1], cs)
    requires (forall s :: 0 <= s < N ==> cs[s] <= cs[PSEUDO] && cs[s] <= MAX_CLEN) && bits == TableBits(cs)
    requires |bits| == 17 && Legal(bits) && Count(bits, 16) == NumCoded(freq, 256) && exists len :: TightAt(bits, len)
    requires forall l :: 0 <= l < 17 ==> bits[l] < 256
    requires |huffval| == 256 && forall k :: 0 <= k < 256 ==> huffval[k] < 256
    requires p <= 256 && huffval[..p] == SortedByLength(cs, MAX_CLEN)
    ensures OptimalFor(freq, cs, HuffTable(bits, huffval)) && GoodSymbols(HuffTable(bits, huffval), 255)
  {
    hide OptimalLengths, GoodCounts, SortedByLength, SortedList, OptimalFor, GoodSymbols, Legal, TightAt, Count, NumCoded,
         NumWithin, CodedHalves, SumR, TableBits;
    var h := HuffTable(bits, huffval);
    SameUse(freq, cs);
    LengthsCountable(freq, cs);
    SortedCount(cs, MAX_CLEN);
    AllWithin(cs, 256);
    SortedIs(cs, MAX_CLEN);
    IsWellTyped(bits, huffval);
    ListIsGood(freq, cs, h, p);
    OptimalForIntro(freq, cs, h);
  }

  lemma SameUse(freq: seq<nat>, cs: seq<nat>)
    requires GoodCounts(freq) && OptimalLengths(freq[256 := 1], cs)
    ensures |freq| == |cs| == N && forall s :: 0 <= s < 256 ==> (cs[s] == 0 <==> freq[s] == 0)
  {
    hide SumR, Sum, Cost, HuffCost, Half, UsedHalves, DepthPaid, NumCoded;
    forall s | 0 <= s < 256 ensures cs[s] == 0 <==> freq[s] == 0 { assert freq[256 := 1][s] == freq[s]; }
  }

  lemma IsWellTyped(bits: seq<nat>, huffval: seq<nat>)
    requires |bits| == 17 && |huffval| == 256
    requires forall l :: 0 <= l < 17 ==> bits[l] < 256
    requires forall k :: 0 <= k < 256 ==> huffval[k] < 256
    ensures HuffTable(bits, huffval).WellTyped()
  {
  }

  lemma OptimalForIntro(freq: seq<nat>, cs: seq<nat>, h: HuffTable)
    requires |freq| == |cs| == N && h.WellTyped() && OptimalLengths(freq[256 := 1], cs) && Made(cs, h)
    requires Legal(h.bits) && (exists len :: TightAt(h.bits, len)) && Count(h.bits, 16) <= 256
    requires SortedList(cs, h.huffval[..Count(h.bits, 16)], MAX_CLEN)
    requires forall s :: 0 <= s < 256 ==> (freq[s] != 0 <==> s in h.huffval[..Count(h.bits, 16)])
    ensures OptimalFor(freq, cs, h)
  {
    hide OptimalLengths, Legal, TightAt, SortedList, Count, Made;
    assert Count(h.bits, 16) <= 256;
  }

  lemma ListIsGood(freq: seq<nat>, cs: seq<nat>, h: HuffTable, p: nat)
    requires h.WellTyped() && |freq| == N && p == Count(h.bits, 16) <= 256
    requires SortedList(cs, h.huffval[..p], MAX_CLEN)
    requires forall s :: 0 <= s < 256 ==> cs[s] <= MAX_CLEN && (cs[s] == 0 <==> freq[s] == 0)
    ensures GoodSymbols(h, 255)
    ensures forall s :: 0 <= s < 256 ==> (freq[s] != 0 <==> s in h.huffval[..p])
  {
    hide Count;
    var list := h.huffval[..p];
    forall q, q' | 0 <= q < q' < p ensures h.huffval[q] != h.huffval[q'] {
      assert InOrder(cs, list, q, q');
    }
  }

  // ----- Lengths of at most 16 bits -----

  lemma {:induction false} NumOfIs(cs: seq<nat>, l: nat, n: nat)
    requires n <= |cs|
    ensures NumOf(cs, l, n) == |WithLength(cs, l, n)|
    decreases n, l
  {
    if n > 0 { NumOfIs(cs, l, n - 1); }
  }

  lemma {:induction false} NoneOf(cs: seq<nat>, l: nat, n: nat)
    requires n <= |cs|
    ensures NumOf(cs, l, n) == 0 <==> forall s :: 0 <= s < n ==> cs[s] != l
    decreases n, l
  {
    if n > 0 { NoneOf(cs, l, n - 1); }
  }

  /** The pseudo-symbol's code is the one that is taken away. */
  lemma BitsAreCounts(cs: seq<nat>, l: nat)
    requires |cs| == N && 1 <= l <= 16 && 1 <= cs[PSEUDO] <= 16 && forall s :: 0 <= s < N ==> cs[s] <= cs[PSEUDO]
    ensures TableBits(cs)[l] == NumOf(cs, l, 256)
  {
    hide Limited, Reserved, NumOf;
    var b := Histogram(cs);
    forall k | cs[PSEUDO] < k <= MAX_CLEN ensures b[k] == 0 { NoneOf(cs, k, N); }
    NoneOf(cs, cs[PSEUDO], N);
    LimitedKeeps(b, MAX_CLEN);
    ReservedIs(b, cs[PSEUDO]);
    LastCounted(cs, l);
  }

  lemma LastCounted(cs: seq<nat>, l: nat)
    requires |cs| == N
    ensures NumOf(cs, l, N) == NumOf(cs, l, 256) + if cs[PSEUDO] == l then 1 else 0
  {
  }

  lemma {:induction false} CountIsWithin(cs: seq<nat>, bits: seq<nat>, l: nat)
    requires |cs| == N && |bits| == 17 && l <= 16 && forall k :: 1 <= k <= l ==> bits[k] == NumOf(cs, k, 256)
    ensures Count(bits, l) == NumWithin(cs, l, 256)
  {
    hide NumOf, NumWithin;
    if l == 0 {
      NoneWithin(cs, 256);
    } else {
      CountIsWithin(cs, bits, l - 1);
      WithinGrows(cs, l, 256);
      NumOfIs(cs, l, 256);
    }
  }

  lemma {:induction false} SortedPrefix(cs: seq<nat>, l: nat, m: nat)
    requires |cs| == N && l <= m
    ensures SortedByLength(cs, l) <= SortedByLength(cs, m)
    decreases m
  {
    hide WithLength;
    if l < m { SortedPrefix(cs, l, m - 1); }
  }

  lemma AtMost(cs: seq<nat>, p: nat, m: nat, l: nat)
    requires |cs| == N && l <= m && p < |SortedByLength(cs, l)|
    ensures p < |SortedByLength(cs, m)| && SortedByLength(cs, m)[p] < 256 && 1 <= cs[SortedByLength(cs, m)[p]] <= l
  {
    hide SortedByLength;
    SortedPrefix(cs, l, m);
    SortedIs(cs, l);
    assert SortedByLength(cs, m)[p] == SortedByLength(cs, l)[p] && SortedByLength(cs, l)[p] in SortedByLength(cs, l);
  }

  /** The place of a symbol in the list tells its length. */
  lemma PlaceTells(cs: seq<nat>, p: nat, m: nat)
    requires |cs| == N && p < |SortedByLength(cs, m)|
    ensures SortedByLength(cs, m)[p] < 256 && 1 <= cs[SortedByLength(cs, m)[p]] <= m
    ensures var l := cs[SortedByLength(cs, m)[p]]; |SortedByLength(cs, l - 1)| <= p < |SortedByLength(cs, l)|
  {
    hide SortedByLength;
    AtMost(cs, p, m, m);
    var list := SortedByLength(cs, m);
    var l := cs[list[p]];
    if p < |SortedByLength(cs, l - 1)| { AtMost(cs, p, m, l - 1); }
    SortedIs(cs, m);
    SortedIs(cs, l);
    SortedPrefix(cs, l, m);
    var q :| 0 <= q < |SortedByLength(cs, l)| && SortedByLength(cs, l)[q] == list[p];
    assert list[q] == list[p];
    assert q < p ==> InOrder(cs, list, q, p);
  }

  /**
   If no optimal code is longer than 16 bits, the table gives each symbol a code of its optimal length: it is an optimal table.  The
   code that is left over is that of the pseudo-symbol.
   */
  lemma TableKeepsLengths(freq: seq<nat>, cs: seq<nat>, h: HuffTable)
    requires OptimalFor(freq, cs, h) && forall s :: 0 <= s < N ==> cs[s] <= 16
    ensures forall l :: 1 <= l <= 16 ==> h.bits[l] == NumOf(cs, l, 256)
    ensures forall p :: 0 <= p < Count(h.bits, 16) ==> HasLength(h.bits, p, cs[h.huffval[p]])
  {
    hide OptimalLengths, Legal, TightAt, SortedList, SortedByLength, TableBits, NumOf, NumWithin, Count;
    PseudoCoded(freq, cs);
    forall l | 1 <= l <= 16 ensures h.bits[l] == NumOf(cs, l, 256) { BitsAreCounts(cs, l); }
    forall p | 0 <= p < Count(h.bits, 16) ensures HasLength(h.bits, p, cs[h.huffval[p]]) {
      assert SortedByLength(cs, MAX_CLEN)[p] == h.huffval[p];
      var l := cs[h.huffval[p]];
      PlaceTells(cs, p, MAX_CLEN);
      SortedCount(cs, l);
      SortedCount(cs, l - 1);
      CountIsWithin(cs, h.bits, l);
      CountIsWithin(cs, h.bits, l - 1);
    }
  }

  lemma PseudoCoded(freq: seq<nat>, cs: seq<nat>)
    requires |freq| == N && OptimalLengths(freq[256 := 1], cs)
    ensures |cs| == N && cs[PSEUDO] > 0
  {
    hide SumR, Sum, Cost, HuffCost, Half, UsedHalves, DepthPaid;
  }

  /** If some optimal code is longer, the table has codes of 16 bits: no length is given up without need. */
  lemma TableUses16(freq: seq<nat>, cs: seq<nat>, h: HuffTable)
    requires GoodCounts(freq) && OptimalFor(freq, cs, h) && exists s :: 0 <= s < N && cs[s] > 16
    ensures h.bits[16] != 0
  {
    hide OptimalLengths, Legal, TightAt, SortedList, SortedByLength, NumOf, NumWithin, NumCoded, Count, Limited, GoodCounts, CompleteUpTo,
         CodedHalves, SumR, Reserved;
    var s :| 0 <= s < N && cs[s] > 16;
    var b, total := Histogram(cs), NumCoded(cs, N);
    NoneOf(cs, cs[s], N);
    LengthsCountable(freq, cs);
    FewSymbols(freq);
    HistogramComplete(cs);
    LimitedUses16(b, MAX_CLEN, total, cs[s]);
    LimitedComplete(b, MAX_CLEN, total);
    LongestEven(Limited(b, MAX_CLEN), 16, total);
    ReservedIs(Limited(b, MAX_CLEN), 16);
  }

  lemma FewSymbols(freq: seq<nat>)
    requires GoodCounts(freq)
    ensures |freq| == N && NumCoded(freq, 256) <= 254
  {
  }

  /** `jpeg_gen_optimal_table`. */
  method GenOptimalTable(freq: array<nat>, huffval: array<nat>) returns (r: Result<HuffTable>, ghost cs: seq<nat>)
    requires GoodCounts(freq[..]) && huffval.Length == 256 && forall k :: 0 <= k < 256 ==> huffval[k] < 256
    requires freq != huffval
    modifies freq, huffval
    ensures |cs| == N && OptimalLengths(old(freq[..])[256 := 1], cs)
    ensures r.Err? <==> exists s :: 0 <= s < N && cs[s] > MAX_CLEN
    ensures r.Err? ==> r.error == HuffClenOverflow
    ensures r.Ok? ==> r.value.huffval == huffval[..] && OptimalFor(old(freq[..]), cs, r.value)
                      && GoodSymbols(r.value, 255)
    ensures forall s :: 0 <= s < N ==> cs[s] <= cs[PSEUDO]
  {
    hide *;
    ghost var f0 := freq[..];
    CountsShape(f0);
    TwoUsed(f0);
    freq[256] := 1;
    assert freq[..] == f0[256 := 1];
    PseudoIs();
    var codesize := MergeAll(freq);
    cs := codesize[..];
    OptimalShape(f0[256 := 1], cs);
    LengthsCountable(f0, cs);
    var c := CountLengths(codesize);
    if c.Err? { return Err(c.error), cs; }
    var bits := c.value;
    LimitLengths(bits, NumCoded(cs, N));
    var b := RemoveReserved(bits, NumCoded(cs, N));
    var p := ListSymbols(codesize, huffval);
    BitsMade(cs, b);
    TableIsOptimal(f0, cs, b, huffval[..], p);
    r := Ok(HuffTable(b, huffval[..]));
  }

  lemma PseudoIs()
    ensures PSEUDO == 256 && N == 257
  {
  }

  lemma BitsMade(cs: seq<nat>, b: seq<nat>)
    requires b == Reserved(Limited(Histogram(cs), MAX_CLEN))
    ensures b == TableBits(cs)
  {
  }

  lemma OptimalShape(f: seq<nat>, cs: seq<nat>)
    requires OptimalLengths(f, cs)
    ensures |f| == |cs| == N
  {
  }

  lemma CountsShape(f0: seq<nat>)
    requires GoodCounts(f0)
    ensures |f0| == N == 257 && Sum(f0[256 := 1]) <= MAX_FREQ && NumCoded(f0, 256) <= 254
  {
  }

  lemma TwoUsed(f0: seq<nat>)
    requires GoodCounts(f0)
    ensures |f0| == N
    ensures var f := f0[256 := 1]; exists a, b :: 0 <= a < b < N && f[a] != 0 && f[b] != 0
  {
    hide Sum, NumCoded;
    SomeSymbol(f0, 256);
    var a :| 0 <= a < 256 && f0[a] != 0;
    var f := f0[256 := 1];
    assert a < 256 && f[a] != 0 && f[256] != 0;
  }

  // ----- What the code lengths are worth -----

  lemma {:induction false} HalfScaled(k: nat, top: nat)
    requires k <= top
    ensures Half(k) * Pow2(top) as real == Pow2(top - k) as real
    decreases top - k
  {
    if k == top { HalfPow(k); } else {
      HalfScaled(k + 1, top);
      assert Half(k) == 2.0 * Half(k + 1);
    }
  }

  lemma {:induction false} HalfPow(k: nat)
    ensures Half(k) * Pow2(k) as real == 1.0
  {
    if k > 0 { HalfPow(k - 1); }
  }

  lemma {:induction false} KraftScaled(f: seq<nat>, cs: seq<nat>, top: nat, n: nat)
    requires |f| == |cs| && n <= |f| && forall s :: 0 <= s < |f| ==> cs[s] <= top
    ensures Sum(KraftTerms(f, cs, top)[..n]) as real == SumR(UsedHalves(f, cs)[..n]) * Pow2(top) as real
  {
    hide *;
    if n > 0 {
      KraftScaled(f, cs, top, n - 1);
      TermScaled(f, cs, top, n - 1);
      SumSnoc(KraftTerms(f, cs, top), n);
      SumRSnoc(UsedHalves(f, cs), n);
      var p := Pow2(top) as real;
      ScaleSum(Sum(KraftTerms(f, cs, top)[..n - 1]), KraftTerms(f, cs, top)[n - 1],
               SumR(UsedHalves(f, cs)[..n - 1]), UsedHalves(f, cs)[n - 1], p);
    } else {
      NothingScaled(KraftTerms(f, cs, top), UsedHalves(f, cs), Pow2(top) as real);
    }
  }

  lemma ScaleSum(i: int, j: int, a: real, b: real, p: real)
    requires i as real == a * p && j as real == b * p
    ensures (i + j) as real == (a + b) * p
  {
  }

  lemma NothingScaled(a: seq<int>, b: seq<real>, p: real)
    ensures Sum(a[..0]) as real == SumR(b[..0]) * p
  {
  }

  lemma TermScaled(f: seq<nat>, cs: seq<nat>, top: nat, s: nat)
    requires |f| == |cs| && s < |f| && cs[s] <= top
    ensures KraftTerms(f, cs, top)[s] as real == UsedHalves(f, cs)[s] * Pow2(top) as real
  {
    hide Pow2, Half;
    if f[s] != 0 { HalfScaled(cs[s], top); }
  }

  lemma SumSnoc(w: seq<int>, n: nat)
    requires 0 < n <= |w|
    ensures Sum(w[..n]) == Sum(w[..n - 1]) + w[n - 1]
  {
    assert w[..n][..n - 1] == w[..n - 1];
  }

  lemma SumRSnoc(w: seq<real>, n: nat)
    requires 0 < n <= |w|
    ensures SumR(w[..n]) == SumR(w[..n - 1]) + w[n - 1]
  {
    assert w[..n][..n - 1] == w[..n - 1];
  }

  /** The lengths of the merge loop meet Kraft's inequality, with equality, at every bound on the length. */
  lemma OptimalIsFeasible(f: seq<nat>, cs: seq<nat>, top: nat)
    requires OptimalLengths(f, cs) && forall s :: 0 <= s < |cs| ==> cs[s] <= top
    ensures Feasible(f, cs, top) && Sum(KraftTerms(f, cs, top)) == Pow2(top)
  {
    hide Sum, SumR, Cost, HuffCost, Pow2, DepthPaid;
    KraftScaled(f, cs, top, N);
    assert KraftTerms(f, cs, top)[..N] == KraftTerms(f, cs, top) && UsedHalves(f, cs)[..N] == UsedHalves(f, cs);
  }

  /** No assignment of lengths that meets Kraft's inequality spends fewer bits. */
  lemma OptimalIsLeast(f: seq<nat>, cs: seq<nat>, l: seq<nat>, top: nat)
    requires OptimalLengths(f, cs) && Feasible(f, l, top)
    ensures Cost(f, cs) <= Cost(f, l)
  {
    HuffCostIsLeast(f, l, top);
  }

  lemma {:induction false} FibGrows(a: nat, b: nat)
    requires 1 <= a <= b
    ensures Fib(a) <= Fib(b)
  {
    if a < b { FibGrows(a, b - 1); }
  }

  lemma Fib35()
    ensures Fib(35) == 9227465
  {
    assert Fib(10) == 55 && Fib(11) == 89;
    assert Fib(12) == 144 && Fib(13) == 233;
    assert Fib(14) == 377 && Fib(15) == 610;
    assert Fib(16) == 987 && Fib(17) == 1597;
    assert Fib(18) == 2584 && Fib(19) == 4181;
    assert Fib(20) == 6765 && Fib(21) == 10946;
    assert Fib(22) == 17711 && Fib(23) == 28657;
    assert Fib(24) == 46368 && Fib(25) == 75025;
    assert Fib(26) == 121393 && Fib(27) == 196418;
    assert Fib(28) == 317811 && Fib(29) == 514229;
    assert Fib(30) == 832040 && Fib(31) == 1346269;
    assert Fib(32) == 2178309 && Fib(33) == 3524578;
  }

  /** A code of `d` bits takes a total frequency of F(d+2). */
  lemma LongCodeNeeds(f: seq<nat>, cs: seq<nat>, s: nat)
    requires OptimalLengths(f, cs) && s < N
    ensures Sum(f) >= Fib(cs[s] + 2)
  {
    hide Sum, SumR, Cost, HuffCost, UsedHalves;
    var h: nat :| DepthPaid(f, cs, h);
    FibGrows(cs[s] + 2, h + 2);
  }

  /** Below a total of 9227465, the overflow of the length histogram cannot be reached. */
  lemma NoOverflowBelow(f: seq<nat>, cs: seq<nat>)
    requires OptimalLengths(f, cs) && Sum(f) < 9227465
    ensures forall s :: 0 <= s < N ==> cs[s] <= MAX_CLEN
  {
    hide Sum, SumR, Cost, HuffCost, UsedHalves, Fib, DepthPaid;
    forall s | 0 <= s < N ensures cs[s] <= MAX_CLEN {
      LongCodeNeeds(f, cs, s);
      Fib35();
      if cs[s] > MAX_CLEN { FibGrows(35, cs[s] + 2); }
    }
  }
}
