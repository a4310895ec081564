/**
 Huffman tables as a DHT marker carries them, their canonical codes (Annex C of ITU-T T.81), and the derived tables
 of the encoder and the decoder.
 */
module HuffTables {
  import opened Arith
  import opened Bits

  datatype Error = BadHuffTable | HuffMissingCode | HuffClenOverflow | BadDctCoef

  datatype Result<+T> = Ok(value: T) | Err(error: Error)

  /** bits[l] symbols have codes of length l; huffval lists the symbols in order of increasing code length. */
  datatype HuffTable = HuffTable(bits: seq<nat>, huffval: seq<nat>) {
    ghost predicate WellTyped() {
      && |bits| == 17 && |huffval| == 256
      && (forall l :: 0 <= l < 17 ==> bits[l] < 256)
      && (forall p :: 0 <= p < 256 ==> huffval[p] < 256)
    }
  }

  /** The number of codes of length at most `l`. */
  function Count(bits: seq<nat>, l: nat): (c: nat)
    requires l < |bits|
  {
    if l == 0 then 0 else Count(bits, l - 1) + bits[l]
  }

  /** The smallest code of length `l`. */
  function FirstCode(bits: seq<nat>, l: nat): (c: nat)
    requires 1 <= l <= |bits|
  {
    if l == 1 then 0 else 2 * (FirstCode(bits, l - 1) + bits[l - 1])
  }

  /** One more than the largest code of length `l`. */
  function NextCode(bits: seq<nat>, l: nat): (c: nat)
    requires 1 <= l < |bits|
  {
    FirstCode(bits, l) + bits[l]
  }

  /** The p-th code has length `l`. */
  predicate HasLength(bits: seq<nat>, p: nat, l: nat) {
    1 <= l < |bits| && Count(bits, l - 1) <= p < Count(bits, l)
  }

  /** The p-th code, given its length. */
  function CodeOf(bits: seq<nat>, p: nat, l: nat): (c: nat)
    requires HasLength(bits, p, l)
  {
    FirstCode(bits, l) + (p - Count(bits, l - 1))
  }

  /** The lengths fit the table and leave the all-ones code of every length unused. */
  ghost predicate Legal(bits: seq<nat>) {
    && |bits| == 17
    && Count(bits, 16) <= 256
    && forall l :: 1 <= l <= 16 ==> NextCode(bits, l) < Pow2(l)
  }

  lemma {:induction false} CountMono(bits: seq<nat>, a: nat, b: nat)
    requires a <= b < |bits|
    ensures Count(bits, a) <= Count(bits, b)
  {
    if a < b { CountMono(bits, a, b - 1); }
  }

  lemma LengthUnique(bits: seq<nat>, p: nat, l: nat, l': nat)
    requires HasLength(bits, p, l) && HasLength(bits, p, l')
    ensures l == l'
  {
    if l < l' { CountMono(bits, l, l' - 1); }
    if l' < l { CountMono(bits, l', l - 1); }
  }

  lemma {:induction false} FirstCodeZero(bits: seq<nat>, l: nat)
    requires 1 <= l <= |bits| && Count(bits, l - 1) == 0
    ensures FirstCode(bits, l) == 0
  {
    if l > 1 { FirstCodeZero(bits, l - 1); }
  }

  /** Figure C.1: the code length of every symbol, in order, followed by a zero. */
  method CodeLengths(bits: seq<nat>) returns (r: Result<(array<nat>, nat)>)
    requires |bits| == 17
    ensures r.Err? <==> Count(bits, 16) > 256
    ensures r.Err? ==> r.error == BadHuffTable
    ensures r.Ok? ==> var (huffsize, n) := r.value;
                      && fresh(huffsize) && huffsize.Length == 257
                      && n == Count(bits, 16) && huffsize[n] == 0
                      && forall q :: 0 <= q < n ==> HasLength(bits, q, huffsize[q])
  {
    var huffsize := new nat[257];
    var p, l := 0, 1;
    while l <= 16
      invariant 1 <= l <= 17 && p == Count(bits, l - 1) <= 256
      invariant forall q :: 0 <= q < p ==> HasLength(bits, q, huffsize[q])
    {
      var i := bits[l];
      CountMono(bits, l, 16);
      if p + i > 256 { return Err(BadHuffTable); }
      while i > 0
        invariant 0 <= i <= bits[l] && p + i == Count(bits, l)
        invariant forall q :: 0 <= q < p ==> HasLength(bits, q, huffsize[q])
      {
        huffsize[p] := l;
        p, i := p + 1, i - 1;
      }
      l := l + 1;
    }
    huffsize[p] := 0;
    return Ok((huffsize, p));
  }

  /** With no code longer than `m`, the bound at `m` carries over to the longer lengths. */
  lemma {:induction false} LegalBeyond(bits: seq<nat>, m: nat, l: nat)
    requires 1 <= m <= l < |bits| && Count(bits, m) == Count(bits, |bits| - 1)
    requires NextCode(bits, m) < Pow2(m)
    ensures NextCode(bits, l) < Pow2(l)
  {
    if m < l {
      LegalBeyond(bits, m, l - 1);
      CountMono(bits, m, l - 1);
      CountMono(bits, l, |bits| - 1);
    }
  }

  lemma {:induction false} LegalBelow(bits: seq<nat>, l: nat)
    requires 1 <= l < |bits| && Count(bits, l) == 0
    ensures NextCode(bits, l) < Pow2(l)
  {
    FirstCodeZero(bits, l);
  }

  /** The bounds met so far and the exhaustion of the symbols make the whole table legal. */
  lemma LegalWhenAssigned(bits: seq<nat>, first: nat, si: nat)
    requires |bits| == 17 && Count(bits, 16) <= 256
    requires Count(bits, 16) == 0 || (HasLength(bits, 0, first) && first < si <= 17)
    requires Count(bits, 16) > 0 ==> Count(bits, si - 1) == Count(bits, 16)
    requires Count(bits, 16) > 0 ==> forall l :: first <= l < si ==> NextCode(bits, l) < Pow2(l)
    ensures Legal(bits)
  {
    forall l | 1 <= l <= 16 ensures NextCode(bits, l) < Pow2(l) {
      if Count(bits, 16) == 0 || l < first {
        CountMono(bits, l, if Count(bits, 16) == 0 then 16 else first - 1);
        LegalBelow(bits, l);
      } else if l >= si {
        LegalBeyond(bits, si - 1, l);
      }
    }
  }

  /** Figure C.2: the codes themselves, refused when some length runs out of codes. */
  method AssignCodes(bits: seq<nat>, huffsize: array<nat>, n: nat) returns (r: Result<array<nat>>)
    requires |bits| == 17 && huffsize.Length == 257 && n == Count(bits, 16) <= 256 && huffsize[n] == 0
    requires forall q :: 0 <= q < n ==> HasLength(bits, q, huffsize[q])
    ensures r.Ok? <==> Legal(bits)
    ensures r.Err? ==> r.error == BadHuffTable
    ensures r.Ok? ==> fresh(r.value) && r.value.Length == 257
    ensures r.Ok? ==> forall q :: 0 <= q < n ==> r.value[q] == CodeOf(bits, q, huffsize[q])
  {
    hide Count, FirstCode, Pow2;
    var huffcode := new nat[257];
    var code, si, p := 0, huffsize[0], 0;
    ghost var first := huffsize[0];
    if n > 0 { FirstCodeZero(bits, si); }
    while huffsize[p] != 0
      invariant 0 <= p <= n && si <= 17
      invariant n > 0 ==> 1 <= first <= si <= 17 && p == Count(bits, si - 1) && code == FirstCode(bits, si)
      invariant n > 0 ==> forall l :: first <= l < si ==> NextCode(bits, l) < Pow2(l)
      invariant forall q :: 0 <= q < p ==> huffcode[q] == CodeOf(bits, q, huffsize[q])
      decreases 17 - si
    {
      CountMono(bits, si - 1, si);
      CountMono(bits, si, 16);
      while huffsize[p] == si
        invariant Count(bits, si - 1) <= p <= Count(bits, si)
        invariant code == FirstCode(bits, si) + (p - Count(bits, si - 1))
        invariant forall q :: 0 <= q < p ==> huffcode[q] == CodeOf(bits, q, huffsize[q])
        decreases n - p
      {
        huffcode[p] := code;
        p, code := p + 1, code + 1;
      }
      if p < Count(bits, si) { LengthUnique(bits, p, si, huffsize[p]); }
      NextIsEnd(bits, si);
      if code >= Pow2(si) { return Err(BadHuffTable); }
      code, si := code * 2, si + 1;
    }
    LegalWhenAssigned(bits, first, si);
    return Ok(huffcode);
  }

  lemma NextIsEnd(bits: seq<nat>, l: nat)
    requires 1 <= l < |bits|
    ensures NextCode(bits, l) == FirstCode(bits, l) + (Count(bits, l) - Count(bits, l - 1))
    ensures FirstCode(bits, l + 1) == 2 * NextCode(bits, l)
  {
  }

  // ----- Encoder tables -----

  /** Code and length for every symbol; length 0 marks a symbol without a code. */
  datatype EncTable = EncTable(ehufco: seq<nat>, ehufsi: seq<nat>)

  /** Symbol `s` stands at position `p` of the list. */
  predicate IsSymbol(h: HuffTable, p: nat, s: nat) {
    |h.bits| == 17 && p < Count(h.bits, 16) <= |h.huffval| && h.huffval[p] == s
  }

  /** The listed symbols are distinct and do not exceed `max`. */
  ghost predicate GoodSymbols(h: HuffTable, max: nat)
    requires h.WellTyped() && Count(h.bits, 16) <= 256
  {
    && (forall p :: 0 <= p < Count(h.bits, 16) ==> h.huffval[p] <= max)
    && (forall p, q :: 0 <= p < q < Count(h.bits, 16) ==> h.huffval[p] != h.huffval[q])
  }

  /** The tables give every listed symbol its canonical code, and no other symbol a code. */
  ghost predicate Encodes(h: HuffTable, t: EncTable) {
    && |t.ehufco| == |t.ehufsi| == 256 && |h.bits| == 17 && Count(h.bits, 16) <= 256 == |h.huffval|
    && (forall p :: 0 <= p < Count(h.bits, 16) ==> EncodesAt(h, t, p))
    && (forall s :: 0 <= s < 256 && t.ehufsi[s] != 0 ==> exists p :: IsSymbol(h, p, s))
  }

  ghost predicate EncodesAt(h: HuffTable, t: EncTable, p: nat)
    requires |t.ehufco| == |t.ehufsi| == 256
  {
    && p < |h.huffval| && h.huffval[p] < 256
    && HasLength(h.bits, p, t.ehufsi[h.huffval[p]])
    && t.ehufco[h.huffval[p]] == CodeOf(h.bits, p, t.ehufsi[h.huffval[p]])
  }

  /** `jpeg_make_c_derived_tbl`. */
  method MakeEncTable(isDC: bool, h: HuffTable) returns (r: Result<EncTable>)
    requires h.WellTyped()
    ensures r.Ok? <==> Legal(h.bits) && GoodSymbols(h, if isDC then 15 else 255)
    ensures r.Err? ==> r.error == BadHuffTable
    ensures r.Ok? ==> Encodes(h, r.value)
  {
    var c1 := CodeLengths(h.bits);
    if c1.Err? { return Err(c1.error); }
    var (huffsize, lastp) := c1.value;
    var c2 := AssignCodes(h.bits, huffsize, lastp);
    if c2.Err? { return Err(c2.error); }
    var sizes, codes := huffsize[..lastp], c2.value[..lastp];
    forall q | 0 <= q < lastp ensures sizes[q] >= 1 { LengthPositive(h.bits, q, sizes[q]); }
    r := IndexBySymbol(isDC, h, sizes, codes);
    if r.Ok? { EnteredAll(h, sizes, codes, r.value); }
  }

  /** The first `p` symbols are entered, and nothing else. */
  ghost predicate Entered(h: HuffTable, huffsize: seq<nat>, huffcode: seq<nat>, t: EncTable, p: nat)
    requires h.WellTyped() && p <= |huffsize| == |huffcode| <= 256
  {
    && |t.ehufco| == |t.ehufsi| == 256
    && (forall q :: 0 <= q < p ==> t.ehufsi[h.huffval[q]] == huffsize[q] && t.ehufco[h.huffval[q]] == huffcode[q])
    && (forall s :: 0 <= s < 256 && t.ehufsi[s] != 0 ==> s in h.huffval[..p])
  }

  lemma EnteredAll(h: HuffTable, huffsize: seq<nat>, huffcode: seq<nat>, t: EncTable)
    requires h.WellTyped() && |huffsize| == |huffcode| == Count(h.bits, 16) <= 256
    requires forall q :: 0 <= q < |huffsize| ==>
               HasLength(h.bits, q, huffsize[q]) && huffcode[q] == CodeOf(h.bits, q, huffsize[q])
    requires Entered(h, huffsize, huffcode, t, |huffsize|)
    ensures Encodes(h, t)
  {
    hide Count, CodeOf, HasLength;
    forall s | 0 <= s < 256 && t.ehufsi[s] != 0 ensures exists q :: IsSymbol(h, q, s) {
      var q :| 0 <= q < |huffsize| && h.huffval[..|huffsize|][q] == s;
      assert IsSymbol(h, q, s);
    }
    forall q | 0 <= q < |huffsize| ensures EncodesAt(h, t, q) {
      assert HasLength(h.bits, q, huffsize[q]);
    }
  }

  /** Figure C.3: code and length indexed by symbol value. */
  method IndexBySymbol(isDC: bool, h: HuffTable, huffsize: seq<nat>, huffcode: seq<nat>) returns (r: Result<EncTable>)
    requires h.WellTyped() && |huffsize| == |huffcode| == Count(h.bits, 16) <= 256
    requires forall q :: 0 <= q < |huffsize| ==> huffsize[q] >= 1
    ensures r.Ok? <==> GoodSymbols(h, if isDC then 15 else 255)
    ensures r.Err? ==> r.error == BadHuffTable
    ensures r.Ok? ==> Entered(h, huffsize, huffcode, r.value, |huffsize|)
  {
    hide Count;
    var maxsymbol := if isDC then 15 else 255;
    var t := EncTable(seq(256, i => 0), seq(256, i => 0));
    var p := 0;
    while p < |huffsize|
      invariant 0 <= p <= |huffsize| && Entered(h, huffsize, huffcode, t, p)
      invariant forall q :: 0 <= q < p ==> h.huffval[q] <= maxsymbol
      invariant forall q, q' :: 0 <= q < q' < p ==> h.huffval[q] != h.huffval[q']
    {
      var i := h.huffval[p];
      if i > maxsymbol || t.ehufsi[i] != 0 { return Err(BadHuffTable); }
      t := EncTable(t.ehufco[i := huffcode[p]], t.ehufsi[i := huffsize[p]]);
      assert h.huffval[..p + 1] == h.huffval[..p] + [i];
      p := p + 1;
    }
    r := Ok(t);
  }

  lemma LengthPositive(bits: seq<nat>, p: nat, l: nat)
    requires HasLength(bits, p, l)
    ensures 1 <= l
  {
  }
}
