/**
 What the codes and tokens are in terms of the coefficients alone: the rules of ITU-T T.81 that both coders could break together without
 either of them noticing.
 */
module CodingRules {
  import opened AcRefine
  import opened Arith
  import opened Bits
  import opened Coefficients
  import opened EobRuns
  import opened HuffTables
  import opened ProgScan
  import opened RunLength
  import opened Scans
  import opened SeqEncoder
  import opened SeqScanEncoder
  import opened Tokens
  import Seqs

  // ----- Canonical codes -----

  lemma {:induction false} CountKept(bits: seq<nat>, l: nat, m: nat)
    requires l <= m < |bits|
    ensures Count(bits, l) <= Count(bits, m)
    ensures Count(bits, l) == Count(bits, m) ==> forall k :: l < k <= m ==> bits[k] == 0
    decreases m
  {
    if l < m { CountKept(bits, l, m - 1); }
  }

  /** Over lengths without codes, the next code grows by a zero bit each. */
  lemma {:induction false} CodeGrows(bits: seq<nat>, l: nat, m: nat)
    requires 1 <= l < m < |bits| && forall k :: l < k < m ==> bits[k] == 0
    ensures FirstCode(bits, m) == NextCode(bits, l) * Pow2(m - l)
    decreases m
  {
    if l + 1 == m {
      assert Pow2(1) == 2;
    } else {
      CodeGrows(bits, l, m - 1);
      MulAssoc(NextCode(bits, l), 2, Pow2(m - 1 - l));
      assert Pow2(m - l) == 2 * Pow2(m - 1 - l);
    }
  }

  /**
   Figure C.2 of ITU-T T.81: the first code is all zeros, and each code is the one before plus 1, with as many zero bits appended as it
   is longer.
   */
  lemma CanonicalCodes(bits: seq<nat>, p: nat, l: nat, m: nat)
    requires HasLength(bits, p, m)
    ensures p == 0 ==> CodeOf(bits, p, m) == 0
    ensures p > 0 && HasLength(bits, p - 1, l) ==> l <= m && CodeOf(bits, p, m) == (CodeOf(bits, p - 1, l) + 1) * Pow2(m - l)
  {
    hide Count, Pow2;
    if p == 0 {
      CountKept(bits, 0, m - 1);
      FirstIsZero(bits, m);
    } else if HasLength(bits, p - 1, l) {
      if m < l { CountKept(bits, m, l - 1); }
      if l < m {
        CountKept(bits, l, m - 1);
        CodeGrows(bits, l, m);
        LastOfLength(bits, l);
      } else {
        assert Pow2(0) == 1 by { PowerOfZero(); }
      }
    }
  }

  lemma PowerOfZero()
    ensures Pow2(0) == 1
  {
  }

  lemma LastOfLength(bits: seq<nat>, l: nat)
    requires 1 <= l < |bits|
    ensures Count(bits, l) == Count(bits, l - 1) + bits[l] && NextCode(bits, l) == FirstCode(bits, l) + bits[l]
  {
  }

  lemma {:induction false} FirstIsZero(bits: seq<nat>, m: nat)
    requires 1 <= m < |bits| && forall k :: 1 <= k < m ==> bits[k] == 0
    ensures FirstCode(bits, m) == 0
  {
    if m > 1 { FirstIsZero(bits, m - 1); }
  }

  /** No length runs out of codes, and none has a code of nothing but ones, exactly if that can be said of every code. */
  lemma LegalRule(bits: seq<nat>)
    requires |bits| == 17
    ensures Legal(bits) <==> Count(bits, 16) <= 256 && forall p, l :: HasLength(bits, p, l) ==> CodeOf(bits, p, l) < Pow2(l) - 1
  {
    hide Count, Pow2;
    if Legal(bits) {
      forall p, l | HasLength(bits, p, l) ensures CodeOf(bits, p, l) < Pow2(l) - 1 { LastOfLength(bits, l); }
    } else if forall p, l :: HasLength(bits, p, l) ==> CodeOf(bits, p, l) < Pow2(l) - 1 {
      RoomEverywhere(bits, 16);
    }
  }

  lemma {:induction false} RoomEverywhere(bits: seq<nat>, m: nat)
    requires m < |bits| && forall p, l :: HasLength(bits, p, l) ==> CodeOf(bits, p, l) < Pow2(l) - 1
    ensures forall l :: 1 <= l <= m ==> NextCode(bits, l) < Pow2(l)
  {
    if m > 0 {
      RoomEverywhere(bits, m - 1);
      if bits[m] > 0 {
        assert HasLength(bits, Count(bits, m) - 1, m);
      } else if m > 1 {
        assert NextCode(bits, m - 1) < Pow2(m - 1);
      }
    }
  }

  // ----- Values -----

  /** A field of `s` bits that holds the value `v`: positive values as they are, negative ones complemented. */
  predicate HoldsValue(tok: Token, v: int, s: nat) {
    tok.Raw? && tok.n == s && tok.v % Pow2(s) == if v >= 0 then v else Pow2(s) - 1 + v
  }

  /** The symbol of a value of `s` bits after `r` zeros, and the field with the value. */
  predicate IsValue(toks: seq<Token>, t: nat, r: nat, s: nat, v: int) {
    |toks| == 2 && toks[0] == Sym(t, 16 * r + s) && HoldsValue(toks[1], v, s)
  }

  lemma SizeIs(v: int, s: nat)
    requires s > 0 && Pow2(s - 1) <= Abs(v) < Pow2(s)
    ensures NumBits(Abs(v)) == s
  {
    NumBitsLeast(Abs(v), s);
    NumBitsLeast(Abs(v), s - 1);
  }

  lemma ValueIs(t: nat, r: nat, v: int, s: nat)
    requires s > 0 && Pow2(s - 1) <= Abs(v) < Pow2(s)
    ensures IsValue(ValueTokens(t, r, v), t, r, s, v)
  {
    hide NumBits, Pow2;
    SizeIs(v, s);
    NotZero(s - 1);
    ValueBitsAre(v);
  }

  lemma NotZero(k: nat)
    ensures Pow2(k) > 0
  {
  }

  /** Section F.1.2.1: a DC difference is its size in bits, and its bits. */
  lemma DcRule(t: nat, diff: int, s: nat)
    ensures diff == 0 ==> DcTokens(t, diff) == [Sym(t, 0)]
    ensures s > 0 && Pow2(s - 1) <= Abs(diff) < Pow2(s) ==> IsValue(DcTokens(t, diff), t, 0, s, diff)
  {
    hide Pow2, ValueTokens, IsValue;
    if s > 0 && Pow2(s - 1) <= Abs(diff) < Pow2(s) {
      NotZero(s - 1);
      ValueIs(t, 0, diff, s);
    }
  }

  /** `n` symbols for sixteen zeros each. */
  function Sixteens(t: nat, n: nat): (toks: seq<Token>)
    ensures |toks| == n && forall i :: 0 <= i < n ==> toks[i] == Sym(t, 0xF0)
  {
    seq(n, i => Sym(t, 0xF0))
  }

  lemma MoreSixteens(t: nat, n: nat, a: seq<Token>)
    ensures [Sym(t, 0xF0)] + (Sixteens(t, n) + a) == Sixteens(t, n + 1) + a
  {
  }

  /**
   Sections F.1.2.2 and G.1.2.2: a nonzero AC value is preceded by as many F0 as there are sixteens in the run of zeros before it; its
   symbol tells the rest of the run and its size.
   */
  lemma {:induction false} AcRule(z: seq<int>, t: nat, k: nat, q: nat, se: nat, s: nat) returns (value: seq<Token>)
    requires k <= q <= se < |z| && (forall i :: k <= i < q ==> z[i] == 0) && s > 0 && Pow2(s - 1) <= Abs(z[q]) < Pow2(s)
    ensures IsValue(value, t, (q - k) % 16, s, z[q])
    ensures RunTokens(z, t, k, se) == Sixteens(t, (q - k) / 16) + (value + RunTokens(z, t, q + 1, se))
    decreases q - k
  {
    hide Pow2, ValueTokens, IsValue, RunTokens;
    NotZero(s - 1);
    if q - k > 15 {
      value := AcRule(z, t, k + 16, q, se, s);
      RunOver(z, t, k, q, se);
      MoreSixteens(t, (q - k - 16) / 16, value + RunTokens(z, t, q + 1, se));
    } else {
      value := ValueTokens(t, q - k, z[q]);
      RunValue(z, t, k, q, se);
      ValueIs(t, q - k, z[q], s);
      assert Sixteens(t, 0) + (value + RunTokens(z, t, q + 1, se)) == value + RunTokens(z, t, q + 1, se);
    }
  }

  /** After the last nonzero value of a block there is a 00, unless it is coefficient 63. */
  lemma EndRule(z: seq<int>, t: nat, g: nat)
    requires |z| == 64 && 1 <= g <= 64 && (forall i :: g <= i < 64 ==> z[i] == 0) && (g > 1 ==> z[g - 1] != 0)
    ensures AcTokens(t, z) == RunTokens(z, t, 1, 63) + if g < 64 then [Sym(t, 0)] else []
  {
    hide RunTokens;
    EndIs(z, 1, g);
  }

  lemma {:induction false} EndIs(z: seq<int>, k: nat, g: nat)
    requires |z| == 64 && k <= g <= 64 && (forall i :: g <= i < 64 ==> z[i] == 0) && (g > k ==> z[g - 1] != 0)
    ensures RunEnd(z, k, 63) == g
    decreases 64 - k
  {
    if k == g {
      RunOut(z, 0, g, 63);
    } else {
      var p := NextNonzero(z, k, 63);
      if p - k > 15 { EndIs(z, k + 16, g); } else { EndIs(z, p + 1, g); }
    }
  }

  /** What is in range: differences below 2^11 and values below 2^10. */
  lemma RangeRule(z: seq<int>, lastDc: int)
    requires |z| == 64
    ensures InRange(z, lastDc) <==> Abs(z[0] - lastDc) < 2048 && forall k :: 1 <= k < 64 ==> Abs(z[k]) < 1024
  {
    hide NumBits, Pow2;
    Pow2Literals();
    assert Pow2(11) == 2048 by { Pow2Add(10, 1); PowerOfOne(); }
    NumBitsLeast(Abs(z[0] - lastDc), 11);
    forall k | 1 <= k < 64 ensures NumBits(Abs(z[k])) <= 10 <==> Abs(z[k]) < 1024 { NumBitsLeast(Abs(z[k]), 10); }
  }

  lemma PowerOfOne()
    ensures Pow2(1) == 2
  {
  }

  // ----- End of band runs -----

  /** Table G.1 of ITU-T T.81: a run of 2^n to 2^(n+1) - 1 bands is the symbol EOBn with the low n bits of its length. */
  lemma EobRule(t: nat, run: nat, n: nat)
    requires Pow2(n) <= run < 2 * Pow2(n)
    ensures n == 0 ==> EobTokens(t, run) == [Sym(t, 0x00)]
    ensures n > 0 ==> |EobTokens(t, run)| == 2 && EobTokens(t, run)[0] == Sym(t, 16 * n)
                      && EobTokens(t, run)[1].Raw? && EobTokens(t, run)[1].n == n && EobTokens(t, run)[1].v % Pow2(n) == run - Pow2(n)
  {
    hide NumBits, Pow2;
    NotZero(n);
    Doubled(n);
    SizeIs(run, n + 1);
    DivModUnique(1, run - Pow2(n), Pow2(n), run);
  }

  lemma Doubled(n: nat)
    ensures Pow2(n + 1) == 2 * Pow2(n)
  {
  }

  /** Bands without anything to send. */
  predicate Empty(codes: seq<BandCoding>) { forall c <- codes :: c.head == [] && c.eob && c.tail == [] }

  lemma {:induction false} NoTailsAtAll(codes: seq<BandCoding>)
    requires Empty(codes)
    ensures Tails(codes) == []
  {
    if codes != [] {
      assert codes[|codes| - 1] in codes;
      NoTailsAtAll(codes[..|codes| - 1]);
    }
  }

  /** Empty bands are not sent one by one: up to 32766 of them wait, and 32767 go out as one run. */
  lemma {:induction false} RunRule(codes: seq<BandCoding>)
    requires Empty(codes) && |codes| <= 0x7FFF
    ensures AbsorbAll(codes) == if |codes| < 0x7FFF then RunState([], codes) else RunState([Run(codes)], [])
  {
    hide Tails;
    if codes != [] {
      var before, c := codes[..|codes| - 1], codes[|codes| - 1];
      assert c in codes;
      assert Empty(before) by { forall b | b in before ensures b.head == [] && b.eob && b.tail == [] { assert b in codes; } }
      RunRule(before);
      assert before + [c] == codes;
      NoTailsAtAll(codes);
    }
  }

  /** A band with nothing but correction bits joins the run, which goes out when it is full or more than 937 bits wait with it. */
  lemma WaitingRule(s: RunState, c: BandCoding)
    requires c.head == [] && c.eob
    ensures Absorb(s, c) == if |s.run| + 1 == 0x7FFF || |Tails(s.run)| + |c.tail| > 937 then RunState(s.chunks + [Run(s.run + [c])], [])
                            else RunState(s.chunks, s.run + [c])
  {
    hide Tails;
    TailsSnoc(s.run, c);
  }

  // ----- Refinement -----

  /** A magnitude after the point transform. */
  lemma MagnitudeIs(z: seq<int>, al: nat, i: nat)
    requires i < |z|
    ensures Mags(z, al)[i] == 0 <==> Abs(z[i]) < Pow2(al)
    ensures Mags(z, al)[i] == 1 <==> Pow2(al) <= Abs(z[i]) < 2 * Pow2(al)
    ensures Mags(z, al)[i] > 1 <==> Abs(z[i]) >= 2 * Pow2(al)
  {
    hide Pow2;
    NotZero(al);
    var a, p := Abs(z[i]), Pow2(al);
    DivNonNeg(a, p);
    assert Mags(z, al)[i] == a / p;
    FloorIs(a, p);
    if a / p >= 1 { MulMono(1, a / p, p); }
    if a / p >= 2 { MulMono(2, a / p, p); }
  }

  /** All coefficients from `g` up to, not including, `q` are too small to have been sent so far. */
  predicate Unsent(z: seq<int>, al: nat, g: nat, q: nat)
    requires q <= |z|
  {
    forall i :: g <= i < q ==> Abs(z[i]) < Pow2(al)
  }

  lemma {:induction false} UnsentPass(z: seq<int>, al: nat, g: nat, q: nat)
    requires g <= q <= |z| && Unsent(z, al, g, q)
    ensures NumZeros(Mags(z, al), g, q) == q - g && Corrections(Mags(z, al), g, q) == []
    decreases q
  {
    hide Pow2, Mags;
    MagsLength(z, al);
    if g < q {
      MagnitudeIs(z, al, q - 1);
      UnsentPass(z, al, g, q - 1);
    }
  }

  /** Figure G.7: where sixteen unsent coefficients have been passed. */
  lemma {:induction false} StopIs(m: seq<nat>, g: nat, r: nat, se: nat)
    requires g + r <= se < |m| && forall i :: g <= i <= g + r ==> m[i] == 0
    ensures Stop(m, g, r, se) == g + r
    decreases r
  {
    if r > 0 { StopIs(m, g + 1, r - 1, se); }
  }

  lemma {:induction false} NextNewIs(m: seq<nat>, g: nat, q: nat, se: nat)
    requires g <= q <= se < |m| && m[q] == 1 && forall i :: g <= i < q ==> m[i] != 1
    ensures NextNew(m, g, se) == q
    decreases q - g
  {
    if g < q { NextNewIs(m, g + 1, q, se); }
  }

  /** The tokens of the new coefficient at `q`, `r` zeros after the last sixteen, and of what follows it. */
  function FromNew(z: seq<int>, al: nat, t: nat, r: nat, q: nat, se: nat): (toks: seq<Token>)
    requires q <= se < |z|
  {
    [Sym(t, 16 * r + 1), Raw(if z[q] > 0 then 1 else 0, 1)] + RefineTokens(Mags(z, al), z, t, q + 1, se)
  }

  /** The magnitudes on the way to a new coefficient. */
  lemma OnTheWay(z: seq<int>, al: nat, g: nat, q: nat, se: nat)
    requires g <= q <= se < |z| && Unsent(z, al, g, q) && Pow2(al) <= Abs(z[q]) < 2 * Pow2(al)
    ensures |Mags(z, al)| == |z| && z[q] != 0 && Mags(z, al)[q] == 1 && (forall i :: g <= i < q ==> Mags(z, al)[i] == 0)
    ensures NextNew(Mags(z, al), g, se) == q
  {
    hide Pow2, Mags, NextNew;
    MagsLength(z, al);
    NotZero(al);
    MagnitudeIs(z, al, q);
    forall i | g <= i < q ensures Mags(z, al)[i] == 0 { MagnitudeIs(z, al, i); }
    NextNewIs(Mags(z, al), g, q, se);
  }

  lemma NewNear(z: seq<int>, al: nat, t: nat, g: nat, q: nat, se: nat)
    requires g <= q <= se < |z| && Unsent(z, al, g, q) && Pow2(al) <= Abs(z[q]) < 2 * Pow2(al) && q - g <= 15
    ensures |Mags(z, al)| == |z| && RefineTokens(Mags(z, al), z, t, g, se) == FromNew(z, al, t, q - g, q, se)
  {
    hide Pow2, Mags, RefineTokens, NewTokens, NextNew, Stop, NumZeros, Corrections, Unsent;
    OnTheWay(z, al, g, q, se);
    var m := Mags(z, al);
    StopBeyond(m, g, q, se);
    RefineNew(m, z, t, g, se);
    UnsentPass(z, al, g, q);
    NewAlone(m, z, t, g, q);
  }

  lemma NewFar(z: seq<int>, al: nat, t: nat, g: nat, q: nat, se: nat)
    requires g <= q <= se < |z| && Unsent(z, al, g, q) && Pow2(al) <= Abs(z[q]) < 2 * Pow2(al) && q - g > 15
    ensures |Mags(z, al)| == |z|
    ensures RefineTokens(Mags(z, al), z, t, g, se) == [Sym(t, 0xF0)] + RefineTokens(Mags(z, al), z, t, g + 16, se)
  {
    hide Pow2, Mags, RefineTokens, ZrlTokens, NextNew, Stop, NumZeros, Corrections;
    OnTheWay(z, al, g, q, se);
    var m := Mags(z, al);
    StopIs(m, g, 15, se);
    RefineZrl(m, z, t, g, se);
    UnsentPass(z, al, g, g + 15);
    ZrlAlone(m, t, g, g + 15);
  }

  /**
   Section G.1.2.3: a coefficient that becomes nonzero, after coefficients that are still zero, is the rest of the run in sixteens and a
   size of 1, and a bit for its sign, which is 1 if it is positive.
   */
  lemma {:induction false} NewRule(z: seq<int>, al: nat, t: nat, g: nat, q: nat, se: nat)
    requires g <= q <= se < |z| && Unsent(z, al, g, q) && Pow2(al) <= Abs(z[q]) < 2 * Pow2(al)
    ensures |Mags(z, al)| == |z|
    ensures RefineTokens(Mags(z, al), z, t, g, se) == Sixteens(t, (q - g) / 16) + FromNew(z, al, t, (q - g) % 16, q, se)
    decreases q - g
  {
    hide Pow2, Mags, RefineTokens, FromNew;
    if q - g > 15 {
      NewFar(z, al, t, g, q, se);
      NewRule(z, al, t, g + 16, q, se);
      MoreSixteens(t, (q - g - 16) / 16, FromNew(z, al, t, (q - g) % 16, q, se));
    } else {
      NewNear(z, al, t, g, q, se);
      assert Sixteens(t, 0) + FromNew(z, al, t, q - g, q, se) == FromNew(z, al, t, q - g, q, se);
    }
  }

  lemma StopBeyond(m: seq<nat>, g: nat, q: nat, se: nat)
    requires g <= q <= se < |m| && q - g <= 15 && m[q] == 1 && forall i :: g <= i < q ==> m[i] == 0
    ensures q <= Stop(m, g, 15, se)
  {
    PassesZeros(m, g, 15, se, q);
  }

  lemma {:induction false} PassesZeros(m: seq<nat>, g: nat, r: nat, se: nat, q: nat)
    requires g <= q <= se < |m| && q - g <= r && forall i :: g <= i < q ==> m[i] == 0
    ensures q <= Stop(m, g, r, se)
    decreases q - g
  {
    if g < q { PassesZeros(m, g + 1, r - 1, se, q); }
  }

  lemma ZrlAlone(m: seq<nat>, t: nat, g: nat, p: nat)
    requires g <= p <= |m| && Corrections(m, g, p) == []
    ensures ZrlTokens(m, t, g, p) == [Sym(t, 0xF0)]
  {
  }

  lemma NewAlone(m: seq<nat>, z: seq<int>, t: nat, g: nat, q: nat)
    requires g <= q < |m| == |z| && Corrections(m, g, q) == [] && NumZeros(m, g, q) == q - g && q - g <= 15 && z[q] != 0
    ensures NewTokens(m, z, t, g, q) == [Sym(t, 16 * (q - g) + 1), Raw(if z[q] > 0 then 1 else 0, 1)]
  {
  }

  /** The correction bits of a stretch of a band: bit Al of each magnitude that has been sent before, in order. */
  lemma {:induction false} CorrectionRule(z: seq<int>, al: nat, g: nat, q: nat, i: nat)
    requires g <= i < q <= |z|
    ensures |Mags(z, al)| == |z| && |Corrections(Mags(z, al), g, i)| <= |Corrections(Mags(z, al), g, q)|
    ensures Abs(z[i]) >= 2 * Pow2(al) ==>
              var k := |Corrections(Mags(z, al), g, i)|;
              && k < |Corrections(Mags(z, al), g, q)|
              && Corrections(Mags(z, al), g, q)[k] == Abs(z[i]) / Pow2(al) % 2
    decreases q
  {
    hide Pow2;
    MagsLength(z, al);
    MagnitudeIs(z, al, i);
    if i < q - 1 { CorrectionRule(z, al, g, q - 1, i); }
  }

  // ----- DC predictions -----

  /** Block `j` is the last one before block `b` that belongs to component `ci`. */
  predicate Before(plan: Plan, ci: nat, b: nat, j: nat)
    requires b <= |plan.membership|
  {
    j < b && plan.membership[j] == ci && forall i :: j < i < b ==> plan.membership[i] != ci
  }

  /** A DC coefficient is predicted from the block of the same component before it. */
  lemma {:induction false} PredictionRule(plan: Plan, mcu: Mcu, b: nat, lastDc: seq<int>, ci: nat)
    requires plan.Valid() && GoodMcu(plan, mcu) && b <= |mcu| && |lastDc| == MAX_COMPS_IN_SCAN && ci < MAX_COMPS_IN_SCAN
    ensures (forall j :: 0 <= j < b ==> plan.membership[j] != ci) ==> DcAfter(plan, mcu, b, lastDc)[ci] == lastDc[ci]
    ensures forall j :: 0 <= j < b && Before(plan, ci, b, j) ==> mcu[j] != [] && DcAfter(plan, mcu, b, lastDc)[ci] == mcu[j][0]
    decreases b
  {
    hide Zigzag, NaturalOrder;
    if b > 0 {
      PredictionRule(plan, mcu, b - 1, lastDc, ci);
      assert mcu[b - 1] in mcu;
      FirstOfZigzag(mcu[b - 1]);
      forall j | 0 <= j < b && Before(plan, ci, b, j) ensures mcu[j] != [] && DcAfter(plan, mcu, b, lastDc)[ci] == mcu[j][0] {
        if j < b - 1 { assert Before(plan, ci, b - 1, j); }
      }
    }
  }

  lemma FirstOfZigzag(block: seq<int>)
    requires |block| == 64
    ensures Zigzag(block)[0] == block[0]
  {
  }

  /** The same for a first scan of DC coefficients, which are rounded down to multiples of 2^Al. */
  lemma {:induction false} ProgPredictionRule(p: Progress, mcu: Mcu, b: nat, lastDc: seq<int>, ci: nat)
    requires p.plan.Valid() && GoodMcu(p.plan, mcu) && b <= |mcu| && |lastDc| == MAX_COMPS_IN_SCAN && ci < MAX_COMPS_IN_SCAN
    ensures (forall j :: 0 <= j < b ==> p.plan.membership[j] != ci) ==> DcPreds(p, mcu, b, lastDc)[ci] == lastDc[ci]
    ensures forall j :: 0 <= j < b && Before(p.plan, ci, b, j) ==>
              mcu[j] != [] && DcPreds(p, mcu, b, lastDc)[ci] * Pow2(p.al) <= mcu[j][0] < (DcPreds(p, mcu, b, lastDc)[ci] + 1) * Pow2(p.al)
    decreases b
  {
    hide Pow2;
    if b > 0 {
      ProgPredictionRule(p, mcu, b - 1, lastDc, ci);
      assert mcu[b - 1] in mcu;
      NotZero(p.al);
      FloorIs(mcu[b - 1][0], Pow2(p.al));
      MulDistrib(mcu[b - 1][0] / Pow2(p.al), 1, Pow2(p.al));
      forall j | 0 <= j < b && Before(p.plan, ci, b, j)
        ensures mcu[j] != [] && DcPreds(p, mcu, b, lastDc)[ci] * Pow2(p.al) <= mcu[j][0] < (DcPreds(p, mcu, b, lastDc)[ci] + 1) * Pow2(p.al)
      {
        if j < b - 1 { assert Before(p.plan, ci, b - 1, j); }
      }
    }
  }

  /**
   A block of a sequential scan: first its DC difference, with the DC table of its component, then its AC coefficients, with the AC
   table; AC tables are numbered after the four DC tables.
   */
  lemma BlockRule(plan: Plan, mcu: Mcu, b: nat, lastDc: seq<int>)
    requires plan.Valid() && GoodMcu(plan, mcu) && b < |mcu| && |lastDc| == MAX_COMPS_IN_SCAN
    ensures plan.membership[b] < |plan.comps| && |mcu[b]| == 64
    ensures var c := plan.comps[plan.membership[b]];
            McuBlockTokens(plan, mcu, b, lastDc)
            == DcTokens(c.dcTbl, mcu[b][0] - DcAfter(plan, mcu, b, lastDc)[plan.membership[b]]) + AcTokens(4 + c.acTbl, Zigzag(mcu[b]))
  {
    hide AcTokens, DcTokens, DcAfter, NaturalOrder;
    assert mcu[b] in mcu && plan.membership[b] in plan.membership;
    FirstOfZigzag(mcu[b]);
  }

  // ----- Restart markers -----

  /** Section B.2.1: restart markers count from D0 to D7 and begin again. */
  lemma RestartRule(i: nat)
    ensures RstMarker(0) == 0xD0 && RstMarker(i + 1) == if RstMarker(i) == 0xD7 then 0xD0 else RstMarker(i) + 1
  {
  }
}
