/**
 Decoding an AC refinement step by step.  The coefficients that were corrected before an interruption stay corrected; the
 lemmas here show that a second reading of the same bits leaves them as they are and arrives at the same result.
 */
module RefineTrack {
  import opened AcRefine
  import opened Arith
  import opened Bits
  import opened Coefficients
  import opened HuffDecoding
  import opened HuffTables
  import opened ProgMeaning
  import opened RunLength
  import Seqs

  /** What an MCU is decoded from. */
  datatype Context = Context(h: HuffTable, data: seq<bool>, n: nat, e: nat, ss: nat, se: nat, al: nat) {
    ghost predicate Valid() { Decodable(h) && ss <= se < 64 && al <= 13 }
  }

  /** Where the decoder is: before a symbol, on the way to the place of a value (0 for a ZRL), or past the last symbol. */
  datatype Step = AtSymbol(n: nat, k: nat) | Walking(n: nat, k: nat, r: nat, v: int) | InTail(n: nat, k: nat, e: nat)

  function AfterCode(x: Context, c: RefineCode): (o: AcOut)
    requires |c.z| == 64 && x.se < 64
  {
    if c.eobrun == 0 then AcOut(c.n, 0, c.z)
    else var (n', z') := CorrectRest(x.data, c.n, c.k, x.se, x.al, c.z); AcOut(n', c.eobrun - 1, z')
  }

  predicate StepValid(x: Context, s: Step) {
    match s
    case AtSymbol(n, k) => k <= x.se + 2
    case Walking(n, k, r, v) => k <= x.se + 1
    case InTail(n, k, e) => e > 0
  }

  /** The rest of the MCU from a step on. */
  ghost function Finish(x: Context, s: Step, z: seq<int>): (o: AcOut)
    requires x.Valid() && StepValid(x, s) && |z| == 64
  {
    match s
    case AtSymbol(n, k) => AfterCode(x, ReadRefine(x.h, x.data, n, k, x.se, x.al, z))
    case Walking(n, k, r, v) =>
      var w := Advance(x.data, n, k, r, x.se, x.al, z);
      AfterCode(x, ReadRefine(x.h, x.data, w.n, w.k + 1, x.se, x.al, if v == 0 then w.z else w.z[Place(w.k) := v]))
    case InTail(n, k, e) =>
      var (n', z') := CorrectRest(x.data, n, k, x.se, x.al, z);
      AcOut(n', e - 1, z')
  }

  function Begin(x: Context): (s: Step) { if x.e > 0 then InTail(x.n, x.ss, x.e) else AtSymbol(x.n, x.ss) }

  lemma BeginIsMcu(x: Context, z: seq<int>)
    requires x.Valid() && |z| == 64
    ensures Finish(x, Begin(x), z) == AcRefineMcu(x.h, x.data, x.n, x.e, x.ss, x.se, x.al, z)
  {
    hide ReadRefine, CorrectRest;
  }

  /** `z` below place `k`, `y` from there on. */
  function Merge(z: seq<int>, y: seq<int>, k: nat): (m: seq<int>)
    requires |z| == |y| == 64
    ensures |m| == 64 && forall i :: 0 <= i < 64 ==> m[i] == if i < k then z[i] else y[i]
  {
    seq(64, i requires 0 <= i < 64 => if i < k then z[i] else y[i])
  }

  /**
   Whatever lies ahead of place `k`, the MCU decoded from `u` comes to step `s` with `z` in the places behind.
   */
  ghost predicate Leads(x: Context, u: seq<int>, z: seq<int>, s: Step)
    requires x.Valid()
  {
    && StepValid(x, s) && |u| == |z| == 64
    && forall y: seq<int> :: LeadsFor(x, u, z, s, y)
  }

  ghost predicate LeadsFor(x: Context, u: seq<int>, z: seq<int>, s: Step, y: seq<int>)
    requires x.Valid() && StepValid(x, s) && |u| == |z| == 64
  {
    |y| == 64 ==> Finish(x, Begin(x), Merge(u, y, s.k)) == Finish(x, s, Merge(z, y, s.k))
  }

  lemma LeadsStart(x: Context, z: seq<int>)
    requires x.Valid() && |z| == 64
    ensures Leads(x, z, z, Begin(x))
  {
    hide Finish;
  }

  /** Two steps with the same outcome. */
  ghost predicate SameAt(x: Context, s: Step, s': Step, z: seq<int>)
    requires x.Valid() && StepValid(x, s) && StepValid(x, s')
  {
    |z| == 64 ==> Finish(x, s', z) == Finish(x, s, z)
  }

  ghost predicate Same(x: Context, s: Step, s': Step) {
    x.Valid() && StepValid(x, s) && StepValid(x, s') && s'.k == s.k && forall z: seq<int> :: SameAt(x, s, s', z)
  }

  /** Moving on without looking at a coefficient. */
  lemma LeadsOn(x: Context, u: seq<int>, z: seq<int>, s: Step, s': Step)
    requires x.Valid() && Leads(x, u, z, s) && Same(x, s, s')
    ensures Leads(x, u, z, s')
  {
    hide Finish, LeadsFor, SameAt, Merge, Decodable, Begin;
    forall y: seq<int> ensures LeadsFor(x, u, z, s', y) {
      assert LeadsFor(x, u, z, s, y);
      if |y| == 64 { assert SameAt(x, s, s', Merge(z, y, s.k)); }
      LeadsOnFor(x, u, z, s, s', y);
    }
  }

  lemma LeadsOnFor(x: Context, u: seq<int>, z: seq<int>, s: Step, s': Step, y: seq<int>)
    requires x.Valid() && StepValid(x, s) && StepValid(x, s') && s'.k == s.k && |u| == |z| == 64
    requires |y| == 64 ==> LeadsFor(x, u, z, s, y) && SameAt(x, s, s', Merge(z, y, s.k))
    ensures LeadsFor(x, u, z, s', y)
  {
    hide Finish, Merge, Decodable, Begin;
  }

  /** A step past the next place, where `a` is found and `c` is left. */
  ghost predicate PastAt(x: Context, s: Step, s': Step, a: int, c: int, z: seq<int>)
    requires x.Valid() && StepValid(x, s) && StepValid(x, s') && s.k < 64
  {
    |z| == 64 && z[s.k] == a ==> Finish(x, s', z[s.k := c]) == Finish(x, s, z)
  }

  ghost predicate Past(x: Context, s: Step, s': Step, a: int, c: int) {
    && x.Valid() && StepValid(x, s) && StepValid(x, s') && s'.k == s.k + 1 <= 64
    && forall z: seq<int> :: PastAt(x, s, s', a, c, z)
  }

  /** Moving past a place where the next reading will find `a` and make `c` of it. */
  lemma LeadsPast(x: Context, u: seq<int>, z: seq<int>, s: Step, s': Step, a: int, c: int)
    requires x.Valid() && Leads(x, u, z, s) && Past(x, s, s', a, c) && s.k < 64 && |u| == |z| == 64
    ensures Leads(x, u[s.k := a], z[s.k := c], s')
  {
    hide Finish, LeadsFor, PastAt, Merge, Decodable, Begin;
    var k := s.k;
    var u', z' := u[k := a], z[k := c];
    forall y: seq<int> ensures LeadsFor(x, u', z', s', y) {
      if |y| == 64 {
        var y' := y[k := a];
        assert LeadsFor(x, u, z, s, y');
        assert PastAt(x, s, s', a, c, Merge(z, y', k));
      }
      LeadsPastFor(x, u, z, s, s', a, c, y);
    }
  }

  lemma LeadsPastFor(x: Context, u: seq<int>, z: seq<int>, s: Step, s': Step, a: int, c: int, y: seq<int>)
    requires x.Valid() && StepValid(x, s) && StepValid(x, s') && s'.k == s.k + 1 <= 64 && |u| == |z| == 64
    requires |y| == 64 ==> LeadsFor(x, u, z, s, y[s.k := a]) && PastAt(x, s, s', a, c, Merge(z, y[s.k := a], s.k))
    ensures LeadsFor(x, u[s.k := a], z[s.k := c], s', y)
  {
    hide Finish;
    if |y| == 64 {
      var k := s.k;
      assert Merge(u[k := a], y, k + 1) == Merge(u, y[k := a], k);
      assert Merge(z[k := c], y, k + 1) == Merge(z, y[k := a], k)[k := c];
    }
  }

  /** At the end nothing lies ahead. */
  lemma LeadsEnd(x: Context, u: seq<int>, z: seq<int>, s: Step)
    requires x.Valid() && Leads(x, u, z, s) && |u| == |z| == 64 && forall i :: s.k <= i < 64 ==> u[i] == z[i]
    ensures StepValid(x, s)
    ensures Finish(x, s, z) == AcRefineMcu(x.h, x.data, x.n, x.e, x.ss, x.se, x.al, u)
  {
    hide Finish, Begin, AcRefineMcu;
    assert LeadsFor(x, u, z, s, z);
    assert Merge(u, z, s.k) == u && Merge(z, z, s.k) == z;
    BeginIsMcu(x, u);
  }

  // ----- The single steps -----

  /** A correction that has been applied is not applied again. */
  lemma CorrectTwice(c: int, b: nat, al: nat)
    requires al <= 13 && -0x8000 <= c < 0x8000
    ensures Correct(Correct(c, b, al), b, al) == Correct(c, b, al)
    ensures c != 0 ==> Correct(c, b, al) != 0
    ensures -0x8000 <= Correct(c, b, al) < 0x8000
  {
    var p := Pow2(al);
    if b == 1 && c / p % 2 == 0 {
      BitAppears(c, al);
    }
  }

  lemma OddNeighbours(c: int, p: nat)
    requires p > 0 && c / p % 2 == 0
    ensures (c + p) / p % 2 == 1 && (c - p) / p % 2 == 1
  {
    var q, r := c / p, c % p;
    MulDistrib(q, 1, p);
    MulDistrib(q, -1, p);
    DivModUnique(q + 1, r, p, c + p);
    DivModUnique(q - 1, r, p, c - p);
  }

  /** Wrapping to 16 bits does not disturb the bits below. */
  lemma ShortBit(v: int, al: nat)
    requires al <= 13
    ensures ToShort(v) / Pow2(al) % 2 == v / Pow2(al) % 2
  {
    var j := (v + 0x8000) / 0x1_0000;
    Pow2Literals();
    Pow2Add(15 - al, al);
    assert v == ToShort(v) + j * 0x1_0000;
    hide Pow2, ToShort;
    QuotientShifts(ToShort(v), Pow2(al), Pow2(15 - al), j, v);
  }

  lemma QuotientShifts(s: int, p: nat, k: nat, j: int, v: int)
    requires p > 0 && k * p == 0x8000 && v == s + j * 0x1_0000
    ensures v / p % 2 == s / p % 2
  {
    var q, r, t := s / p, s % p, j * k;
    MulAssoc(j, k, p);
    MulAssoc(2, t, p);
    MulDistrib(q, 2 * t, p);
    DivModUnique(q + 2 * t, r, p, v);
  }

  lemma BitAppears(c: int, al: nat)
    requires al <= 13 && c / Pow2(al) % 2 == 0
    ensures var c' := ToShort(if c >= 0 then c + Pow2(al) else c - Pow2(al)); c' / Pow2(al) % 2 == 1 && c' != 0
  {
    hide ToShort, Pow2;
    OddNeighbours(c, Pow2(al));
    ShortBit(c + Pow2(al), al);
    ShortBit(c - Pow2(al), al);
  }

  lemma NewSymbolStep(x: Context, n: nat, k: nat)
    requires x.Valid() && k <= x.se && DecodeSymbol(x.h, x.data, n) % 16 != 0
    ensures var s, n1 := DecodeSymbol(x.h, x.data, n), n + DecodeLength(x.h.bits, x.data, n);
            Same(x, AtSymbol(n, k), Walking(n1 + 1, k, s / 16, NewValue(BitAt(x.data, n1), x.al)))
  {
    hide DecodeSymbol, DecodeLength, Advance, AfterCode, BitAt, SameAt;
    var s, n1 := DecodeSymbol(x.h, x.data, n), n + DecodeLength(x.h.bits, x.data, n);
    var s' := Walking(n1 + 1, k, s / 16, NewValue(BitAt(x.data, n1), x.al));
    forall z: seq<int> ensures SameAt(x, AtSymbol(n, k), s', z) { NewSymbolAt(x, n, k, z); }
  }

  lemma NewSymbolAt(x: Context, n: nat, k: nat, z: seq<int>)
    requires x.Valid() && k <= x.se && DecodeSymbol(x.h, x.data, n) % 16 != 0
    ensures var s, n1 := DecodeSymbol(x.h, x.data, n), n + DecodeLength(x.h.bits, x.data, n);
            SameAt(x, AtSymbol(n, k), Walking(n1 + 1, k, s / 16, NewValue(BitAt(x.data, n1), x.al)), z)
  {
    hide DecodeSymbol, DecodeLength, Advance, AfterCode, BitAt;
    PowerPositive(x.al);
  }

  lemma PowerPositive(al: nat)
    ensures forall b: nat :: NewValue(b, al) != 0
  {
  }

  lemma ZrlStep(x: Context, n: nat, k: nat)
    requires x.Valid() && k <= x.se && DecodeSymbol(x.h, x.data, n) % 16 == 0 && DecodeSymbol(x.h, x.data, n) / 16 == 15
    ensures Same(x, AtSymbol(n, k), Walking(n + DecodeLength(x.h.bits, x.data, n), k, 15, 0))
  {
    hide DecodeSymbol, DecodeLength, Advance, AfterCode, SameAt;
    var s' := Walking(n + DecodeLength(x.h.bits, x.data, n), k, 15, 0);
    forall z: seq<int> ensures SameAt(x, AtSymbol(n, k), s', z) { ZrlAt(x, n, k, z); }
  }

  lemma ZrlAt(x: Context, n: nat, k: nat, z: seq<int>)
    requires x.Valid() && k <= x.se && DecodeSymbol(x.h, x.data, n) % 16 == 0 && DecodeSymbol(x.h, x.data, n) / 16 == 15
    ensures SameAt(x, AtSymbol(n, k), Walking(n + DecodeLength(x.h.bits, x.data, n), k, 15, 0), z)
  {
    hide DecodeSymbol, DecodeLength, Advance, AfterCode;
  }

  lemma EobStep(x: Context, n: nat, k: nat)
    requires x.Valid() && k <= x.se && DecodeSymbol(x.h, x.data, n) % 16 == 0 && DecodeSymbol(x.h, x.data, n) / 16 != 15
    ensures var r, n1 := DecodeSymbol(x.h, x.data, n) / 16, n + DecodeLength(x.h.bits, x.data, n);
            Same(x, AtSymbol(n, k), InTail(n1 + r, k, Pow2(r) + Peek(x.data, n1, r)))
  {
    hide DecodeSymbol, DecodeLength, CorrectRest, Peek, SameAt;
    var r, n1 := DecodeSymbol(x.h, x.data, n) / 16, n + DecodeLength(x.h.bits, x.data, n);
    var s' := InTail(n1 + r, k, Pow2(r) + Peek(x.data, n1, r));
    forall z: seq<int> ensures SameAt(x, AtSymbol(n, k), s', z) { EobAt(x, n, k, z); }
  }

  lemma EobAt(x: Context, n: nat, k: nat, z: seq<int>)
    requires x.Valid() && k <= x.se && DecodeSymbol(x.h, x.data, n) % 16 == 0 && DecodeSymbol(x.h, x.data, n) / 16 != 15
    ensures var r, n1 := DecodeSymbol(x.h, x.data, n) / 16, n + DecodeLength(x.h.bits, x.data, n);
            SameAt(x, AtSymbol(n, k), InTail(n1 + r, k, Pow2(r) + Peek(x.data, n1, r)), z)
  {
    hide DecodeSymbol, DecodeLength, CorrectRest, Peek;
  }

  /** On the way: a nonzero coefficient, which is corrected. */
  lemma WalkCorrects(x: Context, n: nat, k: nat, r: nat, v: int, a: int)
    requires x.Valid() && k <= x.se && a != 0
    ensures Past(x, Walking(n, k, r, v), Walking(n + 1, k + 1, r, v), a, Correct(a, BitAt(x.data, n), x.al))
  {
    hide Correct, ReadRefine, AfterCode, BitAt;
  }

  /** On the way: a zero that is passed. */
  lemma WalkPasses(x: Context, n: nat, k: nat, r: nat, v: int)
    requires x.Valid() && k <= x.se && r > 0
    ensures Past(x, Walking(n, k, r, v), Walking(n, k + 1, r - 1, v), 0, 0)
  {
    hide Correct, ReadRefine, AfterCode, PastAt;
    var s' := Walking(n, k + 1, r - 1, v);
    forall z: seq<int> ensures PastAt(x, Walking(n, k, r, v), s', 0, 0, z) {
      ZeroPassed(x, n, k, r, v, z);
    }
  }

  lemma ZeroPassed(x: Context, n: nat, k: nat, r: nat, v: int, z: seq<int>)
    requires x.Valid() && k <= x.se && r > 0
    ensures PastAt(x, Walking(n, k, r, v), Walking(n, k + 1, r - 1, v), 0, 0, z)
  {
    hide Correct, ReadRefine, AfterCode;
    if |z| == 64 && z[k] == 0 { assert z[k := 0] == z; }
  }

  /** The zero that is the place of the value (or the last one of a ZRL). */
  lemma WalkArrives(x: Context, n: nat, k: nat, v: int)
    requires x.Valid() && k <= x.se
    ensures Past(x, Walking(n, k, 0, v), AtSymbol(n, k + 1), 0, v)
  {
    hide Correct, ReadRefine, AfterCode, PastAt;
    var s' := AtSymbol(n, k + 1);
    forall z: seq<int> ensures PastAt(x, Walking(n, k, 0, v), s', 0, v, z) {
      Arrived(x, n, k, v, z);
    }
  }

  lemma Arrived(x: Context, n: nat, k: nat, v: int, z: seq<int>)
    requires x.Valid() && k <= x.se
    ensures PastAt(x, Walking(n, k, 0, v), AtSymbol(n, k + 1), 0, v, z)
  {
    hide Correct, ReadRefine, AfterCode;
    if |z| == 64 && z[k] == 0 && v == 0 { assert z[k := v] == z; }
  }

  lemma TailCorrects(x: Context, n: nat, k: nat, e: nat, a: int)
    requires x.Valid() && k <= x.se && a != 0 && e > 0
    ensures Past(x, InTail(n, k, e), InTail(n + 1, k + 1, e), a, Correct(a, BitAt(x.data, n), x.al))
  {
    hide Correct, BitAt;
  }

  lemma TailPasses(x: Context, n: nat, k: nat, e: nat)
    requires x.Valid() && k <= x.se && e > 0
    ensures Past(x, InTail(n, k, e), InTail(n, k + 1, e), 0, 0)
  {
    hide Correct, PastAt;
    var s' := InTail(n, k + 1, e);
    forall z: seq<int> ensures PastAt(x, InTail(n, k, e), s', 0, 0, z) { TailZero(x, n, k, e, z); }
  }

  lemma TailZero(x: Context, n: nat, k: nat, e: nat, z: seq<int>)
    requires x.Valid() && k <= x.se && e > 0
    ensures PastAt(x, InTail(n, k, e), InTail(n, k + 1, e), 0, 0, z)
  {
    hide Correct;
    if |z| == 64 && z[k] == 0 { assert z[k := 0] == z; }
  }
}
