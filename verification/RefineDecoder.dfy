/** `decode_mcu_AC_refine`: refining a block in place, and taking it back when the input runs out. */
module RefineDecoder {
  import opened AcRefine
  import opened Arith
  import opened Bits
  import opened BitInput
  import opened Coefficients
  import opened HuffDecoding
  import opened HuffTables
  import opened ProgMeaning
  import opened RefineTrack
  import opened RunLength

  /** The block with the newly nonzero coefficients, at the natural-order positions `newnz`, zeroed again. */
  function Undone(block: seq<int>, newnz: seq<nat>): (b: seq<int>)
    requires |block| == 64
    ensures |b| == 64
  {
    seq(64, i requires 0 <= i < 64 => if i in newnz then 0 else block[i])
  }

  ghost predicate Behind(newnz: seq<nat>, k: nat) { forall q <- newnz :: q < 64 && ZigzagIndex(q) < k }

  /**
   At step `s` the block leads to the outcome that the MCU has from `z0`, and so it does, decoded afresh, once the newly
   nonzero coefficients are taken back.
   */
  ghost predicate Tracked(x: Context, z0: seq<int>, block: seq<int>, newnz: seq<nat>, s: Step) {
    && x.Valid() && |z0| == |block| == 64 && ShortCoefs(block) && Behind(newnz, s.k)
    && Leads(x, z0, Zigzag(block), s) && Leads(x, Zigzag(Undone(block, newnz)), Zigzag(block), s)
    && forall i :: s.k <= i < 64 ==> Zigzag(block)[i] == z0[i]
  }

  ghost function Outcome(x: Context, z: seq<int>): (o: AcOut)
    requires x.Valid() && |z| == 64
    ensures |o.z| == 64
  {
    AcRefineMcu(x.h, x.data, x.n, x.e, x.ss, x.se, x.al, z)
  }

  /** Taking the newly nonzero coefficients back makes the attempt harmless. */
  ghost predicate Undoable(x: Context, z0: seq<int>, block: seq<int>, newnz: seq<nat>) {
    && x.Valid() && |z0| == |block| == 64 && ShortCoefs(block) && (forall q <- newnz :: q < 64)
    && Outcome(x, Zigzag(Undone(block, newnz))) == Outcome(x, z0)
  }

  lemma TrackedStart(x: Context, block: seq<int>)
    requires x.Valid() && |block| == 64 && ShortCoefs(block)
    ensures Tracked(x, Zigzag(block), block, [], Begin(x))
  {
    hide Leads, Zigzag, Begin;
    LeadsStart(x, Zigzag(block));
    assert Undone(block, []) == block;
  }

  lemma TrackedMove(x: Context, z0: seq<int>, block: seq<int>, newnz: seq<nat>, s: Step, s': Step)
    requires Tracked(x, z0, block, newnz, s) && Same(x, s, s')
    ensures Tracked(x, z0, block, newnz, s')
  {
    hide Leads, Zigzag, Undone;
    SameStep(x, s, s');
    LeadsOn(x, z0, Zigzag(block), s, s');
    LeadsOn(x, Zigzag(Undone(block, newnz)), Zigzag(block), s, s');
  }

  lemma SameStep(x: Context, s: Step, s': Step)
    requires Same(x, s, s')
    ensures s'.k == s.k
  {
  }

  /** Behind the next place nothing changes. */
  lemma BehindMore(newnz: seq<nat>, k: nat)
    requires Behind(newnz, k) && k < 64
    ensures Behind(newnz, k + 1) && NaturalOrder(k) !in newnz
    ensures Behind(newnz + [NaturalOrder(k)], k + 1)
  {
    hide NaturalOrder, ZigzagIndex;
    OrderThenIndex(k);
  }

  /** Moving past a nonzero coefficient, which becomes `c`. */
  lemma TrackedCorrected(x: Context, z0: seq<int>, block: seq<int>, newnz: seq<nat>, s: Step, s': Step, c: int)
    requires Tracked(x, z0, block, newnz, s) && s.k < 64 && -0x8000 <= c < 0x8000
    requires Past(x, s, s', Zigzag(block)[s.k], c) && Past(x, s, s', c, c)
    ensures Tracked(x, z0, block[NaturalOrder(s.k) := c], newnz, s')
  {
    hide Leads, NaturalOrder, ZigzagIndex, Past, Zigzag;
    var k, p := s.k, NaturalOrder(s.k);
    PastStep(x, s, s', c, c);
    BehindMore(newnz, k);
    ZigzagUpdate(block, k, c);
    ZigzagUpdate(Undone(block, newnz), k, c);
    assert Undone(block[p := c], newnz) == Undone(block, newnz)[p := c];
    assert z0[k := Zigzag(block)[k]] == z0;
    LeadsPast(x, z0, Zigzag(block), s, s', Zigzag(block)[k], c);
    LeadsPast(x, Zigzag(Undone(block, newnz)), Zigzag(block), s, s', c, c);
  }

  lemma PastStep(x: Context, s: Step, s': Step, a: int, c: int)
    requires Past(x, s, s', a, c)
    ensures s'.k == s.k + 1 && x.Valid()
  {
  }

  /** Moving past a coefficient that was zero and becomes `v`; it is remembered unless it stays zero. */
  lemma TrackedPlaced(x: Context, z0: seq<int>, block: seq<int>, newnz: seq<nat>, s: Step, s': Step, v: int)
    requires Tracked(x, z0, block, newnz, s) && s.k < 64 && -0x8000 <= v < 0x8000
    requires Zigzag(block)[s.k] == 0 && Past(x, s, s', 0, v)
    ensures var p := NaturalOrder(s.k);
            && Tracked(x, z0, block[p := v], newnz + [p], s')
            && (v == 0 ==> Tracked(x, z0, block, newnz, s'))
  {
    hide Leads, NaturalOrder, ZigzagIndex, Past, Zigzag;
    var k, p := s.k, NaturalOrder(s.k);
    PastStep(x, s, s', 0, v);
    BehindMore(newnz, k);
    ZigzagUpdate(block, k, v);
    ZigzagUpdate(Undone(block, newnz), k, 0);
    assert Undone(block[p := v], newnz + [p]) == Undone(block, newnz)[p := 0];
    assert z0[k := 0] == z0;
    LeadsPast(x, z0, Zigzag(block), s, s', 0, v);
    LeadsPast(x, Zigzag(Undone(block, newnz)), Zigzag(block), s, s', 0, v);
    if v == 0 {
      UndoneThere(block, newnz, k);
      assert Zigzag(block)[k := 0] == Zigzag(block);
      assert Zigzag(Undone(block, newnz))[k := 0] == Zigzag(Undone(block, newnz));
    }
  }

  lemma UndoneThere(block: seq<int>, newnz: seq<nat>, k: nat)
    requires |block| == 64 && k < 64 && Zigzag(block)[k] == 0
    ensures Zigzag(Undone(block, newnz))[k] == 0
  {
    hide NaturalOrder;
  }

  /** What has been tracked can be taken back. */
  lemma TrackedUndoable(x: Context, z0: seq<int>, block: seq<int>, newnz: seq<nat>, s: Step)
    requires Tracked(x, z0, block, newnz, s)
    ensures Undoable(x, z0, block, newnz)
  {
    hide Leads, NaturalOrder, ZigzagIndex, Zigzag;
    var z, u := Zigzag(block), Zigzag(Undone(block, newnz));
    LeadsSame(x, z0, u, z, s);
    forall i | s.k <= i < 64 ensures u[i] == z[i] {
      UndoneAhead(block, newnz, s.k, i);
    }
    assert Merge(z0, z, s.k) == z0;
    assert Merge(u, z, s.k) == u;
  }

  lemma UndoneAhead(block: seq<int>, newnz: seq<nat>, k: nat, i: nat)
    requires |block| == 64 && Behind(newnz, k) && k <= i < 64
    ensures Zigzag(Undone(block, newnz))[i] == Zigzag(block)[i]
  {
    hide NaturalOrder, ZigzagIndex;
    OrderThenIndex(i);
  }

  lemma LeadsSame(x: Context, a: seq<int>, b: seq<int>, z: seq<int>, s: Step)
    requires x.Valid() && Leads(x, a, z, s) && Leads(x, b, z, s) && |a| == |b| == |z| == 64
    ensures Outcome(x, Merge(a, z, s.k)) == Outcome(x, Merge(b, z, s.k))
  {
    hide Finish, Merge, Begin, AcRefineMcu;
    assert LeadsFor(x, a, z, s, z) && LeadsFor(x, b, z, s, z);
    BeginIsMcu(x, Merge(a, z, s.k));
    BeginIsMcu(x, Merge(b, z, s.k));
  }

  /** At any step, what remains to be done completes the outcome. */
  lemma TrackedOutcome(x: Context, z0: seq<int>, block: seq<int>, newnz: seq<nat>, s: Step)
    requires Tracked(x, z0, block, newnz, s)
    ensures StepValid(x, s) && Finish(x, s, Zigzag(block)) == Outcome(x, z0)
  {
    hide Leads, Finish, AcRefineMcu, Zigzag, Decodable;
    LeadsEnd(x, z0, Zigzag(block), s);
  }

  // ----- The decoder -----

  /** Reads a correction bit for the coefficient at place `k`, which is nonzero, and applies it. */
  method CorrectHere(src: BitSource, block: array<int>, k: nat, al: nat, st: BitState, ghost n: nat)
    returns (ok: bool, st': BitState)
    requires src.At(st, n) && block.Length == 64 && k < 64 && al <= 13 && ShortCoefs(block[..])
    modifies src`unreadMarker, src`insufficient, block
    ensures ok ==>
              && src.At(st', n + 1) && ShortCoefs(block[..])
              && block[..] == old(block[..])[NaturalOrder(k) := Correct(old(block[NaturalOrder(k)]), BitAt(src.data, n), al)]
    ensures !ok ==> block[..] == old(block[..])
    ensures ok && src.insufficient && !old(src.insufficient) ==> |src.data| < n + 1
    ensures (ok && src.Kept()) || (!ok && src.Untouched() && !src.Delivered())
  {
    hide BitSource.At, BitSource.Delivered, NaturalOrder, Peek, Pow2, ToShort;
    var bit, pos := 0, NaturalOrder(k);
    ok, bit, st' := src.GetBits(st, 1, n);
    if !ok { return; }
    PeekBit(src.data, n);
    var c := block[pos];
    if bit != 0 {
      PowerPositive(al);
      if c / Pow2(al) % 2 == 0 {
        if c >= 0 { block[pos] := ToShort(c + Pow2(al)); }
        else { block[pos] := ToShort(c - Pow2(al)); }
      }
    }
    assert block[..] == old(block[..])[pos := Correct(c, BitAt(src.data, n), al)];
  }

  lemma PeekBit(data: seq<bool>, n: nat)
    ensures Peek(data, n, 1) == BitAt(data, n)
  {
    assert Peek(data, n, 0) == 0;
  }

  /** The walk to the place of the value `v`: over nonzero coefficients, which are corrected, and over `r` zeros. */
  method AdvanceOver(src: BitSource, block: array<int>, ghost newnz: seq<nat>, k0: nat, r0: nat, se: nat, al: nat, st: BitState,
                     ghost x: Context, ghost z0: seq<int>, ghost n: nat, ghost v: int)
    returns (ok: bool, k: nat, st': BitState, ghost m: nat, ghost r: nat)
    requires src.At(st, n) && block.Length == 64 && k0 <= se == x.se < 64 && al == x.al <= 13 && x.data == src.data
    requires Tracked(x, z0, block[..], newnz, Walking(n, k0, r0, v))
    modifies src`unreadMarker, src`insufficient, block
    ensures k0 <= k <= se + 1 && n <= m
    ensures ok ==> src.At(st', m) && Tracked(x, z0, block[..], newnz, Walking(m, k, r, v))
    ensures ok && k <= se ==> r == 0 && block[NaturalOrder(k)] == 0
    ensures !ok ==> Undoable(x, z0, block[..], newnz)
    ensures ok && src.insufficient && !old(src.insufficient) ==> |src.data| < m
    ensures (ok && src.Kept()) || (!ok && src.Untouched() && !src.Delivered())
  {
    hide BitSource.At, BitSource.Delivered, NaturalOrder, Tracked, Undoable, Correct, Past, ToShort, Zigzag;
    NoMarkerNoShortage(src, st, n);
    ok, k, st', m, r := true, k0, st, n, r0;
    var left := r0;
    while k <= se
      invariant n <= m && k0 <= k <= se + 1 && left == r && src.At(st', m) && Tracked(x, z0, block[..], newnz, Walking(m, k, r, v))
      invariant src.Kept()
      invariant src.insufficient && !old(src.insufficient) ==> |src.data| < m
      decreases se + 1 - k
    {
      NoMarkerNoShortage(src, st', m);
      ghost var was := block[..];
      TrackedShape(x, z0, was, newnz, Walking(m, k, r, v));
      ZigzagAt(was, k);
      if block[NaturalOrder(k)] != 0 {
        CorrectedOnTheWay(x, z0, was, newnz, m, k, r, v);
        ok, st' := CorrectHere(src, block, k, al, st', m);
        if !ok {
          TrackedUndoable(x, z0, block[..], newnz, Walking(m, k, r, v));
          return;
        }
        m := m + 1;
      } else {
        if left == 0 { return; }
        WalkPasses(x, m, k, r, v);
        TrackedPlaced(x, z0, was, newnz, Walking(m, k, r, v), Walking(m, k + 1, r - 1, v), 0);
        left, r := left - 1, r - 1;
      }
      k := k + 1;
    }
  }

  lemma TrackedShape(x: Context, z0: seq<int>, block: seq<int>, newnz: seq<nat>, s: Step)
    requires Tracked(x, z0, block, newnz, s)
    ensures x.Valid() && |z0| == |block| == 64 && ShortCoefs(block)
  {
  }

  lemma ZigzagAt(block: seq<int>, k: nat)
    requires |block| == 64 && k < 64
    ensures Zigzag(block)[k] == block[NaturalOrder(k)]
  {
  }

  lemma CorrectedOnTheWay(x: Context, z0: seq<int>, block: seq<int>, newnz: seq<nat>, n: nat, k: nat, r: nat, v: int)
    requires Tracked(x, z0, block, newnz, Walking(n, k, r, v)) && k <= x.se && block[NaturalOrder(k)] != 0
    ensures var c := Correct(block[NaturalOrder(k)], BitAt(x.data, n), x.al);
            Tracked(x, z0, block[NaturalOrder(k) := c], newnz, Walking(n + 1, k + 1, r, v))
  {
    hide NaturalOrder, Tracked, Correct, Past, Zigzag, BitAt;
    TrackedShape(x, z0, block, newnz, Walking(n, k, r, v));
    ZigzagAt(block, k);
    var a, b := block[NaturalOrder(k)], BitAt(x.data, n);
    CorrectTwice(a, b, x.al);
    WalkCorrects(x, n, k, r, v, a);
    WalkCorrects(x, n, k, r, v, Correct(a, b, x.al));
    TrackedCorrected(x, z0, block, newnz, Walking(n, k, r, v), Walking(n + 1, k + 1, r, v), Correct(a, b, x.al));
  }

  lemma CorrectedInTail(x: Context, z0: seq<int>, block: seq<int>, newnz: seq<nat>, n: nat, k: nat, e: nat)
    requires Tracked(x, z0, block, newnz, InTail(n, k, e)) && k <= x.se && block[NaturalOrder(k)] != 0 && e > 0
    ensures var c := Correct(block[NaturalOrder(k)], BitAt(x.data, n), x.al);
            Tracked(x, z0, block[NaturalOrder(k) := c], newnz, InTail(n + 1, k + 1, e))
  {
    hide NaturalOrder, Tracked, Correct, Past, Zigzag, BitAt;
    TrackedShape(x, z0, block, newnz, InTail(n, k, e));
    ZigzagAt(block, k);
    var a, b := block[NaturalOrder(k)], BitAt(x.data, n);
    CorrectTwice(a, b, x.al);
    TailCorrects(x, n, k, e, a);
    TailCorrects(x, n, k, e, Correct(a, b, x.al));
    TrackedCorrected(x, z0, block, newnz, InTail(n, k, e), InTail(n + 1, k + 1, e), Correct(a, b, x.al));
  }

  /** The coefficients after the last newly nonzero one. */
  method CorrectTail(src: BitSource, block: array<int>, ghost newnz: seq<nat>, k0: nat, se: nat, al: nat, st: BitState,
                     ghost x: Context, ghost z0: seq<int>, ghost n: nat, ghost e: nat)
    returns (ok: bool, st': BitState, ghost m: nat)
    requires src.At(st, n) && block.Length == 64 && k0 <= se + 1 && se == x.se < 64 && al == x.al <= 13 && x.data == src.data
    requires e > 0 && Tracked(x, z0, block[..], newnz, InTail(n, k0, e))
    modifies src`unreadMarker, src`insufficient, block
    ensures n <= m
    ensures ok ==> src.At(st', m) && Tracked(x, z0, block[..], newnz, InTail(m, se + 1, e))
    ensures !ok ==> Undoable(x, z0, block[..], newnz)
    ensures ok && src.insufficient && !old(src.insufficient) ==> |src.data| < m
    ensures (ok && src.Kept()) || (!ok && src.Untouched() && !src.Delivered())
  {
    hide BitSource.At, BitSource.Delivered, NaturalOrder, Tracked, Undoable, Correct, Past, ToShort, Zigzag;
    NoMarkerNoShortage(src, st, n);
    ok, st', m := true, st, n;
    var k := k0;
    while k <= se
      invariant n <= m && k0 <= k <= se + 1 && src.At(st', m) && Tracked(x, z0, block[..], newnz, InTail(m, k, e))
      invariant src.Kept()
      invariant src.insufficient && !old(src.insufficient) ==> |src.data| < m
    {
      NoMarkerNoShortage(src, st', m);
      ghost var was := block[..];
      TrackedShape(x, z0, was, newnz, InTail(m, k, e));
      ZigzagAt(was, k);
      if block[NaturalOrder(k)] != 0 {
        CorrectedInTail(x, z0, was, newnz, m, k, e);
        ok, st' := CorrectHere(src, block, k, al, st', m);
        if !ok {
          TrackedUndoable(x, z0, block[..], newnz, InTail(m, k, e));
          return;
        }
        m := m + 1;
      } else {
        TailPasses(x, m, k, e);
        TrackedPlaced(x, z0, was, newnz, InTail(m, k, e), InTail(m, k + 1, e), 0);
      }
      k := k + 1;
    }
  }

  /** What a symbol announces: an EOB run, or a zero run and a value (0 for a ZRL). */
  datatype Announced = EndOfBand(eobrun: nat) | Coming(r: nat, v: int)

  function StepAfter(a: Announced, n: nat, k: nat): (s: Step) {
    match a
    case EndOfBand(e) => InTail(n, k, e)
    case Coming(r, v) => Walking(n, k, r, v)
  }

  /** The symbol at place `k` and the bits that come with it. */
  method ReadAnnounced(src: BitSource, h: HuffTable, d: DecTable, al: nat, st: BitState, ghost x: Context, k: nat, ghost n: nat)
    returns (ok: bool, a: Announced, st': BitState, ghost m: nat)
    requires src.At(st, n) && Derived(h, d) && x.Valid() && h == x.h && src.data == x.data && al == x.al && k <= x.se
    modifies src`unreadMarker, src`insufficient
    ensures ok ==> src.At(st', m) && Same(x, AtSymbol(n, k), StepAfter(a, m, k))
    ensures n <= m && (a.EndOfBand? ==> 0 < a.eobrun)
    ensures a.Coming? ==> -0x8000 <= a.v < 0x8000
    ensures ok && src.insufficient && !old(src.insufficient) ==> |src.data| < m
    ensures (ok && src.Kept()) || (!ok && src.Untouched() && !src.Delivered())
  {
    hide BitSource.At, BitSource.Delivered, DecodeSymbol, DecodeLength, Derived, Peek, Same, Pow2, Count;
    a, m := Coming(15, 0), n;
    NoMarkerNoShortage(src, st, n);
    var sym;
    ok, sym, st' := HuffDecode(src, h, d, st, n);
    if !ok { return; }
    var r, s := sym / 16, sym % 16;
    m := n + DecodeLength(h.bits, src.data, n);
    NoMarkerNoShortage(src, st', m);
    if s != 0 {
      var bit;
      NewSymbolStep(x, n, k);
      ok, bit, st' := src.GetBits(st', 1, m);
      PeekBit(src.data, m);
      NewValueShort(bit, al);
      a := Coming(r, NewValue(bit, al));
      m := m + 1;
    } else if r == 15 {
      ZrlStep(x, n, k);
    } else {
      EobStep(x, n, k);
      RunPositive(r);
      var run: nat, bits := Pow2(r), 0;
      if r != 0 {
        ok, bits, st' := src.GetBits(st', r, m);
        run := run + bits;
      } else {
        NothingPeeked(src.data, m);
      }
      a, m := EndOfBand(if ok then run else 1), m + r;
    }
  }

  lemma NewValueShort(b: nat, al: nat)
    requires al <= 13
    ensures -0x8000 <= NewValue(b, al) < 0x8000 && NewValue(b, al) != 0
  {
    Pow2Mono(al, 13);
    Pow2Literals();
  }

  lemma RunPositive(r: nat)
    ensures Pow2(r) > 0
  {
  }

  /** A band with symbols of its own.  Whether an EOB run begins in it or not, the rest is what the step says. */
  method RefineBand(src: BitSource, h: HuffTable, d: DecTable, block: array<int>, ss: nat, se: nat, al: nat, st: BitState,
                    ghost x: Context)
    returns (ok: bool, eobrun: nat, k: nat, newnz: seq<nat>, st': BitState, ghost m: nat)
    requires src.At(st, x.n) && Derived(h, d) && x.Valid() && h == x.h && src.data == x.data && ss == x.ss && se == x.se && al == x.al
    requires x.e == 0 && 0 < ss && block.Length == 64 && ShortCoefs(block[..])
    modifies src`unreadMarker, src`insufficient, block
    ensures ok ==> src.At(st', m) && ShortCoefs(block[..])
    ensures ok && eobrun > 0 ==> k <= se && Tracked(x, Zigzag(old(block[..])), block[..], newnz, InTail(m, k, eobrun))
    ensures ok && eobrun == 0 ==> Outcome(x, Zigzag(old(block[..]))) == AcOut(m, 0, Zigzag(block[..]))
    ensures !ok ==> Undoable(x, Zigzag(old(block[..])), block[..], newnz)
    ensures |newnz| <= DCTSIZE2
    ensures ok && src.insufficient && !old(src.insufficient) ==> |src.data| < m
    ensures (ok && src.Kept()) || (!ok && src.Untouched() && !src.Delivered())
  {
    hide BitSource.At, BitSource.Delivered, NaturalOrder, Tracked, Undoable, Past, Same, ToShort, Zigzag, Derived, Outcome;
    ghost var z0 := Zigzag(block[..]);
    ok, eobrun, k, newnz, st', m := true, 0, ss, [], st, x.n;
    TrackedStart(x, block[..]);
    NoMarkerNoShortage(src, st, m);
    while k <= se
      invariant ok && eobrun == 0 && ss <= k <= se + 1 && |newnz| + ss <= k && src.At(st', m)
      invariant Tracked(x, z0, block[..], newnz, AtSymbol(m, k))
      invariant src.Kept()
      invariant src.insufficient && !old(src.insufficient) ==> |src.data| < m
      decreases se + 1 - k
    {
      NoMarkerNoShortage(src, st', m);
      ghost var was, n := block[..], m;
      TrackedShape(x, z0, was, newnz, AtSymbol(n, k));
      var a;
      ok, a, st', m := ReadAnnounced(src, h, d, al, st', x, k, n);
      if !ok {
        TrackedUndoable(x, z0, was, newnz, AtSymbol(n, k));
        return;
      }
      TrackedMove(x, z0, was, newnz, AtSymbol(n, k), StepAfter(a, m, k));
      NoMarkerNoShortage(src, st', m);
      if a.EndOfBand? {
        eobrun := a.eobrun;
        return;
      }
      ghost var r;
      ok, k, st', m, r := AdvanceOver(src, block, newnz, k, a.r, se, al, st', x, z0, m, a.v);
      if !ok { return; }
      TrackedShape(x, z0, block[..], newnz, Walking(m, k, r, a.v));
      ghost var there := block[..];
      if k <= se {
        ArrivedThere(x, z0, there, newnz, m, k, a.v);
      } else {
        PastTheBand(x, z0, there, newnz, m, r, a.v);
      }
      if a.v != 0 {
        assert |newnz| < DCTSIZE2;
        block[NaturalOrder(k)] := a.v;
        newnz := newnz + [NaturalOrder(k)];
        assert block[..] == there[NaturalOrder(k) := a.v];
      }
      if k > se { return; }
      k := k + 1;
    }
    BandComplete(x, z0, block[..], newnz, m);
    TrackedShape(x, z0, block[..], newnz, AtSymbol(m, k));
  }

  lemma ArrivedThere(x: Context, z0: seq<int>, block: seq<int>, newnz: seq<nat>, n: nat, k: nat, v: int)
    requires Tracked(x, z0, block, newnz, Walking(n, k, 0, v)) && k <= x.se && block[NaturalOrder(k)] == 0
    requires -0x8000 <= v < 0x8000
    ensures Tracked(x, z0, block[NaturalOrder(k) := v], newnz + [NaturalOrder(k)], AtSymbol(n, k + 1))
    ensures v == 0 ==> Tracked(x, z0, block, newnz, AtSymbol(n, k + 1))
  {
    hide NaturalOrder, Tracked, Past, Zigzag;
    TrackedShape(x, z0, block, newnz, Walking(n, k, 0, v));
    ZigzagAt(block, k);
    WalkArrives(x, n, k, v);
    TrackedPlaced(x, z0, block, newnz, Walking(n, k, 0, v), AtSymbol(n, k + 1), v);
  }

  /** Corrupt data may announce a value beyond the band: it is written behind the band, and the band is over. */
  lemma PastTheBand(x: Context, z0: seq<int>, block: seq<int>, newnz: seq<nat>, n: nat, r: nat, v: int)
    requires Tracked(x, z0, block, newnz, Walking(n, x.se + 1, r, v)) && -0x8000 <= v < 0x8000
    ensures var b := if v == 0 then block else block[NaturalOrder(x.se + 1) := v];
            ShortCoefs(b) && Outcome(x, z0) == AcOut(n, 0, Zigzag(b))
  {
    hide NaturalOrder, Zigzag, Leads, Outcome, CorrectRest;
    TrackedOutcome(x, z0, block, newnz, Walking(n, x.se + 1, r, v));
    ZigzagUpdate(block, x.se + 1, v);
  }

  lemma BandComplete(x: Context, z0: seq<int>, block: seq<int>, newnz: seq<nat>, n: nat)
    requires Tracked(x, z0, block, newnz, AtSymbol(n, x.se + 1))
    ensures Outcome(x, z0) == AcOut(n, 0, Zigzag(block))
  {
    hide NaturalOrder, Zigzag, Leads, Outcome, CorrectRest;
    TrackedOutcome(x, z0, block, newnz, AtSymbol(n, x.se + 1));
  }

  lemma TailComplete(x: Context, z0: seq<int>, block: seq<int>, newnz: seq<nat>, n: nat, e: nat)
    requires Tracked(x, z0, block, newnz, InTail(n, x.se + 1, e)) && e > 0
    ensures Outcome(x, z0) == AcOut(n, e - 1, Zigzag(block))
  {
    hide NaturalOrder, Zigzag, Leads, Outcome, ReadRefine;
    TrackedOutcome(x, z0, block, newnz, InTail(n, x.se + 1, e));
  }

  /** Zeroes the newly nonzero coefficients again, the last one first. */
  method Undo(block: array<int>, newnz: seq<nat>)
    requires block.Length == 64 && forall q <- newnz :: q < 64
    modifies block
    ensures block[..] == Undone(old(block[..]), newnz)
  {
    var num := |newnz|;
    ghost var was := block[..];
    while num > 0
      invariant 0 <= num <= |newnz|
      invariant Undone(block[..], newnz[..num]) == Undone(was, newnz)
    {
      num := num - 1;
      ghost var before := block[..];
      assert newnz[num] in newnz;
      block[newnz[num]] := 0;
      assert newnz[..num + 1] == newnz[..num] + [newnz[num]];
      assert Undone(block[..], newnz[..num]) == Undone(before, newnz[..num + 1]);
    }
    assert Undone(block[..], []) == block[..];
  }

  /** `decode_mcu_AC_refine` on its block; suspended, it takes back what a second attempt would mistake for old. */
  method DecodeRefined(src: BitSource, h: HuffTable, d: DecTable, block: array<int>, ss: nat, se: nat, al: nat, st: BitState,
                       eobrun: nat, ghost n: nat)
    returns (ok: bool, eobrun': nat, st': BitState)
    requires src.At(st, n) && Derived(h, d) && Decodable(h) && 0 < ss <= se < 64 && al <= 13
    requires block.Length == 64 && ShortCoefs(block[..])
    modifies src`unreadMarker, src`insufficient, block
    ensures ShortCoefs(block[..])
    ensures ok ==>
              var o := AcRefineMcu(h, src.data, n, eobrun, ss, se, al, Zigzag(old(block[..])));
              Zigzag(block[..]) == o.z && eobrun' == o.eobrun && src.At(st', o.n)
              && (src.insufficient && !old(src.insufficient) ==> |src.data| < o.n)
    ensures (ok && src.Kept()) || (!ok && src.Untouched() && !src.Delivered())
    ensures !ok ==>
              AcRefineMcu(h, src.data, n, eobrun, ss, se, al, Zigzag(block[..]))
              == AcRefineMcu(h, src.data, n, eobrun, ss, se, al, Zigzag(old(block[..])))
  {
    hide BitSource.At, BitSource.Delivered, Tracked, Undoable, Zigzag, Derived, Decodable, ShortCoefs, AcRefineMcu, Undone;
    ghost var x, z0 := Context(h, src.data, n, eobrun, ss, se, al), Zigzag(block[..]);
    TrackedStart(x, block[..]);
    var run, k, newnz: seq<nat> := eobrun, ss, [];
    ghost var m := n;
    ok, eobrun', st' := true, 0, st;
    NoMarkerNoShortage(src, st, n);
    if run == 0 {
      ok, run, k, newnz, st', m := RefineBand(src, h, d, block, ss, se, al, st, x);
    }
    if ok && run > 0 {
      NoMarkerNoShortage(src, st', m);
      ok, st', m := CorrectTail(src, block, newnz, k, se, al, st', x, z0, m, run);
      if ok {
        TrackedShape(x, z0, block[..], newnz, InTail(m, se + 1, run));
        TailComplete(x, z0, block[..], newnz, m, run);
        eobrun' := run - 1;
      }
    }
    if !ok {
      UndoShort(x, z0, block[..], newnz);
      Undo(block, newnz);
    }
  }

  lemma UndoShort(x: Context, z0: seq<int>, block: seq<int>, newnz: seq<nat>)
    requires Undoable(x, z0, block, newnz)
    ensures (forall q <- newnz :: q < 64) && x.Valid() && |z0| == |block| == 64 && ShortCoefs(Undone(block, newnz))
    ensures Outcome(x, Zigzag(Undone(block, newnz))) == Outcome(x, z0)
  {
    hide Outcome, Zigzag;
  }
}
