/** What the bits of a progressive scan mean, MCU by MCU, and that they mean what was encoded. */
module ProgMeaning {
  import opened AcRefine
  import opened Arith
  import opened Bits
  import opened Coefficients
  import opened EobRuns
  import opened HuffDecoding
  import opened HuffTables
  import opened ProgEncoder
  import opened ProgPasses
  import opened ProgScan
  import opened RunLength
  import opened Scans
  import opened SeqDecoder
  import opened SeqEncoder
  import opened SeqRoundTrip
  import opened Tokens
  import Seqs

  // ----- AC scans -----

  /** The state after an MCU: position, EOBRUN, and the block. */
  datatype AcOut = AcOut(n: nat, eobrun: nat, z: seq<int>)

  /** `decode_mcu_AC_first`. */
  function AcFirstMcu(h: HuffTable, data: seq<bool>, n: nat, e: nat, ss: nat, se: nat, al: nat, z: seq<int>): (o: AcOut)
    requires h.WellTyped() && Count(h.bits, 16) <= 256 && |z| == 64 && se < 64
    ensures |o.z| == 64 && n <= o.n
  {
    if e > 0 then AcOut(n, e - 1, z)
    else
      var c := ReadBand(h, data, n, ss, se);
      var z' := Apply(z, c.writes, al);
      if c.eob < 0 then AcOut(c.end, 0, z')
      else AcOut(c.end + c.eob, Pow2(c.eob) + Peek(data, c.end, c.eob) - 1, z')
  }

  /** `decode_mcu_AC_refine`. */
  function AcRefineMcu(h: HuffTable, data: seq<bool>, n: nat, e: nat, ss: nat, se: nat, al: nat, z: seq<int>): (o: AcOut)
    requires h.WellTyped() && Count(h.bits, 16) <= 256 && |z| == 64 && ss <= se < 64
    ensures |o.z| == 64 && n <= o.n
  {
    var c := if e > 0 then RefineCode(n, ss, e, z) else ReadRefine(h, data, n, ss, se, al, z);
    if c.eobrun == 0 then AcOut(c.n, 0, c.z)
    else var (n', z') := CorrectRest(data, c.n, c.k, se, al, c.z); AcOut(n', c.eobrun - 1, z')
  }

  /** The band of `base` replaced by what is known of `z` at precision `al`. */
  function Known(z: seq<int>, base: seq<int>, ss: nat, se: nat, al: nat): (b: seq<int>)
    requires |z| == |base| == 64
    ensures |b| == 64
  {
    seq(64, i requires 0 <= i < 64 => if ss <= i <= se then Truncated(z[i], al) else base[i])
  }

  /** An EOBn symbol and the bits of its length. */
  lemma EobReads(h: HuffTable, ets: seq<EncTable>, t: nat, run: nat, data: seq<bool>, n: nat)
    requires t < |ets| && Matches(h, ets[t]) && Decodable(h) && 0 < run <= MAX_EOBRUN
    requires AllCoded(ets, EobTokens(t, run)) && Stands(data, n, TokenBits(ets, EobTokens(t, run)))
    ensures var r: nat, n1 := NumBits(run) - 1, n + DecodeLength(h.bits, data, n);
            && r <= 14 && DecodeSymbol(h, data, n) == r * 16
            && Pow2(r) + Peek(data, n1, r) == run && n1 + r == n + |TokenBits(ets, EobTokens(t, run))|
  {
    hide NumBits, DecodeSymbol, DecodeLength, Matches, Stands, TokenBits, Peek, AllCoded;
    RunLengthBits(run);
    NumBitsBounds(run);
    var r: nat := NumBits(run) - 1;
    var sym := Sym(t, r * 16);
    assert Pow2(r + 1) == 2 * Pow2(r);
    if r == 0 {
      OneCoded(ets, sym);
      ReadsSymbol(h, ets, t, data, n, r * 16);
      NothingPeeked(data, n + DecodeLength(h.bits, data, n));
    } else {
      var raw := Raw(run, r);
      assert EobTokens(t, run) == [sym] + [raw];
      StandsTokens(ets, data, n, [sym], [raw]);
      OneCoded(ets, sym);
      ReadsSymbol(h, ets, t, data, n, r * 16);
      TokenBitsOne(ets, raw);
      RawReads(data, n + DecodeLength(h.bits, data, n), run, r);
      DivModUnique(1, run - Pow2(r), Pow2(r), run);
    }
  }

  lemma NothingPeeked(data: seq<bool>, n: nat)
    ensures Peek(data, n, 0) == 0 && Pow2(0) == 1
  {
  }

  lemma SmallInBand(p: Progress, z: seq<int>)
    requires p.Valid() && p.ss > 0 && p.ah == 0 && |z| == 64 && BandInRange(p, z, p.se + 1)
    ensures SmallValues(Shifted(z, p.al), p.ss, p.se)
  {
    hide NumBits, Shift;
  }

  /** Writing the values of a first scan into a band of zeros. */
  lemma FirstWritten(p: Progress, z: seq<int>, base: seq<int>)
    requires p.Valid() && p.ss > 0 && |z| == |base| == 64 && ShortCoefs(z)
    requires forall i :: p.ss <= i <= p.se ==> base[i] == 0
    ensures Apply(base, ValueWrites(Shifted(z, p.al), p.ss, p.se), p.al) == Known(z, base, p.ss, p.se, p.al)
  {
    hide Pow2, ToShort, Shift, ValueWrites, Apply;
    var v := Shifted(z, p.al);
    ApplyValues(base, v, p.ss, p.se, p.al);
    var z' := Apply(base, ValueWrites(v, p.ss, p.se), p.al);
    forall i | 0 <= i < 64 ensures z'[i] == Known(z, base, p.ss, p.se, p.al)[i] {
      if p.ss <= i <= p.se {
        TruncatedShort(z[i], p.al);
        assert Truncated(z[i], p.al) == v[i] * Pow2(p.al);
      }
    }
  }

  /** Where the runs of a first scan lead the decoder. */
  lemma FirstRuns(h: HuffTable, ets: seq<EncTable>, p: Progress, z: seq<int>, data: seq<bool>, n: nat)
    requires p.Valid() && p.ss > 0 && p.ah == 0 && |z| == 64 && BandInRange(p, z, p.se + 1)
    requires p.AcT() < |ets| && Matches(h, ets[p.AcT()]) && Decodable(h)
    requires AllCoded(ets, Coding(p, z).head) && Stands(data, n, TokenBits(ets, Coding(p, z).head))
    ensures var v := Shifted(z, p.al);
            var rest := ReadBand(h, data, n + |TokenBits(ets, Coding(p, z).head)|, RunEnd(v, p.ss, p.se), p.se);
            ReadBand(h, data, n, p.ss, p.se) == rest.(writes := ValueWrites(v, p.ss, p.se) + rest.writes)
  {
    hide RunTokens, ReadBand, RunEnd, ValueWrites, Matches, Stands, TokenBits, AllCoded, Shift, SmallValues;
    SmallInBand(p, z);
    RunsRead(h, ets, p.AcT(), Shifted(z, p.al), data, n, p.ss, p.se);
  }

  lemma NothingInBand(p: Progress, z: seq<int>, base: seq<int>)
    requires p.Valid() && p.ss > 0 && p.ah == 0 && |z| == |base| == 64 && Coding(p, z).head == []
    requires forall i :: p.ss <= i <= p.se ==> base[i] == 0
    ensures Known(z, base, p.ss, p.se, p.al) == base && Coding(p, z).tail == []
  {
    hide RunTokens, RunEnd, Pow2, ShiftRight;
    var v := Shifted(z, p.al);
    if RunEnd(v, p.ss, p.se) > p.ss { RunsSent(v, p.AcT(), p.ss, p.se); }
    forall i | p.ss <= i <= p.se ensures Truncated(z[i], p.al) == 0 { assert v[i] == 0; }
  }

  /** First scan: the band is decoded as it was encoded, whether its EOB is its own or came with a run. */
  lemma AcFirstReads(h: HuffTable, ets: seq<EncTable>, p: Progress, z: seq<int>, base: seq<int>, data: seq<bool>, n: nat,
                     e: nat, used: seq<Token>, e': nat)
    requires p.Valid() && p.ss > 0 && p.ah == 0 && |z| == |base| == 64 && ShortCoefs(z) && BandInRange(p, z, p.se + 1)
    requires p.AcT() < |ets| && Matches(h, ets[p.AcT()]) && Decodable(h)
    requires forall i :: p.ss <= i <= p.se ==> base[i] == 0
    requires Consumes(p.AcT(), Coding(p, z), e, used, e') && AllCoded(ets, used) && Stands(data, n, TokenBits(ets, used))
    ensures AcFirstMcu(h, data, n, e, p.ss, p.se, p.al, base)
         == AcOut(n + |TokenBits(ets, used)|, e', Known(z, base, p.ss, p.se, p.al))
  {
    hide ReadBand, ValueWrites, Apply, Matches, Stands, TokenBits, AllCoded, Known, EobTokens, DecodeSymbol, DecodeLength, Peek,
         BandInRange, ShortCoefs, NumBits, Shift, RunTokens, RunEnd;
    var c, t := Coding(p, z), p.AcT();
    FirstWritten(p, z, base);
    assert ValueWrites(Shifted(z, p.al), p.ss, p.se) + [] == ValueWrites(Shifted(z, p.al), p.ss, p.se);
    assert BitTokens([]) == [];
    NoTokens(ets);
    if e > 0 {
      NothingInBand(p, z, base);
    } else if c.eob {
      assert used == c.head + EobTokens(t, e' + 1);
      StandsTokens(ets, data, n, c.head, EobTokens(t, e' + 1));
      FirstRuns(h, ets, p, z, data, n);
      var n1 := n + |TokenBits(ets, c.head)|;
      EobReads(h, ets, t, e' + 1, data, n1);
      ReadsEob(h, data, n1, RunEnd(Shifted(z, p.al), p.ss, p.se), p.se, NumBits(e' + 1) - 1);
    } else {
      FirstRuns(h, ets, p, z, data, n);
      ReadsPastEnd(h, data, n + |TokenBits(ets, c.head)|, RunEnd(Shifted(z, p.al), p.ss, p.se), p.se);
    }
  }

  // ----- Refinement -----

  lemma NothingBlended(z: seq<int>, base: seq<int>, ss: nat, se: nat, al: nat)
    requires |z| == |base| == 64 && forall i :: 0 <= i < 64 && ss <= i <= se ==> base[i] == Truncated(z[i], al + 1)
    ensures Blend(z, base, ss, ss, se, al) == base
    ensures Blend(z, base, ss, se + 1, se, al) == Known(z, base, ss, se, al)
  {
    hide Truncated;
  }

  /** The correction bits after the last coded coefficient. */
  lemma TailReads(ets: seq<EncTable>, p: Progress, z: seq<int>, base: seq<int>, data: seq<bool>, n: nat)
    requires p.Valid() && p.ss > 0 && p.ah != 0 && |z| == |base| == 64 && ShortCoefs(z)
    requires Stands(data, n, TokenBits(ets, BitTokens(Coding(p, z).tail)))
    ensures var e := RefineEnd(Mags(z, p.al), p.ss, p.se);
            && CorrectRest(data, n, e, p.se, p.al, Blend(z, base, p.ss, e, p.se, p.al))
               == (n + |Coding(p, z).tail|, Blend(z, base, p.ss, p.se + 1, p.se, p.al))
            && |TokenBits(ets, BitTokens(Coding(p, z).tail))| == |Coding(p, z).tail|
  {
    hide RefineTokens, RefineEnd, Blend, CorrectRest, Stands, TokenBits, BitTokens, Mags, Corrections, NumZeros, ShortCoefs, BitsStand;
    MagsLength(z, p.al);
    var m := Mags(z, p.al);
    var e := RefineEnd(m, p.ss, p.se);
    CorrectionsSmall(m, e, p.se + 1);
    ReadsBits(ets, data, n, Corrections(m, e, p.se + 1));
    RestReads(z, base, p.ss, e, p.se, p.al, data, n);
  }

  /** The symbols of a band of its own. */
  lemma HeadReads(h: HuffTable, ets: seq<EncTable>, p: Progress, z: seq<int>, base: seq<int>, data: seq<bool>, n: nat)
    requires p.Valid() && p.ss > 0 && p.ah != 0 && |z| == |base| == 64 && ShortCoefs(z)
    requires p.AcT() < |ets| && Matches(h, ets[p.AcT()]) && Decodable(h)
    requires AllCoded(ets, Coding(p, z).head) && Stands(data, n, TokenBits(ets, Coding(p, z).head))
    ensures var e := RefineEnd(Mags(z, p.al), p.ss, p.se);
            ReadsTo(h, data, n, p.ss, n + |TokenBits(ets, Coding(p, z).head)|, e, z, base, p.ss, p.se, p.al)
  {
    hide RefineTokens, RefineEnd, Stands, TokenBits, Mags, Corrections, NumZeros, ShortCoefs, Matches, AllCoded, ReadsTo, Decodable;
    MagsLength(z, p.al);
    RefineReads(h, ets, p.AcT(), z, base, p.ss, p.ss, p.se, p.al, data, n);
  }

  lemma RefineEob(h: HuffTable, data: seq<bool>, n: nat, k: nat, se: nat, al: nat, z: seq<int>, r: nat)
    requires Decodable(h) && k <= se < 64 && |z| == 64 && r < 15 && DecodeSymbol(h, data, n) == r * 16
    ensures var n1 := n + DecodeLength(h.bits, data, n);
            ReadRefine(h, data, n, k, se, al, z) == RefineCode(n1 + r, k, Pow2(r) + Peek(data, n1, r), z)
  {
    hide DecodeSymbol, DecodeLength, Peek;
    DivModUnique(r, 0, 16, r * 16);
  }

  lemma RefineDone(h: HuffTable, data: seq<bool>, n: nat, k: nat, se: nat, al: nat, z: seq<int>)
    requires Decodable(h) && k == se + 1 && se < 64 && |z| == 64
    ensures ReadRefine(h, data, n, k, se, al, z) == RefineCode(n, k, 0, z)
  {
  }

  lemma NothingRefined(p: Progress, z: seq<int>)
    requires p.Valid() && p.ss > 0 && p.ah != 0 && |z| == 64 && Coding(p, z).head == []
    ensures RefineEnd(Mags(z, p.al), p.ss, p.se) == p.ss
  {
    hide RefineTokens, RefineEnd, Mags, Corrections, NumZeros;
    MagsLength(z, p.al);
    var m := Mags(z, p.al);
    if RefineEnd(m, p.ss, p.se) > p.ss { RefinementsSent(m, z, p.AcT(), p.ss, p.se); }
  }

  lemma RefineEobShape(p: Progress, z: seq<int>)
    requires p.Valid() && p.ss > 0 && p.ah != 0 && |z| == 64
    ensures Coding(p, z).eob == (RefineEnd(Mags(z, p.al), p.ss, p.se) <= p.se)
    ensures p.ss <= RefineEnd(Mags(z, p.al), p.ss, p.se) <= p.se + 1
  {
    MagsLength(z, p.al);
  }

  /** A refined block that ends in an EOB run which it begins. */
  lemma EobBlockReads(h: HuffTable, ets: seq<EncTable>, p: Progress, z: seq<int>, base: seq<int>, data: seq<bool>, n: nat,
                      used: seq<Token>, e': nat)
    requires p.Valid() && p.ss > 0 && p.ah != 0 && |z| == |base| == 64 && ShortCoefs(z)
    requires p.AcT() < |ets| && Matches(h, ets[p.AcT()]) && Decodable(h)
    requires forall i :: p.ss <= i <= p.se ==> base[i] == Truncated(z[i], p.ah)
    requires Consumes(p.AcT(), Coding(p, z), 0, used, e') && AllCoded(ets, used) && Stands(data, n, TokenBits(ets, used))
    requires Coding(p, z).eob
    ensures AcRefineMcu(h, data, n, 0, p.ss, p.se, p.al, base)
         == AcOut(n + |TokenBits(ets, used)|, e', Known(z, base, p.ss, p.se, p.al))
  {
    hide Blend, CorrectRest, ReadRefine, Matches, Stands, TokenBits, AllCoded, Known, EobTokens, DecodeSymbol, DecodeLength, Peek,
         ShortCoefs, NumBits, RefineTokens, RefineEnd, Mags, Coding, BitTokens, Truncated;
    var c, t := Coding(p, z), p.AcT();
    var g, n1 := RefineEnd(Mags(z, p.al), p.ss, p.se), n + |TokenBits(ets, c.head)|;
    RefineEobShape(p, z);
    NothingBlended(z, base, p.ss, p.se, p.al);
    StandsTokens(ets, data, n, c.head + EobTokens(t, e' + 1), BitTokens(c.tail));
    StandsTokens(ets, data, n, c.head, EobTokens(t, e' + 1));
    HeadReads(h, ets, p, z, base, data, n);
    EobReads(h, ets, t, e' + 1, data, n1);
    RefineEob(h, data, n1, g, p.se, p.al, Blend(z, base, p.ss, g, p.se, p.al), NumBits(e' + 1) - 1);
    TailReads(ets, p, z, base, data, n1 + |TokenBits(ets, EobTokens(t, e' + 1))|);
  }

  /** A refinement scan takes the band from precision Al+1 to Al. */
  lemma AcRefineReads(h: HuffTable, ets: seq<EncTable>, p: Progress, z: seq<int>, base: seq<int>, data: seq<bool>, n: nat,
                      e: nat, used: seq<Token>, e': nat)
    requires p.Valid() && p.ss > 0 && p.ah != 0 && |z| == |base| == 64 && ShortCoefs(z)
    requires p.AcT() < |ets| && Matches(h, ets[p.AcT()]) && Decodable(h)
    requires forall i :: p.ss <= i <= p.se ==> base[i] == Truncated(z[i], p.ah)
    requires Consumes(p.AcT(), Coding(p, z), e, used, e') && AllCoded(ets, used) && Stands(data, n, TokenBits(ets, used))
    ensures AcRefineMcu(h, data, n, e, p.ss, p.se, p.al, base)
         == AcOut(n + |TokenBits(ets, used)|, e', Known(z, base, p.ss, p.se, p.al))
  {
    hide Blend, CorrectRest, ReadRefine, Matches, Stands, TokenBits, AllCoded, Known, EobTokens, DecodeSymbol, DecodeLength, Peek,
         ShortCoefs, NumBits, RefineTokens, RefineEnd, Mags, Coding, BitTokens, Truncated;
    var c, t := Coding(p, z), p.AcT();
    var g := RefineEnd(Mags(z, p.al), p.ss, p.se);
    RefineEobShape(p, z);
    NothingBlended(z, base, p.ss, p.se, p.al);
    if e > 0 {
      NothingRefined(p, z);
      TailReads(ets, p, z, base, data, n);
    } else if c.eob {
      EobBlockReads(h, ets, p, z, base, data, n, used, e');
    } else {
      HeadReads(h, ets, p, z, base, data, n);
      RefineDone(h, data, n + |TokenBits(ets, c.head)|, g, p.se, p.al, Blend(z, base, p.ss, g, p.se, p.al));
    }
  }

  // ----- DC scans -----

  /** Setting bit `al` of a DC coefficient. */
  function SetBit(c: int, b: nat, al: nat): (c': int) {
    if b != 0 && c / Pow2(al) % 2 == 0 then c + Pow2(al) else c
  }

  /** All tables that the scan uses are present. */
  ghost predicate ProgReadable(p: Progress, hs: seq<HuffTable>) {
    && p.Valid() && |hs| == 2 * NUM_HUFF_TBLS
    && (p.ss > 0 ==> Decodable(hs[p.AcT()]))
    && (p.ss == 0 && p.ah == 0 ==> forall b :: 0 <= b < |p.plan.membership| ==> DcTableAt(p, hs, b))
  }

  ghost predicate DcTableAt(p: Progress, hs: seq<HuffTable>, b: nat)
    requires p.plan.Valid() && |hs| == 2 * NUM_HUFF_TBLS && b < |p.plan.membership|
  {
    DcTable(hs[p.plan.CompOf(b).DcT()])
  }

  /** The position, the predictions and the values after the first `b` blocks of an MCU. */
  datatype DcWalk = DcWalk(n: nat, pred: seq<int>, vals: seq<int>)

  ghost function ReadDcs(p: Progress, hs: seq<HuffTable>, data: seq<bool>, n: nat, pred: seq<int>, b: nat): (w: DcWalk)
    requires ProgReadable(p, hs) && p.ss == 0 && b <= |p.plan.membership| && |pred| == MAX_COMPS_IN_SCAN
    ensures |w.pred| == MAX_COMPS_IN_SCAN && |w.vals| == b && n <= w.n
    decreases b, data
  {
    if b == 0 then DcWalk(n, pred, [])
    else
      var w := ReadDcs(p, hs, data, n, pred, b - 1);
      if p.ah != 0 then DcWalk(w.n + 1, w.pred, w.vals + [BitAt(data, w.n)])
      else
        assert DcTableAt(p, hs, b - 1);
        var ci, (diff, m) := p.plan.Ci(b - 1), ReadDc(hs[p.plan.CompOf(b - 1).DcT()], data, w.n);
        DcWalk(m, w.pred[ci := w.pred[ci] + diff], w.vals + [w.pred[ci] + diff])
  }

  /** What becomes of a DC coefficient. */
  function DcSet(p: Progress, z: seq<int>, v: int): (z': seq<int>)
    requires |z| == 64
    ensures |z'| == 64
  {
    if p.ah == 0 then z[0 := ToShort(v * Pow2(p.al))] else z[0 := SetBit(z[0], if v != 0 then 1 else 0, p.al)]
  }

  // ----- An MCU of any scan -----

  /** Everything the decoding of the next MCU depends on. */
  datatype ProgStart = ProgStart(data: seq<bool>, n: nat, eobrun: nat, pred: seq<int>, skip: bool)

  datatype ProgOut = ProgOut(n: nat, eobrun: nat, pred: seq<int>, zs: seq<seq<int>>)

  predicate Blocks(p: Progress, zs: seq<seq<int>>) { |zs| == |p.plan.membership| && forall z <- zs :: |z| == 64 }

  /** Once a segment has run dry its blocks are left alone; a DC refinement scan goes on reading zeros. */
  ghost function ProgMcu(p: Progress, hs: seq<HuffTable>, s: ProgStart, zs: seq<seq<int>>): (o: ProgOut)
    requires ProgReadable(p, hs) && Blocks(p, zs) && |s.pred| == MAX_COMPS_IN_SCAN
    ensures |o.pred| == MAX_COMPS_IN_SCAN && Blocks(p, o.zs)
  {
    if s.skip && (p.ss > 0 || p.ah == 0) then ProgOut(s.n, s.eobrun, s.pred, zs)
    else if p.ss == 0 then
      var w := ReadDcs(p, hs, s.data, s.n, s.pred, |zs|);
      ProgOut(w.n, s.eobrun, w.pred, seq(|zs|, b requires 0 <= b < |zs| => DcSet(p, zs[b], w.vals[b])))
    else
      var h := hs[p.AcT()];
      var o := if p.ah == 0 then AcFirstMcu(h, s.data, s.n, s.eobrun, p.ss, p.se, p.al, zs[0])
               else AcRefineMcu(h, s.data, s.n, s.eobrun, p.ss, p.se, p.al, zs[0]);
      ProgOut(o.n, o.eobrun, s.pred, [o.z])
  }

  /** What the scan makes of a block: its DC coefficient is set or gains a bit, or its band is replaced. */
  function KnownBlock(p: Progress, z: seq<int>, base: seq<int>): (b: seq<int>)
    requires |z| == |base| == 64
    ensures |b| == 64
  {
    if p.ss > 0 then Known(z, base, p.ss, p.se, p.al)
    else base[0 := if p.ah == 0 then FloorTo(z[0], p.al) else SetBit(base[0], LowBit(z[0], p.al), p.al)]
  }

  /** Bit `al` of the two's complement. */
  function LowBit(c: int, al: nat): (b: nat) { if c / Pow2(al) % 2 != 0 then 1 else 0 }

  /** What an AC scan relies on: a band that is sent for the first time is zero, otherwise it is known to precision Ah. */
  predicate ReadyFor(p: Progress, z: seq<int>, base: seq<int>)
    requires |z| == |base| == 64 && p.se < 64
  {
    p.ss > 0 ==> forall i :: p.ss <= i <= p.se ==> base[i] == if p.ah == 0 then 0 else Truncated(z[i], p.ah)
  }

  lemma FloorShort(c: int, al: nat)
    requires -0x8000 <= c < 0x8000 && al <= 13
    ensures ToShort(FloorTo(c, al)) == FloorTo(c, al)
  {
    hide ToShort;
    Pow2Mono(al, 13);
    Pow2Literals();
    assert Pow2(14) == 2 * Pow2(13);
    FloorAbove(c, al);
    ShortIsShort(FloorTo(c, al));
  }

  /** The floor does not fall below the least short. */
  lemma FloorAbove(c: int, al: nat)
    requires -0x8000 <= c && al <= 15
    ensures -0x8000 <= FloorTo(c, al) <= c
  {
    var p: nat, k: int := Pow2(al), 0 - (Pow2(15 - al) as int);
    Pow2Literals();
    Pow2Add(15 - al, al);
    hide Pow2;
    assert k * p == -0x8000 by { MulNegate(Pow2(15 - al), p); }
    DivAtLeast(c, k, p);
    MulMono(k, c / p, p);
  }

  lemma MulNegate(a: int, b: int)
    ensures (0 - a) * b == -(a * b)
  {
  }

  /** A refinement bit of a DC coefficient. */
  lemma BitRefines(c: int, al: nat)
    ensures SetBit(FloorTo(c, al + 1), LowBit(c, al), al) == FloorTo(c, al)
  {
    var p, q := Pow2(al), c / Pow2(al);
    assert Pow2(al + 1) == 2 * p;
    hide Pow2;
    assert c == q * p + c % p;
    MulDistrib(2 * (q / 2), q % 2, p);
    MulDouble(q / 2, p);
    assert (q % 2) * p == if q % 2 == 0 then 0 else p;
    MulAssoc(2, q / 2, p);
    DivModUnique(q / 2, (q % 2) * p + c % p, 2 * p, c);
    DivModUnique(2 * (q / 2), 0, p, 2 * (q / 2) * p);
  }
}
