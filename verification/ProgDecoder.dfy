/** The progressive decoder object: its four MCU routines, `process_restart`, and what suspension leaves behind. */
module ProgDecoder {
  import opened AcRefine
  import opened BandDecoder
  import opened Bits
  import opened BitInput
  import opened Coefficients
  import opened HuffDecoding
  import opened HuffTables
  import opened McuDecoder
  import opened ProgMeaning
  import opened ProgScan
  import opened RefineDecoder
  import opened RefineTrack
  import opened Restarts
  import opened RunLength
  import opened Scans
  import opened Segments
  import opened SeqDecoder
  import opened SeqScanDecoder
  import opened SeqScanEncoder

  /** The tables of the scan have been derived. */
  ghost predicate ProgReady(p: Progress, hs: seq<HuffTable>, ds: seq<DecTable>) {
    && ProgReadable(p, hs) && |ds| == |hs|
    && (p.ss > 0 ==> Derived(hs[p.AcT()], ds[p.AcT()]))
    && (p.ss == 0 && p.ah == 0 ==> forall b :: 0 <= b < |p.plan.membership| ==> DcDerived(p, hs, ds, b))
  }

  ghost predicate DcDerived(p: Progress, hs: seq<HuffTable>, ds: seq<DecTable>, b: nat)
    requires p.plan.Valid() && |ds| == |hs| == 2 * NUM_HUFF_TBLS && b < |p.plan.membership|
  {
    Derived(hs[p.plan.CompOf(b).DcT()], ds[p.plan.CompOf(b).DcT()])
  }

  // ----- AC first scans -----

  /** `decode_mcu_AC_first` on its block. */
  method DecodeFirst(src: BitSource, h: HuffTable, d: DecTable, block: array<int>, ss: nat, se: nat, al: nat, st: BitState,
                     eobrun: nat, ghost n: nat)
    returns (ok: bool, eobrun': nat, st': BitState)
    requires src.At(st, n) && Derived(h, d) && Decodable(h) && 0 < ss <= se < 64 && al <= 13 && block.Length == 64
    modifies src`unreadMarker, src`insufficient, block
    ensures ok ==>
              var o := AcFirstMcu(h, src.data, n, eobrun, ss, se, al, Zigzag(old(block[..])));
              Zigzag(block[..]) == o.z && eobrun' == o.eobrun && src.At(st', o.n)
              && (src.insufficient && !old(src.insufficient) ==> |src.data| < o.n)
    ensures (ok && src.Kept()) || (!ok && src.Untouched() && !src.Delivered())
    ensures !ok ==>
              AcFirstMcu(h, src.data, n, eobrun, ss, se, al, Zigzag(block[..]))
              == AcFirstMcu(h, src.data, n, eobrun, ss, se, al, Zigzag(old(block[..])))
  {
    hide BitSource.At, BitSource.Delivered, Zigzag, Derived, ReadBand, Apply, Peek, Pow2, Count;
    ok, eobrun', st' := true, eobrun, st;
    if eobrun > 0 {
      eobrun' := eobrun' - 1;
      return;
    }
    ghost var c := ReadBand(h, src.data, n, ss, se);
    var r;
    NoMarkerNoShortage(src, st, n);
    ok, r, st' := DecodeBandInto(src, h, d, st, ss, se, al, block, n);
    if ok && r >= 0 {
      EobSmall(h, src.data, n, ss, se);
      RunPositive(r);
      var run: nat, bits := Pow2(r), 0;
      NoMarkerNoShortage(src, st', c.end);
      if r != 0 {
        ok, bits, st' := src.GetBits(st', r, c.end);
        run := run + bits;
      } else {
        NothingPeeked(src.data, c.end);
      }
      if ok { eobrun' := run - 1; }
      else { FirstAgain(h, src.data, n, ss, se, al, Zigzag(old(block[..]))); }
    }
  }

  lemma {:induction false} EobSmall(h: HuffTable, data: seq<bool>, n: nat, k: nat, se: nat)
    requires h.WellTyped() && Count(h.bits, 16) <= 256 && se < 64
    ensures ReadBand(h, data, n, k, se).eob < 16
    decreases se + 1 - k
  {
  }

  /** A band that has been written once can be written again. */
  lemma FirstAgain(h: HuffTable, data: seq<bool>, n: nat, ss: nat, se: nat, al: nat, z: seq<int>)
    requires h.WellTyped() && Count(h.bits, 16) <= 256 && se < 64 && |z| == 64
    ensures var ws := ReadBand(h, data, n, ss, se).writes;
            Apply(Apply(z, ws, al), ws, al) == Apply(z, ws, al)
  {
    hide Apply, ReadBand;
    var ws := ReadBand(h, data, n, ss, se).writes;
    assert ws + [] == ws;
    Rewrite(z, ws, [], al);
  }

  // ----- DC scans -----

  /** The blocks when the values of the first `b` of them are in. */
  function DcSoFar(p: Progress, zs: seq<seq<int>>, vals: seq<int>, b: nat): (r: seq<seq<int>>)
    requires (forall z <- zs :: |z| == 64) && b <= |vals| <= |zs|
    ensures |r| == |zs| && forall z <- r :: |z| == 64
  {
    seq(|zs|, i requires 0 <= i < |zs| => if i < b then DcSet(p, zs[i], vals[i]) else zs[i])
  }

  /** Setting a DC coefficient, or a bit of it, twice. */
  lemma DcSetTwice(p: Progress, z: seq<int>, v: int)
    requires |z| == 64
    ensures DcSet(p, DcSet(p, z, v), v) == DcSet(p, z, v)
  {
    hide ToShort;
    if p.ah != 0 && v != 0 && z[0] / Pow2(p.al) % 2 == 0 {
      RefineTrackOdd(z[0], p.al);
    }
    if p.ah != 0 { assert DcSet(p, z, v)[0 := DcSet(p, z, v)[0]] == DcSet(p, z, v); }
  }

  lemma RefineTrackOdd(c: int, al: nat)
    requires c / Pow2(al) % 2 == 0
    ensures (c + Pow2(al)) / Pow2(al) % 2 == 1
  {
    hide Pow2;
    OddNeighbours(c, Pow2(al));
  }

  lemma DcAgain(p: Progress, zs: seq<seq<int>>, vals: seq<int>, b: nat)
    requires (forall z <- zs :: |z| == 64) && b <= |vals| == |zs|
    ensures DcSoFar(p, DcSoFar(p, zs, vals, b), vals, |zs|) == DcSoFar(p, zs, vals, |zs|)
  {
    hide DcSet;
    var r, r' := DcSoFar(p, zs, vals, |zs|), DcSoFar(p, DcSoFar(p, zs, vals, b), vals, |zs|);
    forall i | 0 <= i < |zs| ensures r'[i] == r[i] {
      if i < b { DcSetTwice(p, zs[i], vals[i]); }
    }
  }

  /** Reading on does not change what was read. */
  lemma {:induction false} DcsPrefix(p: Progress, hs: seq<HuffTable>, data: seq<bool>, n: nat, pred: seq<int>, b: nat, m: nat)
    requires ProgReadable(p, hs) && p.ss == 0 && b <= m <= |p.plan.membership| && |pred| == MAX_COMPS_IN_SCAN
    ensures ReadDcs(p, hs, data, n, pred, b).n <= ReadDcs(p, hs, data, n, pred, m).n
    ensures ReadDcs(p, hs, data, n, pred, b).vals == ReadDcs(p, hs, data, n, pred, m).vals[..b]
    decreases m
  {
    hide ReadDc, DcTable, ProgReadable;
    if b < m {
      DcsPrefix(p, hs, data, n, pred, b, m - 1);
      DcsStep(p, hs, data, n, pred, m - 1);
      var v, v' := ReadDcs(p, hs, data, n, pred, m - 1).vals, ReadDcs(p, hs, data, n, pred, m).vals;
      assert v'[..b] == v[..b];
    }
  }

  lemma DcsStep(p: Progress, hs: seq<HuffTable>, data: seq<bool>, n: nat, pred: seq<int>, b: nat)
    requires ProgReadable(p, hs) && p.ss == 0 && b < |p.plan.membership| && |pred| == MAX_COMPS_IN_SCAN
    ensures p.plan.Valid()
    ensures var w, w' := ReadDcs(p, hs, data, n, pred, b), ReadDcs(p, hs, data, n, pred, b + 1);
            && w.n <= w'.n && w'.vals == w.vals + [w'.vals[b]]
            && (p.ah != 0 ==> w'.n == w.n + 1 && w'.pred == w.pred && w'.vals[b] == BitAt(data, w.n))
            && (p.ah == 0 ==>
                  && DcTableAt(p, hs, b)
                  && var ci, (diff, m) := p.plan.Ci(b), ReadDc(hs[p.plan.CompOf(b).DcT()], data, w.n);
                     w'.n == m && w'.vals[b] == w.pred[ci] + diff && w'.pred == w.pred[ci := w.pred[ci] + diff])
  {
    hide DcTable, BitAt, DecodeSymbol, DecodeLength, Peek, Extend;
    assert p.ah == 0 ==> DcTableAt(p, hs, b);
  }

  lemma DcBegins(p: Progress, hs: seq<HuffTable>, data: seq<bool>, n: nat, pred: seq<int>, zs: seq<seq<int>>, vals: seq<int>)
    requires ProgReadable(p, hs) && p.ss == 0 && |pred| == MAX_COMPS_IN_SCAN && |vals| == |zs| && forall z <- zs :: |z| == 64
    ensures ReadDcs(p, hs, data, n, pred, 0) == DcWalk(n, pred, []) && DcSoFar(p, zs, vals, 0) == zs
  {
  }

  lemma DcWhole(p: Progress, hs: seq<HuffTable>, s: ProgStart, zs: seq<seq<int>>)
    requires ProgReadable(p, hs) && p.ss == 0 && |s.pred| == MAX_COMPS_IN_SCAN && Blocks(p, zs) && (p.ah != 0 || !s.skip)
    ensures var w := ReadDcs(p, hs, s.data, s.n, s.pred, |zs|);
            ProgMcu(p, hs, s, zs) == ProgOut(w.n, s.eobrun, w.pred, DcSoFar(p, zs, w.vals, |zs|))
  {
    hide ReadDcs, ProgReadable, DcSet;
    var w := ReadDcs(p, hs, s.data, s.n, s.pred, |zs|);
    assert ProgMcu(p, hs, s, zs).zs == DcSoFar(p, zs, w.vals, |zs|);
  }

  lemma DcAttemptHarmless(p: Progress, hs: seq<HuffTable>, s: ProgStart, zs: seq<seq<int>>, b: nat)
    requires ProgReadable(p, hs) && p.ss == 0 && |s.pred| == MAX_COMPS_IN_SCAN && Blocks(p, zs) && (p.ah != 0 || !s.skip) && b <= |zs|
    ensures var r := DcSoFar(p, zs, ReadDcs(p, hs, s.data, s.n, s.pred, |zs|).vals, b);
            Blocks(p, r) && ProgMcu(p, hs, s, r) == ProgMcu(p, hs, s, zs)
  {
    hide ReadDcs, ProgReadable, DcSet, DcSoFar, ProgMcu;
    var w := ReadDcs(p, hs, s.data, s.n, s.pred, |zs|);
    DcAgain(p, zs, w.vals, b);
    DcWhole(p, hs, s, zs);
    DcWhole(p, hs, s, DcSoFar(p, zs, w.vals, b));
  }

  /** The first-stage AC coefficients fit a block; refinement relies on it. */
  ghost predicate Shorts(p: Progress, blocks: seq<array<int>>)
    requires Distinct(blocks)
    reads blocks
  {
    p.ss > 0 && p.ah != 0 ==> forall b :: 0 <= b < |blocks| ==> ShortCoefs(blocks[b][..])
  }

  class PhuffDecoder {
    const p: Progress
    const hs: seq<HuffTable>          // DC tables, then AC tables
    const ds: seq<DecTable>           // what has been derived from them
    const src: BitSource
    var st: BitState                  // bit-reading state at the start of the MCU
    var eobrun: nat                   // EOBRUN: remaining end-of-bands
    var lastDc: seq<int>
    var restartsToGo: nat
    var nextRestartNum: nat
    ghost var n: nat                  // bits of the segment consumed

    ghost predicate Shape()
      reads this`lastDc, this`nextRestartNum, this`restartsToGo
    {
      && ProgReady(p, hs, ds) && |lastDc| == MAX_COMPS_IN_SCAN && nextRestartNum < 8
      && (p.plan.restartInterval > 0 ==> restartsToGo <= p.plan.restartInterval)
    }

    predicate AtRestart()
      reads this`restartsToGo
    {
      p.plan.restartInterval > 0 && restartsToGo == 0
    }

    ghost predicate Valid()
      reads this, src
    {
      Shape() && if AtRestart() then ToMarker(src, st.pos) else src.At(st, n)
    }

    /** What the next MCU will be decoded from. */
    ghost function Next(): (s: ProgStart)
      requires Valid()
      reads this, src
      ensures |s.pred| == MAX_COMPS_IN_SCAN
    {
      if AtRestart() then ProgStart(Unpack(Scan(src.file, src.seg.next).data), 0, 0, NoDc(), false)
      else ProgStart(src.data, n, eobrun, lastDc, src.insufficient)
    }

    /** The segment, the MCUs left in it and the number of the marker after it, as they will be for the next MCU. */
    ghost function Upcoming(): (u: Books)
      requires Valid()
      reads this, src
    {
      if AtRestart() then Books(Scan(src.file, src.seg.next), p.plan.restartInterval, (nextRestartNum + 1) % 8)
      else Books(src.seg, restartsToGo, nextRestartNum)
    }

    constructor (p: Progress, hs: seq<HuffTable>, ds: seq<DecTable>, src: BitSource, pos: nat)
      requires ProgReady(p, hs, ds)
      requires pos <= src.avail <= |src.file| && AreBytes(src.file) && src.unreadMarker == 0 && !src.insufficient
      requires src.seg == Scan(src.file, pos) && src.data == Unpack(src.seg.data)
      ensures Valid() && !AtRestart() && fresh(this) && this.p == p && this.hs == hs && this.ds == ds && this.src == src
      ensures Next() == ProgStart(src.data, 0, 0, NoDc(), false)
      ensures restartsToGo == p.plan.restartInterval && nextRestartNum == 0
    {
      this.p, this.hs, this.ds, this.src := p, hs, ds, src;
      st, lastDc, eobrun, nextRestartNum, n := BitState(pos, 0, 0), NoDc(), 0, 0, 0;
      restartsToGo := p.plan.restartInterval;
      new;
      hide ProgReady, Scan, Unpack;
      ScanByteMarker(src.file, pos);
      StartsSegment(src, pos, 0);
    }

    /** The DC value of block `b` (decode_mcu_DC_first). */
    method DcFirstNth(blocks: seq<array<int>>, b: nat, cur: BitState, pred: seq<int>, ghost zs: seq<seq<int>>, ghost w: DcWalk)
      returns (ok: bool, cur': BitState, pred': seq<int>)
      requires ProgReady(p, hs, ds) && p.ss == 0 && p.ah == 0 && |lastDc| == MAX_COMPS_IN_SCAN
      requires Distinct(blocks) && b < |blocks| == |p.plan.membership| == |zs| && forall z <- zs :: |z| == 64
      requires w == ReadDcs(p, hs, src.data, n, lastDc, |blocks|)
      requires var v := ReadDcs(p, hs, src.data, n, lastDc, b); src.At(cur, v.n) && pred == v.pred
      requires Contents(blocks) == DcSoFar(p, zs, w.vals, b)
      modifies src`unreadMarker, src`insufficient, blocks
      ensures ok ==>
                var v := ReadDcs(p, hs, src.data, n, lastDc, b + 1);
                && src.At(cur', v.n) && pred' == v.pred && Contents(blocks) == DcSoFar(p, zs, w.vals, b + 1)
                && (src.insufficient && !old(src.insufficient) ==> |src.data| < v.n)
      ensures !ok ==> Contents(blocks) == DcSoFar(p, zs, w.vals, b)
      ensures (ok && src.Kept()) || (!ok && src.Untouched() && !src.Delivered())
    {
      hide BitSource.At, BitSource.Delivered, Zigzag, ReadDc, Derived, DcTable, ToShort, Pow2, ReadDcs, DcTableAt, ProgReadable;
      DcsStep(p, hs, src.data, n, lastDc, b);
      DcsPrefix(p, hs, src.data, n, lastDc, b + 1, |blocks|);
      DcTablesAt(p, hs, ds, b);
      var ci, t := p.plan.Ci(b), p.plan.CompOf(b).DcT();
      var s;
      pred' := pred;
      ok, s, cur' := DecodeDc(src, hs[t], ds[t], cur, ReadDcs(p, hs, src.data, n, lastDc, b).n);
      if !ok { return; }
      s := s + pred[ci];
      pred' := pred[ci := s];
      PutDc(p, blocks, b, ToShort(s * Pow2(p.al)), zs, w.vals);
    }

    lemma DcCompleted(blocks: seq<array<int>>, s: ProgStart, zs: seq<seq<int>>)
      requires ProgReadable(p, hs) && p.ss == 0 && |s.pred| == MAX_COMPS_IN_SCAN && Blocks(p, zs) && (p.ah != 0 || !s.skip)
      requires Distinct(blocks) && s.data == src.data && s.eobrun == eobrun && src.At(st, n)
      requires var w := ReadDcs(p, hs, s.data, s.n, s.pred, |zs|);
               && Contents(blocks) == DcSoFar(p, zs, w.vals, |zs|) && n == w.n && lastDc == w.pred
               && (src.insufficient && !s.skip ==> |src.data| < w.n)
      ensures Steps(true, blocks, zs, s)
    {
      hide ReadDcs, ProgReadable, DcSoFar, ProgMcu, Contents, Blocks, Distinct, BitSource.At;
      DcWhole(p, hs, s, zs);
    }

    lemma DcStopped(blocks: seq<array<int>>, s: ProgStart, zs: seq<seq<int>>, b: nat)
      requires ProgReadable(p, hs) && p.ss == 0 && |s.pred| == MAX_COMPS_IN_SCAN && Blocks(p, zs) && (p.ah != 0 || !s.skip)
      requires Distinct(blocks) && s.data == src.data && b <= |zs|
      requires Contents(blocks) == DcSoFar(p, zs, ReadDcs(p, hs, s.data, s.n, s.pred, |zs|).vals, b)
      ensures Steps(false, blocks, zs, s)
    {
      hide ReadDcs, ProgReadable, DcSoFar, ProgMcu, Contents, Blocks, Distinct, BitSource.At;
      DcAttemptHarmless(p, hs, s, zs, b);
    }

    /** `decode_mcu_DC_first`. */
    method DecodeDcFirst(blocks: seq<array<int>>) returns (ok: bool)
      requires Shape() && p.ss == 0 && p.ah == 0 && src.At(st, n) && !src.insufficient
      requires Distinct(blocks) && |blocks| == |p.plan.membership|
      modifies this`st, this`lastDc, this`n, src`unreadMarker, src`insufficient, blocks
      ensures Steps(ok, blocks, old(Contents(blocks)), ProgStart(src.data, old(n), eobrun, old(lastDc), false))
      ensures !ok ==> src.Untouched() && !src.Delivered() && st == old(st) && n == old(n) && lastDc == old(lastDc)
    {
      hide BitSource.At, BitSource.Delivered, Contents, ReadDcs, ProgReadable, ProgReady, DcSoFar, Blocks, Steps, Distinct;
      ReadyShape(p, hs, ds);
      ghost var s, zs := ProgStart(src.data, n, eobrun, lastDc, false), Contents(blocks);
      ghost var w := ReadDcs(p, hs, src.data, n, lastDc, |blocks|);
      BlocksShape(p, zs);
      DcBegins(p, hs, src.data, n, lastDc, zs, w.vals);
      NoMarkerNoShortage(src, st, n);
      var cur, pred, b: nat := st, lastDc, 0;
      while b < |p.plan.membership|
        modifies src`unreadMarker, src`insufficient, blocks
        invariant 0 <= b <= |blocks| && src.At(cur, ReadDcs(p, hs, src.data, n, lastDc, b).n)
        invariant pred == ReadDcs(p, hs, src.data, n, lastDc, b).pred && Contents(blocks) == DcSoFar(p, zs, w.vals, b)
        invariant src.insufficient ==> |src.data| < ReadDcs(p, hs, src.data, n, lastDc, b).n
        invariant src.Kept()
      {
        NoMarkerNoShortage(src, cur, ReadDcs(p, hs, src.data, n, lastDc, b).n);
        ok, cur, pred := DcFirstNth(blocks, b, cur, pred, zs, w);
        if !ok {
          DcStopped(blocks, s, zs, b);
          return;
        }
        DcsPrefix(p, hs, src.data, n, lastDc, b, b + 1);
        b := b + 1;
      }
      st, lastDc, n, ok := cur, pred, w.n, true;
      DcCompleted(blocks, s, zs);
    }

    /** `decode_mcu_DC_refine`.  It does not stop at an exhausted segment. */
    method DecodeDcRefine(blocks: seq<array<int>>) returns (ok: bool)
      requires Shape() && p.ss == 0 && p.ah != 0 && src.At(st, n) && Distinct(blocks) && |blocks| == |p.plan.membership|
      modifies this`st, this`n, src`unreadMarker, src`insufficient, blocks
      ensures Steps(ok, blocks, old(Contents(blocks)), ProgStart(src.data, old(n), eobrun, lastDc, old(src.insufficient)))
      ensures !ok ==> src.Untouched() && !src.Delivered() && st == old(st) && n == old(n)
      ensures old(src.insufficient) ==> src.insufficient
    {
      hide BitSource.At, BitSource.Delivered, Contents, ReadDcs, ProgReadable, ProgReady, DcSoFar, Blocks, Steps, BitAt, Distinct;
      ReadyShape(p, hs, ds);
      ghost var s, zs := ProgStart(src.data, n, eobrun, lastDc, src.insufficient), Contents(blocks);
      ghost var w := ReadDcs(p, hs, src.data, n, lastDc, |blocks|);
      BlocksShape(p, zs);
      DcBegins(p, hs, src.data, n, lastDc, zs, w.vals);
      NoMarkerNoShortage(src, st, n);
      var cur, b: nat := st, 0;
      while b < |p.plan.membership|
        modifies src`unreadMarker, src`insufficient, blocks
        invariant 0 <= b <= |blocks|
        invariant src.At(cur, ReadDcs(p, hs, src.data, n, lastDc, b).n) && Contents(blocks) == DcSoFar(p, zs, w.vals, b)
        invariant ReadDcs(p, hs, src.data, n, lastDc, b).pred == lastDc
        invariant src.insufficient && !s.skip ==> |src.data| < ReadDcs(p, hs, src.data, n, lastDc, b).n
        invariant src.Kept()
      {
        DcsStep(p, hs, src.data, n, lastDc, b);
        DcsPrefix(p, hs, src.data, n, lastDc, b + 1, |blocks|);
        NoMarkerNoShortage(src, cur, ReadDcs(p, hs, src.data, n, lastDc, b).n);
        ok, cur := RefineDc(src, p, blocks, b, cur, zs, w.vals, ReadDcs(p, hs, src.data, n, lastDc, b).n);
        if !ok {
          DcStopped(blocks, s, zs, b);
          return;
        }
        b := b + 1;
      }
      st, n, ok := cur, w.n, true;
      DcCompleted(blocks, s, zs);
    }

    /** `decode_mcu_AC_first` and `decode_mcu_AC_refine`, with the loading and saving of the working state. */
    method DecodeAc(blocks: seq<array<int>>) returns (ok: bool)
      requires Shape() && p.ss > 0 && src.At(st, n) && !src.insufficient && Distinct(blocks) && |blocks| == |p.plan.membership|
      requires Shorts(p, blocks)
      modifies this`st, this`n, this`eobrun, src`unreadMarker, src`insufficient, blocks
      ensures Shorts(p, blocks)
      ensures Steps(ok, blocks, old(Contents(blocks)), ProgStart(src.data, old(n), old(eobrun), lastDc, false))
      ensures !ok ==> src.Untouched() && !src.Delivered() && st == old(st) && n == old(n) && eobrun == old(eobrun)
    {
      hide BitSource.At, BitSource.Delivered, Derived, Decodable, Zigzag, AcFirstMcu, AcRefineMcu, ShortCoefs;
      AcTablesAt(p, hs, ds);
      OneArray(p, blocks);
      var h, d, block := hs[p.AcT()], ds[p.AcT()], blocks[0];
      ghost var s, z := ProgStart(src.data, n, eobrun, lastDc, false), Zigzag(block[..]);
      var e, st';
      if p.ah == 0 {
        ok, e, st' := DecodeFirst(src, h, d, block, p.ss, p.se, p.al, st, eobrun, n);
      } else {
        ok, e, st' := DecodeRefined(src, h, d, block, p.ss, p.se, p.al, st, eobrun, n);
      }
      assert Contents(blocks) == [Zigzag(block[..])];
      if ok {
        n := if p.ah == 0 then AcFirstMcu(h, src.data, n, eobrun, p.ss, p.se, p.al, z).n
             else AcRefineMcu(h, src.data, n, eobrun, p.ss, p.se, p.al, z).n;
        st, eobrun := st', e;
      }
    }

    /** Looks for the restart marker; the EOB run does not outlive it. */
    method ProcessRestart() returns (o: RestartOutcome)
      requires Valid() && AtRestart()
      modifies this`st, this`n, this`eobrun, this`lastDc, this`restartsToGo, this`nextRestartNum,
               src`unreadMarker, src`insufficient, src`seg, src`data
      ensures o.RestartSuspended? ==> Valid() && AtRestart() && Next() == old(Next()) && src.seg == old(src.seg)
                                      && Upcoming() == old(Upcoming()) && !src.Delivered()
                                      && nextRestartNum == old(nextRestartNum)
      ensures o.RestartMissing? ==> old(src.seg.marker) != RST0 + old(nextRestartNum)
      ensures o.RestartRead? ==> old(src.seg.marker) == RST0 + old(nextRestartNum)
                                 && Valid() && !AtRestart() && Next() == old(Next()) && Upcoming() == old(Upcoming())
    {
      hide Scan, Unpack, ProgReady, ToMarker, BitSource.At, BitSource.Delivered;
      var pos';
      st := st.(left := 0);
      o, pos' := ReadRestartMarker(src, st.pos, nextRestartNum);
      st := st.(pos := pos');
      if o.RestartRead? {
        n, lastDc, eobrun, restartsToGo := 0, NoDc(), 0, p.plan.restartInterval;
        nextRestartNum := (nextRestartNum + 1) % 8;
        assert src.At(BitState(pos', st.buf, 0), 0);
      }
    }

    /** restarts_to_go is an unsigned int; without restarts it merely runs down. */
    method CountMcu()
      modifies this`restartsToGo
      ensures restartsToGo == (old(restartsToGo) - 1) % 0x1_0000_0000
    {
      restartsToGo := (restartsToGo - 1) % 0x1_0000_0000;
    }

    /** Accounts for an MCU of the restart interval. */
    method FinishMcu()
      requires Shape() && !AtRestart() && src.At(st, n)
      modifies this`restartsToGo
      ensures Valid() && Books(src.seg, restartsToGo, nextRestartNum) == CountedDown(Books(src.seg, old(restartsToGo), nextRestartNum))
      ensures !AtRestart() ==> Next() == ProgStart(src.data, n, eobrun, lastDc, src.insufficient)
    {
      hide ProgReady, BitSource.At, Scan, Unpack, ToMarker;
      AtToMarker(src, st, n);
      CountMcu();
    }

    /** More input arrives while the decoder is suspended. */
    method Supply(more: nat)
      requires Valid()
      modifies src`avail
      ensures Valid() && Next() == old(Next()) && Upcoming() == old(Upcoming())
      ensures src.avail == if old(src.avail) + more <= |src.file| then old(src.avail) + more else |src.file|
    {
      hide ProgReady, Holds, Follows, Scan;
      FileBound();
      src.Deliver(more);
    }

    lemma FileBound()
      requires Valid()
      ensures src.avail <= |src.file|
    {
    }

    lemma IsReadable()
      requires Valid()
      ensures ProgReadable(p, hs) && p.Valid() && p.plan.Valid() && |lastDc| == MAX_COMPS_IN_SCAN
    {
      ReadyShape(p, hs, ds);
    }

    /** The routine of the scan's mode. */
    method DecodeByMode(blocks: seq<array<int>>) returns (ok: bool)
      requires Shape() && src.At(st, n) && (src.insufficient ==> p.ss == 0 && p.ah != 0)
      requires Distinct(blocks) && |blocks| == |p.plan.membership| && Shorts(p, blocks)
      modifies this`st, this`n, this`eobrun, this`lastDc, src`unreadMarker, src`insufficient, blocks
      ensures Shorts(p, blocks)
      ensures Steps(ok, blocks, old(Contents(blocks)), ProgStart(src.data, old(n), old(eobrun), old(lastDc), old(src.insufficient)))
      ensures !ok ==> src.Untouched() && !src.Delivered() && st == old(st) && n == old(n) && eobrun == old(eobrun) && lastDc == old(lastDc)
      ensures old(src.insufficient) ==> src.insufficient
    {
      hide BitSource.At, BitSource.Delivered, Steps, Shape, Distinct, Contents;
      match p.Mode()
      case DcFirst => ok := DecodeDcFirst(blocks);
      case DcRefine => ok := DecodeDcRefine(blocks);
      case AcFirst => ok := DecodeAc(blocks);
      case AcRefine => ok := DecodeAc(blocks);
    }

    /** The part of the routines after the restart processing. */
    method DecodeHere(blocks: seq<array<int>>) returns (o: McuOutcome)
      requires Valid() && !AtRestart() && Distinct(blocks) && |blocks| == |p.plan.membership| && Shorts(p, blocks)
      modifies this`st, this`n, this`eobrun, this`lastDc, this`restartsToGo, src`unreadMarker, src`insufficient, blocks
      ensures ProgReadable(p, hs) && Shorts(p, blocks) && !o.NeedsResync? && (old(src.insufficient) ==> src.insufficient)
      ensures Blocks(p, old(Contents(blocks))) && Blocks(p, Contents(blocks))
      ensures o.Suspended? ==>
                && Valid() && !AtRestart() && Next() == old(Next()) && Upcoming() == old(Upcoming()) && !src.Delivered()
                && ProgMcu(p, hs, Next(), Contents(blocks)) == ProgMcu(p, hs, Next(), old(Contents(blocks)))
      ensures o.Decoded? ==>
                var s := old(Next());
                var r := ProgMcu(p, hs, s, old(Contents(blocks)));
                && Valid() && Contents(blocks) == r.zs
                && Books(src.seg, restartsToGo, nextRestartNum) == CountedDown(old(Upcoming()))
                && (!AtRestart() ==>
                      && Next() == ProgStart(s.data, r.n, r.eobrun, r.pred, src.insufficient)
                      && (src.insufficient ==> s.skip || |s.data| < r.n))
    {
      hide ProgReady, BitSource.At, BitSource.Delivered, Contents, ToMarker, Distinct, Shorts, ProgReadable, ReadDcs, AcFirstMcu,
           AcRefineMcu;
      IsReadable();
      ContentsShape(p, blocks);
      if src.insufficient && (p.ss > 0 || p.ah == 0) {
        FinishMcu();
        return Decoded;
      }
      ghost var zs := Contents(blocks);
      var ok := DecodeByMode(blocks);
      ContentsShape(p, blocks);
      if !ok { return Suspended; }
      FinishMcu();
      return Decoded;
    }

    /**
     The MCU routine.  Suspended, it leaves everything the next attempt depends on as it was, and the blocks in a state
     from which that attempt arrives at the same result; so the result never depends on how the input was divided.
     */
    method DecodeMcu(blocks: seq<array<int>>) returns (o: McuOutcome)
      requires Valid() && Distinct(blocks) && |blocks| == |p.plan.membership| && Shorts(p, blocks)
      modifies this`st, this`n, this`eobrun, this`lastDc, this`restartsToGo, this`nextRestartNum,
               src`unreadMarker, src`insufficient, src`seg, src`data, blocks
      ensures ProgReadable(p, hs) && Shorts(p, blocks)
      ensures Blocks(p, old(Contents(blocks))) && Blocks(p, Contents(blocks))
      ensures o.NeedsResync? ==> old(AtRestart()) && old(src.seg.marker) != RST0 + old(nextRestartNum)
                                 && Contents(blocks) == old(Contents(blocks))
      ensures old(AtRestart()) && (o.Decoded? || (o.Suspended? && !AtRestart())) ==> old(src.seg.marker) == RST0 + old(nextRestartNum)
      ensures !old(AtRestart()) && old(src.insufficient) ==> src.insufficient
      ensures o.Suspended? && AtRestart() ==>
                && old(AtRestart()) && src.seg == old(src.seg) && nextRestartNum == old(nextRestartNum)
                && Contents(blocks) == old(Contents(blocks))
      ensures o.Suspended? ==>
                && Valid() && Next() == old(Next()) && Upcoming() == old(Upcoming()) && !src.Delivered()
                && ProgMcu(p, hs, Next(), Contents(blocks)) == ProgMcu(p, hs, Next(), old(Contents(blocks)))
      ensures o.Decoded? ==>
                var s := old(Next());
                var r := ProgMcu(p, hs, s, old(Contents(blocks)));
                && Valid() && Contents(blocks) == r.zs
                && Books(src.seg, restartsToGo, nextRestartNum) == CountedDown(old(Upcoming()))
                && (!AtRestart() ==>
                      && Next() == ProgStart(s.data, r.n, r.eobrun, r.pred, src.insufficient)
                      && (src.insufficient ==> s.skip || |s.data| < r.n))
    {
      hide Shape, Valid, Next, Upcoming, BitSource.Delivered, Contents, ProgMcu, ProgReadable, Shorts, Distinct;
      IsReadable();
      ContentsShape(p, blocks);
      if AtRestart() {
        var r := ProcessRestart();
        if r.RestartSuspended? { return Suspended; }
        if r.RestartMissing? { return NeedsResync; }
      }
      o := DecodeHere(blocks);
    }

    /** What one of the four routines does to state and blocks, if it completes and if it does not. */
    ghost predicate Steps(ok: bool, blocks: seq<array<int>>, zs: seq<seq<int>>, s: ProgStart)
      requires Distinct(blocks)
      reads this, src, blocks
    {
      && ProgReadable(p, hs) && Blocks(p, zs) && |s.pred| == MAX_COMPS_IN_SCAN && s.data == src.data
      && var o := ProgMcu(p, hs, s, zs);
         if ok then
           && Contents(blocks) == o.zs && n == o.n && eobrun == o.eobrun && lastDc == o.pred && src.At(st, n)
           && (src.insufficient && !s.skip ==> |src.data| < n)
         else
           Blocks(p, Contents(blocks)) && ProgMcu(p, hs, s, Contents(blocks)) == o
    }
  }

  /** The next bit of a DC coefficient; storing it with |= makes a repetition harmless. */
  method RefineDc(src: BitSource, p: Progress, blocks: seq<array<int>>, b: nat, cur: BitState, ghost zs: seq<seq<int>>,
                  ghost vals: seq<int>, ghost m: nat)
    returns (ok: bool, cur': BitState)
    requires src.At(cur, m) && p.ah != 0 && Distinct(blocks) && b < |blocks| == |zs| == |vals| && forall z <- zs :: |z| == 64
    requires Contents(blocks) == DcSoFar(p, zs, vals, b) && vals[b] == BitAt(src.data, m)
    modifies src`unreadMarker, src`insufficient, blocks
    ensures ok ==> src.At(cur', m + 1) && Contents(blocks) == DcSoFar(p, zs, vals, b + 1)
                   && (src.insufficient && !old(src.insufficient) ==> |src.data| < m + 1)
    ensures !ok ==> Contents(blocks) == DcSoFar(p, zs, vals, b)
    ensures (ok && src.Kept()) || (!ok && src.Untouched() && !src.Delivered())
  {
    hide BitSource.At, BitSource.Delivered, Contents, DcSoFar, DcSet, BitAt, Peek, SetBit;
    var bit;
    ok, bit, cur' := src.GetBits(cur, 1, m);
    if !ok { return; }
    PeekBit(src.data, m);
    DcThere(zs, vals, b, p, blocks);
    assert vals[b] == bit;
    if bit != 0 {
      PutDc(p, blocks, b, SetBit(blocks[b][0], 1, p.al), zs, vals);
    } else {
      PutDc(p, blocks, b, blocks[b][0], zs, vals);
    }
  }

  lemma DcThere(zs: seq<seq<int>>, vals: seq<int>, b: nat, p: Progress, blocks: seq<array<int>>)
    requires Distinct(blocks) && b < |blocks| == |zs| == |vals| && (forall z <- zs :: |z| == 64)
    requires Contents(blocks) == DcSoFar(p, zs, vals, b)
    ensures p.ah != 0 ==> DcSet(p, zs[b], 0)[0] == blocks[b][0] && DcSet(p, zs[b], 1)[0] == SetBit(blocks[b][0], 1, p.al)
  {
    hide Zigzag, ToShort, Pow2;
    assert Contents(blocks)[b] == zs[b];
    FirstCoef(blocks[b][..]);
  }

  lemma ContentsShape(p: Progress, blocks: seq<array<int>>)
    requires Distinct(blocks) && |blocks| == |p.plan.membership|
    ensures Blocks(p, Contents(blocks))
  {
    hide Zigzag;
    BlocksShape(p, Contents(blocks));
  }

  lemma AcTablesAt(p: Progress, hs: seq<HuffTable>, ds: seq<DecTable>)
    requires ProgReady(p, hs, ds) && p.ss > 0
    ensures p.Valid() && |hs| == |ds| == 2 * NUM_HUFF_TBLS && p.ss <= p.se < 64 && p.al <= 13
    ensures Decodable(hs[p.AcT()]) && Derived(hs[p.AcT()], ds[p.AcT()])
  {
  }

  lemma OneArray(p: Progress, blocks: seq<array<int>>)
    requires p.Valid() && p.ss > 0 && Distinct(blocks) && |blocks| == |p.plan.membership|
    ensures |blocks| == 1 && blocks == [blocks[0]] && blocks[0].Length == 64 && Contents(blocks) == [Zigzag(blocks[0][..])]
  {
  }

  lemma ReadyShape(p: Progress, hs: seq<HuffTable>, ds: seq<DecTable>)
    requires ProgReady(p, hs, ds)
    ensures ProgReadable(p, hs) && p.Valid() && p.plan.Valid() && |hs| == |ds| == 2 * NUM_HUFF_TBLS
  {
  }

  lemma BlocksShape(p: Progress, zs: seq<seq<int>>)
    requires |zs| == |p.plan.membership| && forall b :: 0 <= b < |zs| ==> |zs[b]| == 64
    ensures Blocks(p, zs) && forall z <- zs :: |z| == 64
  {
  }

  lemma DcTablesAt(p: Progress, hs: seq<HuffTable>, ds: seq<DecTable>, b: nat)
    requires ProgReady(p, hs, ds) && p.ss == 0 && p.ah == 0 && b < |p.plan.membership|
    ensures p.plan.Valid() && |hs| == |ds| == 2 * NUM_HUFF_TBLS
    ensures var t := p.plan.CompOf(b).DcT(); DcTable(hs[t]) && Derived(hs[t], ds[t])
  {
    assert DcTableAt(p, hs, b) && DcDerived(p, hs, ds, b);
  }

  /** Stores a DC coefficient. */
  method PutDc(p: Progress, blocks: seq<array<int>>, b: nat, v: int, ghost zs: seq<seq<int>>, ghost vals: seq<int>)
    requires Distinct(blocks) && b < |blocks| == |zs| == |vals| && forall z <- zs :: |z| == 64
    requires Contents(blocks) == DcSoFar(p, zs, vals, b) && v == DcSet(p, zs[b], vals[b])[0]
    modifies blocks
    ensures Contents(blocks) == DcSoFar(p, zs, vals, b + 1)
  {
    hide Zigzag, DcSet;
    ghost var was := blocks[b][..];
    ghost var all := Contents(blocks);
    ZigzagDc(was, v);
    DcSetDc(p, zs[b], vals[b]);
    blocks[b][0] := v;
    assert blocks[b][..] == was[0 := v];
    forall i | 0 <= i < |blocks| ensures Contents(blocks)[i] == DcSoFar(p, zs, vals, b + 1)[i] {
      if i != b { assert Contents(blocks)[i] == all[i]; }
      else { assert all[b] == DcSoFar(p, zs, vals, b)[b] == zs[b]; }
    }
  }

  lemma DcSetDc(p: Progress, z: seq<int>, v: int)
    requires |z| == 64
    ensures DcSet(p, z, v) == z[0 := DcSet(p, z, v)[0]]
  {
  }
}
