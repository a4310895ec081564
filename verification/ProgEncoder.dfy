/** The progressive encoder (`jcphuff.c`), in its output and its statistics-gathering form. */
module ProgEncoder {
  import opened AcRefine
  import opened BitOutput
  import opened Bits
  import opened Coefficients
  import opened EobRuns
  import opened HuffTables
  import opened ProgScan
  import opened RefineGroups
  import opened RunLength
  import opened Scans
  import opened SeqEncoder
  import opened SeqScanEncoder
  import opened Statistics
  import opened TokenOutput
  import opened Tokens
  import Seqs

  // ----- Runs, seen from the encoder -----

  /** A band has been added to the state, before a full run is forced out. */
  function Started(s: RunState, c: BandCoding): (s': RunState) {
    if c.head == [] then RunState(s.chunks, s.run + [c])
    else if c.eob then RunState(Flush(s).chunks, [c])
    else RunState(Flush(s).chunks + [Plain(c)], [])
  }

  lemma AbsorbIsStarted(s: RunState, c: BandCoding)
    ensures Absorb(s, c) == if c.eob && MustFlush(Started(s, c)) then Flush(Started(s, c))
                            else if c.head == [] && MustFlush(Started(s, c)) then Flush(Started(s, c)) else Started(s, c)
  {
    hide Tails;
    assert [] + [c] == [c];
  }

  /** The output after a band: its tokens follow what was there, behind any run that had to go first. */
  lemma StartedEmits(t: nat, s: RunState, c: BandCoding)
    ensures Emitted(t, Started(s, c)) == if c.head == [] then Emitted(t, s) else Emitted(t, Flush(s)) + c.head
  {
    hide ChunkTokens;
    var f := Flush(s);
    assert ChunksTokens(t, f.chunks) + [] == ChunksTokens(t, f.chunks);
    if c.head == [] {
      assert s.run != [] ==> (s.run + [c])[0] == s.run[0];
    } else if !c.eob {
      ChunksSnoc(t, f.chunks, Plain(c));
      PlainTokens(t, c);
      assert ChunksTokens(t, f.chunks + [Plain(c)]) + [] == ChunksTokens(t, f.chunks + [Plain(c)]);
    }
  }

  lemma PlainTokens(t: nat, c: BandCoding)
    ensures ChunkTokens(t, Plain(c)) == c.head
  {
  }

  lemma EmittedPrefix(t: nat, s: RunState)
    ensures Emitted(t, s) <= Emitted(t, Flush(s)) && Flush(Flush(s)) == Flush(s)
  {
    if s.run != [] { FlushEmits(t, s); }
  }

  lemma EarlierCoded(ets: seq<EncTable>, a: seq<Token>, b: seq<Token>)
    requires a <= b && AllCoded(ets, b)
    ensures AllCoded(ets, a)
  {
    hide HasCode;
    forall tok | tok in a ensures HasCode(ets, tok) { assert tok in b; }
  }

  /** If all tokens that a band brings about have codes, so have its own and those that had to go before or after it. */
  lemma PartsCoded(ets: seq<EncTable>, t: nat, s: RunState, c: BandCoding)
    requires c.Good() && AllCoded(ets, Emitted(t, Absorb(s, c)))
    ensures c.eob && MustFlush(Started(s, c)) ==> AllCoded(ets, Emitted(t, Flush(Started(s, c))))
    ensures c.head != [] ==> AllCoded(ets, Emitted(t, Flush(s))) && AllCoded(ets, c.head)
  {
    hide Emitted, AllCoded, Flush, Started, Absorb, MustFlush, BandCoding.Good;
    AbsorbIsStarted(s, c);
    EmittedPrefix(t, Started(s, c));
    StartedEmits(t, s, c);
    if c.head != [] {
      EarlierCoded(ets, Emitted(t, Started(s, c)), Emitted(t, Absorb(s, c)));
      BothCoded(ets, Emitted(t, Flush(s)), c.head);
    }
  }

  /** The output only grows. */
  lemma AbsorbExtends(t: nat, s: RunState, c: BandCoding)
    requires c.Good()
    ensures Emitted(t, s) <= Emitted(t, Absorb(s, c))
  {
    hide Emitted, Flush, Started, Absorb, MustFlush, BandCoding.Good;
    AbsorbIsStarted(s, c);
    EmittedPrefix(t, Started(s, c));
    EmittedPrefix(t, s);
    StartedEmits(t, s, c);
    Seqs.ConcatPrefix(Emitted(t, Flush(s)), c.head);
    Seqs.PrefixTrans(Emitted(t, s), Emitted(t, Started(s, c)), Emitted(t, Absorb(s, c)));
  }

  /** The tokens of the finished restart intervals. */
  ghost predicate WholeSegs(p: Progress, toks: seq<seq<Token>>, segs: seq<seq<Mcu>>)
    requires p.Valid()
  {
    && |toks| == |segs|
    && forall i :: 0 <= i < |segs| ==> GoodMcus(p.plan, segs[i]) && toks[i] == Whole(p, segs[i])
  }

  lemma SameCount(p: Progress, toks: seq<seq<Token>>, segs: seq<seq<Mcu>>)
    requires p.Valid() && WholeSegs(p, toks, segs)
    ensures |toks| == |segs|
  {
  }

  lemma WholeSegsSnoc(p: Progress, toks: seq<seq<Token>>, segs: seq<seq<Mcu>>, seg: seq<Mcu>)
    requires p.Valid() && WholeSegs(p, toks, segs) && GoodMcus(p.plan, seg)
    ensures WholeSegs(p, toks + [Whole(p, seg)], segs + [seg])
  {
    hide Whole, GoodMcus;
  }

  /** A restart marker goes before the next MCU. */
  predicate RestartDue(ri: nat, cur: seq<Mcu>) { ri > 0 && |cur| == ri }

  function SegsBefore(ri: nat, segs: seq<seq<Mcu>>, cur: seq<Mcu>): (r: seq<seq<Mcu>>) {
    if RestartDue(ri, cur) then segs + [cur] else segs
  }

  function CurBefore(ri: nat, cur: seq<Mcu>): (r: seq<Mcu>) { if RestartDue(ri, cur) then [] else cur }

  /** The counters before an MCU: after a restart marker they are yet to be reset. */
  ghost predicate McuDue(ri: nat, segs: seq<seq<Mcu>>, cur: seq<Mcu>, toGo: nat, num: nat) {
    && Intervals(ri, segs, cur)
    && (ri > 0 ==>
          && |cur| < ri
          && if toGo == 0 then cur == [] && segs != [] && num == (|segs| - 1) % 8 else toGo + |cur| == ri && num == |segs| % 8)
  }

  lemma LongerInterval(ri: nat, segs: seq<seq<Mcu>>, cur: seq<Mcu>)
    requires cur != [] && Intervals(ri, segs, cur[..|cur| - 1]) && (ri > 0 ==> |cur| <= ri)
    ensures Intervals(ri, segs, cur)
  {
  }

  lemma NextNum(n: nat)
    requires n > 0
    ensures ((n - 1) % 8 + 1) % 8 == n % 8
  {
  }

  class PhuffEncoder {
    const p: Progress
    const sink: TokenSink
    const bitBuffer: array<nat>       // correction bits that wait for the EOB symbol, then those of the current block
    var lastDc: seq<int>
    var eobrun: nat
    var be: nat
    var restartsToGo: nat
    var nextRestartNum: nat
    ghost var segs: seq<seq<Mcu>>
    ghost var cur: seq<Mcu>

    ghost predicate Shape()
      reads this`lastDc, sink, sink.w, sink.counts
    {
      && p.Valid() && sink.Valid() && bitBuffer.Length == MAX_CORR_BITS && bitBuffer !in sink.counts
      && |lastDc| == MAX_COMPS_IN_SCAN
    }

    /** The counters and the buffer stand for the pending run of `s`, and the rest of `s` has been emitted. */
    ghost predicate Holds(s: RunState)
      requires p.Valid() && p.ss > 0
      reads this`eobrun, this`be, sink`toks, bitBuffer
    {
      Waiting(s.run) && sink.toks == Emitted(p.AcT(), s)
    }

    /** The current restart interval has been coded as far as its MCUs go. */
    ghost predicate Standing()
      requires p.Valid()
      reads this`cur, this`lastDc, this`eobrun, this`be, sink`toks, bitBuffer
    {
      && GoodMcus(p.plan, cur)
      && if p.ss == 0 then
           sink.toks == DcTokensAll(p, cur) && lastDc == DcPredsAll(p, cur) && eobrun == 0 && be == 0
         else Holds(AbsorbAll(Codings(p, cur)))
    }

    ghost predicate Finished()
      requires p.Valid()
      reads this`segs, sink`segs
    {
      WholeSegs(p, sink.segs, segs)
    }

    ghost predicate Valid()
      reads this, sink, sink.w, sink.counts, bitBuffer
    {
      && Shape() && Standing() && Finished() && Intervals(p.plan.restartInterval, segs, cur)
      && (p.plan.restartInterval > 0 ==>
            restartsToGo + |cur| == p.plan.restartInterval && nextRestartNum == |segs| % 8)
    }

    /** `start_pass_phuff`. */
    constructor (p: Progress, gather: bool, ets: seq<EncTable>)
      requires p.Valid() && |ets| == 2 * NUM_HUFF_TBLS && AllWellFormed(ets)
      ensures Valid() && fresh(this) && fresh(sink) && fresh(sink.w) && fresh(sink.counts) && fresh(bitBuffer)
      ensures this.p == p && sink.gather == gather && sink.ets == ets && segs == [] && cur == []
    {
      hide TokenSink.Valid, Codings, AbsorbAll, Emitted, DcTokensAll, DcPredsAll, Whole, AllWellFormed, Tails, Progress.Valid,
           Standing, Finished, Intervals;
      this.p := p;
      var k := new TokenSink(gather, ets);
      sink := k;
      var buffer := new nat[MAX_CORR_BITS];
      bitBuffer := buffer;
      lastDc, eobrun, be := NoDc(), 0, 0;
      restartsToGo, nextRestartNum := p.plan.restartInterval, 0;
      segs, cur := [], [];
      new;
      InitiallyValid();
    }

    lemma InitiallyValid()
      requires Shape() && lastDc == NoDc() && eobrun == be == 0 && segs == [] && cur == []
      requires sink.toks == [] && sink.segs == []
      ensures Standing() && Finished() && Intervals(p.plan.restartInterval, segs, cur)
    {
      hide TokenSink.Valid, Codings, AbsorbAll, Emitted, DcTokensAll, DcPredsAll, Whole, AllWellFormed, Tails, Progress.Valid;
      EmptyInterval(p);
      NoTails();
      assert bitBuffer[..0] == [];
    }

    /** The counters and the buffer stand for `run`. */
    ghost predicate Waiting(run: seq<BandCoding>)
      reads this`eobrun, this`be, bitBuffer
    {
      eobrun == |run| && be == |Tails(run)| <= bitBuffer.Length && bitBuffer[..be] == Tails(run)
    }

    /** `emit_eobrun`. */
    method EmitEobrun(ghost run: seq<BandCoding>) returns (ok: bool)
      requires Shape() && p.ss > 0 && Waiting(run) && |run| <= MAX_EOBRUN
      modifies this`eobrun, this`be, sink`toks, sink.w, sink.counts
      ensures ok ==> Shape() && eobrun == 0 && be == 0 && sink.toks == old(sink.toks) + EndOfRun(p.AcT(), run)
      ensures !ok ==> !sink.gather && !AllCoded(sink.ets, EndOfRun(p.AcT(), run))
    {
      hide TokenSink.Valid, NumBits, AllCoded, Tails, HasCode;
      ok := true;
      NoTails();
      assert sink.toks + [] == sink.toks;
      if eobrun > 0 {
        ghost var before := sink.toks;
        var nbits := BitLengthNonzero(eobrun);
        nbits := nbits - 1;
        RunLengthBits(eobrun);
        if nbits > 14 { assert false; }
        ok := sink.EmitSymbol(p.AcT(), nbits * 16);
        if !ok { EobUncoded(sink.ets, p.AcT(), eobrun, Tails(run)); return; }
        if nbits > 0 { sink.EmitBits(eobrun, nbits); }
        EobJoined(p.AcT(), before, eobrun, sink.toks);
        eobrun := 0;
        sink.EmitBufferedBits(bitBuffer, 0, be);
        assert bitBuffer[0..be] == bitBuffer[..be];
        Seqs.Assoc(before, EobTokens(p.AcT(), |run|), BitTokens(Tails(run)));
        be := 0;
      }
    }

    // ----- First scans of AC bands -----

    /** In the middle of a block: `hd` has been emitted for it, and nothing is pending once that has begun. */
    ghost predicate Mid(s: RunState, hd: seq<Token>)
      requires p.Valid() && p.ss > 0
      reads this`eobrun, this`be, sink`toks, bitBuffer
    {
      if hd == [] then Holds(s)
      else eobrun == 0 && be == 0 && sink.toks == Emitted(p.AcT(), Flush(s)) + hd
    }

    /** Whatever is pending goes out before the first token of the block. */
    method BeginTokens(ghost s: RunState, ghost hd: seq<Token>) returns (ok: bool)
      requires Shape() && p.ss > 0 && Mid(s, hd) && |s.run| <= MAX_EOBRUN
      modifies this`eobrun, this`be, sink`toks, sink.w, sink.counts
      ensures ok ==> Shape() && eobrun == 0 && be == 0 && sink.toks == Emitted(p.AcT(), Flush(s)) + hd
      ensures !ok ==> !sink.gather && hd == [] && !AllCoded(sink.ets, Emitted(p.AcT(), Flush(s)))
    {
      hide TokenSink.Valid, AllCoded, Emitted, Tails, EndOfRun;
      NoTails();
      ghost var run := if hd == [] then s.run else [];
      FlushAppends(p.AcT(), s);
      NothingEnds(p.AcT());
      NothingUncoded(sink.ets);
      if hd == [] { BothCoded(sink.ets, Emitted(p.AcT(), s), EndOfRun(p.AcT(), s.run)); }
      ok := EmitEobrun(run);
      assert sink.toks + [] == sink.toks;
      assert old(sink.toks) + [] == old(sink.toks);
    }

    /** Emits ZRL symbols until at most 15 zeros are left before the value at `k`. */
    method EmitZrls(r0: nat, ghost base: seq<Token>, ghost hd0: seq<Token>, ghost v: seq<int>, ghost k: nat)
      returns (ok: bool, r: nat, ghost hd: seq<Token>)
      requires Shape() && p.ss > 0 && sink.toks == base + hd0 && |v| == 64
      requires r0 <= k <= p.se && v[k] != 0 && forall i :: k - r0 <= i < k ==> v[i] == 0
      modifies sink`toks, sink.w, sink.counts
      ensures ok ==> Shape() && r <= 15 && r <= r0 && sink.toks == base + hd && hd0 <= hd
      ensures ok ==> hd0 + RunTokens(v, p.AcT(), k - r0, p.se) == hd + RunTokens(v, p.AcT(), k - r, p.se)
      ensures ok ==> RunEnd(v, k - r0, p.se) == RunEnd(v, k - r, p.se)
      ensures !ok ==> !sink.gather && !AllCoded(sink.ets, RunTokens(v, p.AcT(), k - r0, p.se))
    {
      hide TokenSink.Valid, AllCoded, RunTokens, RunEnd, HasCode;
      r, hd, ok := r0, hd0, true;
      ghost var t, zrls := p.AcT(), [];
      assert hd0 + [] == hd0 && [] + RunTokens(v, t, k - r0, p.se) == RunTokens(v, t, k - r0, p.se);
      while r > 15
        invariant r <= r0 && Shape() && sink.toks == base + hd && hd == hd0 + zrls
        invariant RunTokens(v, t, k - r0, p.se) == zrls + RunTokens(v, t, k - r, p.se)
        invariant RunEnd(v, k - r0, p.se) == RunEnd(v, k - r, p.se)
      {
        RunOver(v, t, k - r, k, p.se);
        ok := sink.EmitSymbol(p.AcT(), ZRL);
        if !ok { Uncoded(sink.ets, zrls, Sym(t, ZRL), RunTokens(v, t, k - r + 16, p.se)); return; }
        Seqs.Assoc(zrls, [Sym(t, ZRL)], RunTokens(v, t, k - r + 16, p.se));
        Seqs.Assoc(base, hd, [Sym(t, ZRL)]);
        Seqs.Assoc(hd0, zrls, [Sym(t, ZRL)]);
        zrls := zrls + [Sym(t, ZRL)];
        hd, r := hd + [Sym(t, ZRL)], r - 16;
      }
      Seqs.Assoc(hd0, zrls, RunTokens(v, t, k - r, p.se));
    }

    /** The symbol of a value after at most 15 zeros, and the bits of the value. */
    method EmitValue(r: nat, temp: int, nbits: nat, ghost base: seq<Token>, ghost hd: seq<Token>) returns (ok: bool)
      requires Shape() && p.ss > 0 && sink.toks == base + hd && r <= 15
      requires temp != 0 && nbits == NumBits(Abs(temp)) <= MAX_COEF_BITS
      modifies sink`toks, sink.w, sink.counts
      ensures ok ==> Shape() && sink.toks == base + (hd + ValueTokens(p.AcT(), r, temp))
      ensures !ok ==> !sink.gather && !AllCoded(sink.ets, ValueTokens(p.AcT(), r, temp))
    {
      hide TokenSink.Valid, AllCoded, HasCode, NumBits, ValueBits;
      ghost var t := p.AcT();
      ghost var sym, raw := Sym(t, r * 16 + nbits), Raw(ValueBits(temp), nbits);
      assert ValueTokens(t, r, temp) == [sym] + [raw] == [] + ([sym] + [raw]);
      ok := sink.EmitSymbol(p.AcT(), r * 16 + nbits);
      if !ok { Uncoded(sink.ets, [], sym, [raw]); return; }
      sink.EmitBits(ValueBits(temp), nbits);
      Seqs.Assoc(base + hd, [sym], [raw]);
      Seqs.Assoc(base, hd, [sym] + [raw]);
    }

    /** The nonzero coefficient at `k`, after `r0` zeros. */
    method EncodeCoefFirst(r0: nat, temp: int, ghost s: RunState, ghost hd0: seq<Token>, ghost v: seq<int>, ghost k: nat)
      returns (st: Status, ghost hd: seq<Token>)
      requires Shape() && p.ss > 0 && Mid(s, hd0) && |s.run| <= MAX_EOBRUN && |v| == 64
      requires r0 <= k <= p.se && temp == v[k] != 0 && forall i :: k - r0 <= i < k ==> v[i] == 0
      modifies this`eobrun, this`be, sink`toks, sink.w, sink.counts
      ensures st.Success? ==> Shape() && hd != [] && Mid(s, hd) && NumBits(Abs(temp)) <= MAX_COEF_BITS
      ensures st.Success? ==> hd0 + RunTokens(v, p.AcT(), k - r0, p.se) == hd + RunTokens(v, p.AcT(), k + 1, p.se)
      ensures st.Success? ==> RunEnd(v, k - r0, p.se) == RunEnd(v, k + 1, p.se)
      ensures st.Failure? ==> st == Failure(BadDctCoef) || st == Failure(HuffMissingCode)
      ensures st == Failure(BadDctCoef) ==> NumBits(Abs(temp)) > MAX_COEF_BITS
      ensures st == Failure(HuffMissingCode) ==>
                !sink.gather && (!AllCoded(sink.ets, RunTokens(v, p.AcT(), k - r0, p.se))
                                 || (hd0 == [] && !AllCoded(sink.ets, Emitted(p.AcT(), Flush(s)))))
    {
      hide TokenSink.Valid, AllCoded, RunTokens, RunEnd, HasCode, Emitted, Tails, NumBits, ValueTokens;
      hd := hd0;
      ghost var t, base := p.AcT(), Emitted(p.AcT(), Flush(s));
      var ok := BeginTokens(s, hd0);
      if !ok { return Failure(HuffMissingCode), hd; }
      var r;
      ghost var zrls;
      ok, r, zrls := EmitZrls(r0, base, hd0, v, k);
      if !ok { return Failure(HuffMissingCode), hd; }
      var nbits := BitLengthNonzero(Abs(temp));
      if nbits > MAX_COEF_BITS { return Failure(BadDctCoef), hd; }
      RunValue(v, t, k - r, k, p.se);
      ok := EmitValue(r, temp, nbits, base, zrls);
      if !ok {
        ValueUncoded(sink.ets, v, t, k, r0, r, hd0, zrls, p.se);
        return Failure(HuffMissingCode), hd;
      }
      Seqs.Assoc(zrls, ValueTokens(t, r, temp), RunTokens(v, t, k + 1, p.se));
      SomeTokens(t, r, temp);
      return Success, zrls + ValueTokens(t, r, temp);
    }

    /** The coefficients of a band; `r` zeros are left at its end. */
    method BandFirst(block: seq<int>, ghost s: RunState) returns (st: Status, r: nat, ghost hd: seq<Token>)
      requires Shape() && p.ss > 0 && p.ah == 0 && Holds(s) && |s.run| <= MAX_EOBRUN && |block| == 64
      modifies this`eobrun, this`be, sink`toks, sink.w, sink.counts
      ensures st.Success? ==>
                var c := Coding(p, Zigzag(block));
                Shape() && Mid(s, hd) && c == BandCoding(hd, [], r > 0) && BandInRange(p, Zigzag(block), p.se + 1)
      ensures st.Failure? ==> st == Failure(BadDctCoef) || st == Failure(HuffMissingCode)
      ensures st == Failure(BadDctCoef) ==> !BandInRange(p, Zigzag(block), p.se + 1)
      ensures st == Failure(HuffMissingCode) ==>
                !sink.gather && BandUncoded(sink.ets, p.AcT(), s, Coding(p, Zigzag(block)))
    {
      hide TokenSink.Valid, AllCoded, RunTokens, RunEnd, HasCode, Emitted, Tails, NumBits, NaturalOrder, Shift, BandUncoded;
      ghost var z, t := Zigzag(block), p.AcT();
      ghost var v := Shifted(z, p.al);
      ghost var more: seq<Token>;
      hd, r := [], 0;
      var k := p.ss;
      assert RunTokens(v, t, p.ss, p.se) == [] + RunTokens(v, t, p.ss, p.se);
      while k <= p.se
        invariant p.ss <= k <= p.se + 1 && r <= k - p.ss && Shape() && Mid(s, hd)
        invariant forall i :: k - r <= i < k ==> v[i] == 0
        invariant BandInRange(p, z, k)
        invariant RunTokens(v, t, p.ss, p.se) == hd + RunTokens(v, t, k - r, p.se)
        invariant RunEnd(v, p.ss, p.se) == RunEnd(v, k - r, p.se)
        invariant r == 0 && k > p.ss ==> hd != []
      {
        var temp := Shift(block[NaturalOrder(k)], p.al);
        if temp == 0 {
          NoBitsInZero();
          r := r + 1;
        } else {
          st, more := EncodeCoefFirst(r, temp, s, hd, v, k);
          if st.Failure? {
            if st.error == HuffMissingCode { FirstUncoded(sink.ets, p, z, s, hd, k - r); }
            return;
          }
          hd, r := more, 0;
        }
        k := k + 1;
      }
      RunOut(v, t, p.se + 1 - r, p.se);
      assert hd + [] == hd;
      st := Success;
    }

    /** The band joins the pending run. */
    ghost predicate Joined(s: RunState, c: BandCoding)
      requires p.Valid() && p.ss > 0
      reads this, sink, bitBuffer
    {
      Waiting(Started(s, c).run) && sink.toks == Emitted(p.AcT(), Started(s, c))
    }

    lemma JoinsRun(s: RunState, c: BandCoding, eobrun0: nat, be0: nat)
      requires p.Valid() && p.ss > 0 && bitBuffer.Length == MAX_CORR_BITS && c.Good() && be0 + |c.tail| <= MAX_CORR_BITS
      requires if c.head == [] then eobrun0 == |s.run| && be0 == |Tails(s.run)| && bitBuffer[..be0] == Tails(s.run)
               else eobrun0 == 0 && be0 == 0
      requires sink.toks == if c.head == [] then Emitted(p.AcT(), s) else Emitted(p.AcT(), Flush(s)) + c.head
      requires bitBuffer[be0..be0 + |c.tail|] == c.tail
      requires eobrun == (if c.eob then eobrun0 + 1 else eobrun0) && be == be0 + |c.tail|
      ensures Joined(s, c)
    {
      hide Tails, Emitted, Flush;
      StartedEmits(p.AcT(), s, c);
      NoTails();
      TailsSnoc(s.run, c);
      TailsSnoc([], c);
      assert [] + [c] == [c] && [] + c.tail == c.tail;
      assert bitBuffer[..be] == bitBuffer[..be0] + bitBuffer[be0..be0 + |c.tail|];
      SomethingSent(c);
    }

    /** The end of a band in a first scan. */
    method EndFirst(r: nat, ghost s: RunState, ghost c: BandCoding) returns (ok: bool)
      requires Shape() && p.ss > 0 && s.Valid() && c.Good() && Mid(s, c.head) && c.eob == (r > 0) && c.tail == []
      modifies this`eobrun, this`be, sink`toks, sink.w, sink.counts
      ensures ok ==> Shape() && Holds(Absorb(s, c))
      ensures !ok ==> !sink.gather && c.eob && MustFlush(Started(s, c))
                      && !AllCoded(sink.ets, Emitted(p.AcT(), Flush(Started(s, c))))
    {
      hide TokenSink.Valid, AllCoded, Emitted, Tails, EndOfRun, Absorb, Flush;
      ghost var st := Started(s, c);
      AbsorbIsStarted(s, c);
      StartedFits(s, c);
      FlushAppends(p.AcT(), st);
      BothCoded(sink.ets, Emitted(p.AcT(), st), EndOfRun(p.AcT(), st.run));
      ok := true;
      NoTails();
      ghost var e0, b0 := eobrun, be;
      assert bitBuffer[b0..b0] == [];
      if r > 0 { eobrun := eobrun + 1; }
      JoinsRun(s, c, e0, b0);
      if r > 0 && eobrun == MAX_EOBRUN {
        ok := EmitEobrun(st.run);
        FlushedRun(st);
      }
    }

    // ----- Refinement scans of AC bands -----

    /** A symbol, possibly a sign bit, and the correction bits that must be associated with it. */
    method SendGroup(sym: nat, sign: int, start: nat, br: nat, ghost s: RunState, ghost hd: seq<Token>)
      returns (ok: bool, ghost hd': seq<Token>)
      requires Shape() && p.ss > 0 && Mid(s, hd) && |s.run| <= MAX_EOBRUN && sym < 256 && start + br <= MAX_CORR_BITS
      modifies this`eobrun, this`be, sink`toks, sink.w, sink.counts
      ensures ok ==> Shape() && eobrun == 0 && be == 0 && hd' == hd + GroupTokens(p.AcT(), sym, sign, bitBuffer[start..start + br])
      ensures ok ==> Mid(s, hd') && hd' != []
      ensures !ok ==> !sink.gather && (!HasCode(sink.ets, Sym(p.AcT(), sym))
                                       || (hd == [] && !AllCoded(sink.ets, Emitted(p.AcT(), Flush(s)))))
    {
      hide TokenSink.Valid, AllCoded, Emitted, Tails, HasCode, BitTokens;
      ghost var base, bits := Emitted(p.AcT(), Flush(s)), bitBuffer[start..start + br];
      hd' := hd;
      ok := BeginTokens(s, hd);
      if !ok { return; }
      ok := sink.EmitSymbol(p.AcT(), sym);
      if !ok { return; }
      if sign >= 0 { sink.EmitBits(sign, 1); }
      ghost var front := if sign >= 0 then [Sym(p.AcT(), sym), Raw(sign, 1)] else [Sym(p.AcT(), sym)];
      FrontSent(base + hd, p.AcT(), sym, sign, sink.toks);
      sink.EmitBufferedBits(bitBuffer, start, br);
      hd' := hd + (front + BitTokens(bits));
      GroupSent(base, hd, front, BitTokens(bits));
    }

    /** The absolute values after the point transform, and the index of the last newly nonzero coefficient (0 if none). */
    method Prepass(block: seq<int>) returns (absvalues: array<nat>, eob: nat)
      requires p.Valid() && p.ss > 0 && |block| == 64
      ensures fresh(absvalues) && absvalues.Length == 64
      ensures forall k :: p.ss <= k <= p.se ==> absvalues[k] == Mags(Zigzag(block), p.al)[k]
      ensures forall k :: p.ss <= k <= p.se ==> (k <= eob <==> NextNew(Mags(Zigzag(block), p.al), k, p.se) <= p.se)
    {
      hide NaturalOrder, ShiftRight, NextNew;
      absvalues := new nat[64];
      ghost var m := Mags(Zigzag(block), p.al);
      eob := 0;
      var k := p.ss;
      while k <= p.se
        invariant p.ss <= k <= p.se + 1
        invariant forall i :: p.ss <= i < k ==> absvalues[i] == m[i]
        invariant eob < k && (eob == 0 || (p.ss <= eob && m[eob] == 1)) && forall i :: eob < i < k && i >= p.ss ==> m[i] != 1
      {
        var temp := ShiftRight(Abs(block[NaturalOrder(k)]), p.al);
        absvalues[k] := temp;
        if temp == 1 { eob := k; }
        k := k + 1;
      }
      forall i | p.ss <= i <= p.se ensures i <= eob <==> NextNew(m, i, p.se) <= p.se { LastNew(m, i, p.se, eob); }
    }

    /** In the middle of a refinement band: the group from `g` to `k` waits for its symbol. */
    ghost predicate Refining(s: RunState, hd: seq<Token>, z: seq<int>, g: nat, k: nat, r: nat, start: nat, br: nat)
      requires p.Valid() && p.ss > 0 && |z| == 64
      reads this, sink, bitBuffer
    {
      var m := Mags(z, p.al);
      && Mid(s, hd) && p.ss <= g && Group(m, g, k, p.se, r)
      && start == be <= MAX_CORR_BITS - DCTSIZE2 + 1 && br == |Corrections(m, g, k)| && bitBuffer.Length == MAX_CORR_BITS
      && bitBuffer[start..start + br] == Corrections(m, g, k)
      && RefineTokens(m, z, p.AcT(), p.ss, p.se) == hd + RefineTokens(m, z, p.AcT(), g, p.se)
      && RefineEnd(m, p.ss, p.se) == RefineEnd(m, g, p.se)
    }

    /** A ZRL symbol with the correction bits so far. */
    method SendZrl(r: nat, start: nat, br: nat, ghost s: RunState, ghost hd: seq<Token>, ghost z: seq<int>, ghost g: nat,
                   ghost k: nat)
      returns (ok: bool, ghost hd': seq<Token>, ghost g': nat)
      requires Shape() && p.ss > 0 && p.ah != 0 && |z| == 64 && Refining(s, hd, z, g, k, r, start, br) && |s.run| <= MAX_EOBRUN
      requires r > 15 && k <= p.se && NextNew(Mags(z, p.al), k, p.se) <= p.se
      modifies this`eobrun, this`be, sink`toks, sink.w, sink.counts
      ensures ok ==> Shape() && Refining(s, hd', z, g', k, r - 16, 0, 0) && hd' != []
      ensures !ok ==> !sink.gather && BandUncoded(sink.ets, p.AcT(), s, Coding(p, z))
    {
      hide TokenSink.Valid, AllCoded, Emitted, Tails, HasCode, BitTokens, Mags, Group, NextNew, RefineTokens, RefineEnd, Mid,
           BandUncoded, Corrections;
      ghost var m, t := Mags(z, p.al), p.AcT();
      MagsLength(z, p.al);
      GroupBounds(m, g, k, p.se, r);
      g' := GroupZrl(m, z, t, g, k, p.se, r);
      ghost var more := RefineTokens(m, z, t, g', p.se);
      ok, hd' := SendGroup(ZRL, -1, start, br, s, hd);
      if !ok { GroupUncoded(sink.ets, p, z, s, hd, ZRL, -1, Corrections(m, g, k), more); return; }
      Seqs.Assoc(hd, GroupTokens(t, ZRL, -1, Corrections(m, g, k)), more);
      assert bitBuffer[0..0] == [];
    }

    /** The symbol of the newly nonzero coefficient at `k`, its sign, and the correction bits so far. */
    method SendNew(r: nat, negative: bool, start: nat, br: nat, ghost s: RunState, ghost hd: seq<Token>, ghost z: seq<int>,
                   ghost g: nat, ghost k: nat)
      returns (ok: bool, ghost hd': seq<Token>)
      requires Shape() && p.ss > 0 && p.ah != 0 && |z| == 64 && Refining(s, hd, z, g, k, r, start, br) && |s.run| <= MAX_EOBRUN
      requires r <= 15 && k <= p.se && Mags(z, p.al)[k] == 1 && negative == (z[k] < 0)
      modifies this`eobrun, this`be, sink`toks, sink.w, sink.counts
      ensures ok ==> Shape() && Refining(s, hd', z, k + 1, k + 1, 0, 0, 0) && hd' != []
      ensures !ok ==> !sink.gather && BandUncoded(sink.ets, p.AcT(), s, Coding(p, z))
    {
      hide TokenSink.Valid, AllCoded, Emitted, Tails, HasCode, BitTokens, Mags, Group, NextNew, RefineTokens, RefineEnd, Mid,
           BandUncoded, Corrections, NumZeros;
      ghost var m, t := Mags(z, p.al), p.AcT();
      MagsLength(z, p.al);
      GroupBounds(m, g, k, p.se, r);
      GroupNew(m, z, t, g, k, p.se, r);
      ghost var more := RefineTokens(m, z, t, k + 1, p.se);
      var sign := if negative then 0 else 1;
      ok, hd' := SendGroup(r * 16 + 1, sign, start, br, s, hd);
      if !ok { GroupUncoded(sink.ets, p, z, s, hd, r * 16 + 1, sign, Corrections(m, g, k), more); return; }
      Seqs.Assoc(hd, GroupTokens(t, r * 16 + 1, sign, Corrections(m, g, k)), more);
      GroupEmpty(m, k + 1, p.se);
      assert bitBuffer[0..0] == [];
    }

    /** Emits ZRL symbols while something new is ahead. */
    method SendZrls(ahead: bool, r0: nat, start0: nat, br0: nat, ghost s: RunState, ghost hd0: seq<Token>, ghost z: seq<int>,
                    ghost g0: nat, ghost k: nat)
      returns (ok: bool, r: nat, start: nat, br: nat, ghost hd: seq<Token>, ghost g: nat)
      requires Shape() && p.ss > 0 && p.ah != 0 && |z| == 64 && Refining(s, hd0, z, g0, k, r0, start0, br0)
      requires |s.run| <= MAX_EOBRUN && k <= p.se && ahead == (NextNew(Mags(z, p.al), k, p.se) <= p.se)
      modifies this`eobrun, this`be, sink`toks, sink.w, sink.counts
      ensures ok ==> Shape() && Refining(s, hd, z, g, k, r, start, br) && (r <= 15 || !ahead)
      ensures ok ==> (hd == [] ==> hd0 == [] && r == r0 && br == br0)
      ensures !ok ==> !sink.gather && BandUncoded(sink.ets, p.AcT(), s, Coding(p, z))
    {
      hide TokenSink.Valid, Refining, NextNew, Mags, BandUncoded;
      ok, r, start, br, hd, g := true, r0, start0, br0, hd0, g0;
      while r > 15 && ahead
        invariant Shape() && Refining(s, hd, z, g, k, r, start, br)
        invariant hd == [] ==> hd0 == [] && r == r0 && br == br0
        decreases r
      {
        ok, hd, g := SendZrl(r, start, br, s, hd, z, g, k);
        if !ok { return; }
        r, start, br := r - 16, 0, 0;
      }
    }

    /** Appends a correction bit to the buffer. */
    method BufferBit(bit: nat, start: nat, br: nat, ghost s: RunState, ghost hd: seq<Token>, ghost z: seq<int>, ghost g: nat,
                     ghost k: nat, ghost r: nat)
      requires Shape() && p.ss > 0 && |z| == 64 && Refining(s, hd, z, g, k, r, start, br) && k <= p.se
      requires Mags(z, p.al)[k] > 1 && (r <= 15 || NextNew(Mags(z, p.al), k, p.se) > p.se) && bit == Mags(z, p.al)[k] % 2
      modifies bitBuffer
      ensures Shape() && Refining(s, hd, z, g, k + 1, r, start, br + 1)
    {
      hide TokenSink.Valid, Emitted, Tails, Mags, Group, NextNew, RefineTokens, RefineEnd, Corrections, NumZeros;
      ghost var m := Mags(z, p.al);
      GroupBounds(m, g, k, p.se, r);
      GroupCorrection(m, g, k, p.se, r);
      ghost var before, pending := bitBuffer[start..start + br], bitBuffer[..be];
      bitBuffer[start + br] := bit;
      assert bitBuffer[..be] == pending;
      assert bitBuffer[start..start + br + 1] == before + [bit];
    }

    /** The coefficients of a band in a refinement scan. */
    method BandRefine(block: seq<int>, ghost s: RunState)
      returns (ok: bool, r: nat, start: nat, br: nat, ghost hd: seq<Token>, ghost g: nat)
      requires Shape() && p.ss > 0 && p.ah != 0 && Holds(s) && s.Valid() && |block| == 64
      modifies this`eobrun, this`be, sink`toks, sink.w, sink.counts, bitBuffer
      ensures ok ==> Shape() && Refining(s, hd, Zigzag(block), g, p.se + 1, r, start, br)
      ensures !ok ==> !sink.gather && BandUncoded(sink.ets, p.AcT(), s, Coding(p, Zigzag(block)))
    {
      hide TokenSink.Valid, Refining, NextNew, Mags, BandUncoded, NaturalOrder, ShiftRight, Holds, RunState.Valid;
      ghost var z := Zigzag(block);
      var absvalues, eob := Prepass(block);
      ok, r, start, br, hd, g := true, 0, be, 0, [], p.ss;
      var k := p.ss;
      RefineBegins(s, z);
      while k <= p.se
        invariant p.ss <= k <= p.se + 1 && Shape() && Refining(s, hd, z, g, k, r, start, br)
        invariant fresh(absvalues) && absvalues !in sink.counts && absvalues != bitBuffer
        invariant forall i :: p.ss <= i <= p.se ==> absvalues[i] == Mags(z, p.al)[i]
      {
        var temp := absvalues[k];
        MagsLength(z, p.al);
        if temp == 0 {
          RefineZero(s, hd, z, g, k, r, start, br);
          r := r + 1;
        } else {
          RunFits(s);
          ok, r, start, br, hd, g := SendZrls(k <= eob, r, start, br, s, hd, z, g, k);
          if !ok { return; }
          if temp > 1 {
            BufferBit(temp % 2, start, br, s, hd, z, g, k, r);
            br := br + 1;
          } else {
            IsAhead(Mags(z, p.al), k, p.se);
            ok, hd := SendNew(r, block[NaturalOrder(k)] < 0, start, br, s, hd, z, g, k);
            if !ok { return; }
            g, start, br, r := k + 1, 0, 0, 0;
          }
        }
        k := k + 1;
      }
    }

    lemma RefineBegins(s: RunState, z: seq<int>)
      requires Shape() && p.ss > 0 && p.ah != 0 && Holds(s) && s.Valid() && |z| == 64
      ensures Refining(s, [], z, p.ss, p.ss, 0, be, 0)
    {
      hide TokenSink.Valid, Emitted, Tails, Group, NextNew, RefineTokens, RefineEnd, Corrections, NumZeros;
      GroupEmpty(Mags(z, p.al), p.ss, p.se);
      assert bitBuffer[be..be] == [];
      var toks := RefineTokens(Mags(z, p.al), z, p.AcT(), p.ss, p.se);
      assert [] + toks == toks;
    }

    lemma RefineZero(s: RunState, hd: seq<Token>, z: seq<int>, g: nat, k: nat, r: nat, start: nat, br: nat)
      requires p.Valid() && p.ss > 0 && |z| == 64 && Refining(s, hd, z, g, k, r, start, br) && k <= p.se
      requires |Mags(z, p.al)| == 64 && Mags(z, p.al)[k] == 0
      ensures Refining(s, hd, z, g, k + 1, r + 1, start, br)
    {
      hide Emitted, Tails, Group, NextNew, RefineTokens, RefineEnd, Corrections, NumZeros, Mid, Mags;
      GroupBounds(Mags(z, p.al), g, k, p.se, r);
      GroupZero(Mags(z, p.al), g, k, p.se, r);
    }

    /** What a band leaves behind at its end. */
    lemma BandDone(s: RunState, hd: seq<Token>, z: seq<int>, g: nat, r: nat, start: nat, br: nat)
      requires Shape() && p.ss > 0 && p.ah != 0 && |z| == 64 && s.Valid() && Refining(s, hd, z, g, p.se + 1, r, start, br)
      ensures var c := Coding(p, z);
              && c.Good() && c.head == hd && c.eob == (r > 0 || br > 0) && |c.tail| == br && start == be
              && be + br <= MAX_CORR_BITS && bitBuffer[be..be + br] == c.tail && Mid(s, hd)
    {
      hide TokenSink.Valid, Emitted, Tails, Group, NextNew, RefineTokens, RefineEnd, Corrections, NumZeros, Mags;
      var m := Mags(z, p.al);
      MagsLength(z, p.al);
      GroupBounds(m, g, p.se + 1, p.se, r);
      GroupLast(m, z, p.AcT(), g, p.se, r);
      CodingGood(p, z);
      assert hd + [] == hd;
    }

    /** The end of a band in a refinement scan. */
    method EndRefine(r: nat, br: nat, ghost s: RunState, ghost c: BandCoding) returns (ok: bool)
      requires Shape() && p.ss > 0 && s.Valid() && c.Good() && Mid(s, c.head) && c.eob == (r > 0 || br > 0) && |c.tail| == br
      requires be + br <= MAX_CORR_BITS && bitBuffer[be..be + br] == c.tail
      modifies this`eobrun, this`be, sink`toks, sink.w, sink.counts
      ensures ok ==> Shape() && Holds(Absorb(s, c))
      ensures !ok ==> !sink.gather && c.eob && MustFlush(Started(s, c))
                      && !AllCoded(sink.ets, Emitted(p.AcT(), Flush(Started(s, c))))
    {
      hide TokenSink.Valid, AllCoded, Emitted, Tails, EndOfRun, Absorb, Flush;
      ghost var st := Started(s, c);
      AbsorbIsStarted(s, c);
      StartedFits(s, c);
      FlushAppends(p.AcT(), st);
      BothCoded(sink.ets, Emitted(p.AcT(), st), EndOfRun(p.AcT(), st.run));
      ok := true;
      NoTails();
      ghost var e0, b0 := eobrun, be;
      if r > 0 || br > 0 {
        eobrun := eobrun + 1;
        be := be + br;
      }
      JoinsRun(s, c, e0, b0);
      if (r > 0 || br > 0) && (eobrun == MAX_EOBRUN || be > MAX_CORR_BITS - DCTSIZE2 + 1) {
        ok := EmitEobrun(st.run);
        FlushedRun(st);
      }
    }

    /** The MCU of an AC scan: `encode_mcu_AC_first` or `encode_mcu_AC_refine` without the restart handling. */
    method EncodeAc(block: seq<int>, ghost s: RunState) returns (st: Status)
      requires Shape() && p.ss > 0 && Holds(s) && s.Valid() && |block| == 64
      modifies this`eobrun, this`be, sink`toks, sink.w, sink.counts, bitBuffer
      ensures st.Success? ==> Shape() && Holds(Absorb(s, Coding(p, Zigzag(block))))
      ensures st.Success? && p.ah == 0 ==> BandInRange(p, Zigzag(block), p.se + 1)
      ensures st.Failure? ==> st == Failure(BadDctCoef) || st == Failure(HuffMissingCode)
      ensures st == Failure(BadDctCoef) ==> p.ah == 0 && !BandInRange(p, Zigzag(block), p.se + 1)
      ensures st == Failure(HuffMissingCode) ==>
                !sink.gather && BandUncoded(sink.ets, p.AcT(), s, Coding(p, Zigzag(block)))
    {
      hide TokenSink.Valid, Holds, Mid, Coding, RunState.Valid, Absorb, Refining, BandInRange, AllCoded, Emitted;
      ghost var hd;
      var r, ok;
      ghost var c := Coding(p, Zigzag(block));
      CodingGood(p, Zigzag(block));
      RunFits(s);
      if p.ah == 0 {
        st, r, hd := BandFirst(block, s);
        if st.Failure? { return; }
        ok := EndFirst(r, s, c);
      } else {
        var start, br;
        ghost var g;
        ok, r, start, br, hd, g := BandRefine(block, s);
        if !ok { return Failure(HuffMissingCode); }
        BandDone(s, hd, Zigzag(block), g, r, start, br);
        ok := EndRefine(r, br, s, c);
      }
      if !ok { return Failure(HuffMissingCode); }
      return Success;
    }

    // ----- DC scans -----

    /** One block of `encode_mcu_DC_first`. */
    method DcBlockFirst(mcu: Mcu, b: nat, ghost dc0: seq<int>) returns (st: Status)
      requires Shape() && p.ss == 0 && p.ah == 0 && GoodMcu(p.plan, mcu) && b < |mcu| && |dc0| == MAX_COMPS_IN_SCAN
      requires lastDc == DcPreds(p, mcu, b, dc0)
      modifies this`lastDc, sink`toks, sink.w, sink.counts
      ensures st.Success? ==> Shape() && lastDc == DcPreds(p, mcu, b + 1, dc0) && DcInRange(DcDiff(p, mcu, b, dc0))
      ensures st.Success? ==> sink.toks == old(sink.toks) + DcBlockTokens(p, mcu, b, dc0)
      ensures st.Failure? ==> st == Failure(BadDctCoef) || st == Failure(HuffMissingCode)
      ensures st == Failure(BadDctCoef) ==> !DcInRange(DcDiff(p, mcu, b, dc0))
      ensures st == Failure(HuffMissingCode) ==> !sink.gather && !AllCoded(sink.ets, DcBlockTokens(p, mcu, b, dc0))
    {
      hide TokenSink.Valid, HasCode, NumBits, ValueBits, Pow2;
      assert mcu[b] in mcu;
      var ci, t := p.plan.Ci(b), p.plan.CompOf(b).DcT();
      var temp2 := DcValue(mcu[b], p.al);
      var temp := temp2 - lastDc[ci];
      lastDc := lastDc[ci := temp2];
      var nbits := BitLength(Abs(temp));
      if nbits > MAX_COEF_BITS + 1 { return Failure(BadDctCoef); }
      var ok := sink.EmitSymbol(t, nbits);
      if !ok { DcUncoded(sink.ets, t, temp); return Failure(HuffMissingCode); }
      if nbits > 0 {
        sink.EmitBits(ValueBits(temp), nbits);
        Seqs.Assoc(old(sink.toks), [Sym(t, nbits)], [Raw(ValueBits(temp), nbits)]);
        assert ValueTokens(t, 0, temp) == [Sym(t, nbits)] + [Raw(ValueBits(temp), nbits)];
      }
      return Success;
    }

    /** `encode_mcu_DC_first` without the restart handling. */
    method EncodeDcFirst(mcu: Mcu) returns (st: Status)
      requires Shape() && p.ss == 0 && p.ah == 0 && GoodMcu(p.plan, mcu)
      modifies this`lastDc, sink`toks, sink.w, sink.counts
      ensures st.Success? ==> Shape() && lastDc == DcPreds(p, mcu, |mcu|, old(lastDc))
      ensures st.Success? ==> sink.toks == old(sink.toks) + DcMcuTokens(p, mcu, |mcu|, old(lastDc))
      ensures st.Success? ==> ProgInRange(p, mcu, |mcu|, old(lastDc))
      ensures st.Failure? ==> st == Failure(BadDctCoef) || st == Failure(HuffMissingCode)
      ensures st == Failure(BadDctCoef) ==> |old(lastDc)| == MAX_COMPS_IN_SCAN && !ProgInRange(p, mcu, |mcu|, old(lastDc))
      ensures st == Failure(HuffMissingCode) ==>
                |old(lastDc)| == MAX_COMPS_IN_SCAN && !sink.gather && !AllCoded(sink.ets, DcMcuTokens(p, mcu, |mcu|, old(lastDc)))
    {
      hide TokenSink.Valid, AllCoded, DcInRange, DcDiff, DcBlockTokens;
      ghost var dc0, toks0 := lastDc, sink.toks;
      assert toks0 + [] == toks0;
      var b: nat := 0;
      while b < |p.plan.membership|
        invariant 0 <= b <= |mcu| && Shape() && lastDc == DcPreds(p, mcu, b, dc0)
        invariant sink.toks == toks0 + DcMcuTokens(p, mcu, b, dc0) && ProgInRange(p, mcu, b, dc0)
      {
        ghost var before := sink.toks;
        st := DcBlockFirst(mcu, b, dc0);
        DcBlockOfMcu(sink.ets, p, mcu, b, dc0);
        if st.Failure? { return; }
        Seqs.Assoc(toks0, DcMcuTokens(p, mcu, b, dc0), DcBlockTokens(p, mcu, b, dc0));
        b := b + 1;
      }
      return Success;
    }

    /** `encode_mcu_DC_refine` without the restart handling. */
    method EncodeDcRefine(mcu: Mcu)
      requires Shape() && p.ss == 0 && p.ah != 0 && GoodMcu(p.plan, mcu)
      modifies sink`toks, sink.w, sink.counts
      ensures Shape() && sink.toks == old(sink.toks) + DcMcuTokens(p, mcu, |mcu|, lastDc)
    {
      hide TokenSink.Valid, Pow2;
      ghost var toks0 := sink.toks;
      assert toks0 + [] == toks0;
      var b: nat := 0;
      while b < |p.plan.membership|
        invariant 0 <= b <= |mcu| && Shape() && sink.toks == toks0 + DcMcuTokens(p, mcu, b, lastDc)
      {
        assert mcu[b] in mcu;
        sink.EmitBits(DcValue(mcu[b], p.al), 1);
        Seqs.Assoc(toks0, DcMcuTokens(p, mcu, b, lastDc), DcBlockTokens(p, mcu, b, lastDc));
        b := b + 1;
      }
    }

    // ----- Any scan -----

    /** Everything pending in the interval goes out. */
    method FlushRun() returns (ok: bool)
      requires Shape() && Standing()
      modifies this`eobrun, this`be, sink`toks, sink.w, sink.counts
      ensures ok ==> Shape() && GoodMcus(p.plan, cur) && sink.toks == Whole(p, cur) && eobrun == 0 && be == 0
      ensures !ok ==> GoodMcus(p.plan, cur) && !sink.gather && !AllCoded(sink.ets, Whole(p, cur))
    {
      hide TokenSink.Valid, AllCoded, Emitted, Tails, EndOfRun, AbsorbAll, Codings, DcTokensAll, DcPredsAll, Flush, RunState.Valid;
      ok := true;
      NoTails();
      if eobrun > 0 {
        ghost var s := AbsorbAll(Codings(p, cur));
        CodingsGood(p, cur);
        AbsorbAllValid(Codings(p, cur));
        RunFits(s);
        FlushAppends(p.AcT(), s);
        BothCoded(sink.ets, Emitted(p.AcT(), s), EndOfRun(p.AcT(), s.run));
        ok := EmitEobrun(s.run);
      } else if p.ss > 0 {
        NothingPending(p.AcT(), AbsorbAll(Codings(p, cur)));
      }
    }

    /** `emit_restart`. */
    method EmitRestart() returns (ok: bool)
      requires Valid() && p.plan.restartInterval > 0 && restartsToGo == 0
      modifies this, sink, sink.w, sink.counts
      ensures ok ==> Shape() && Standing() && Finished() && segs == old(segs) + [old(cur)] && cur == []
                     && Intervals(p.plan.restartInterval, segs, cur)
                     && restartsToGo == old(restartsToGo) && nextRestartNum == old(nextRestartNum)
      ensures !ok ==> GoodMcus(p.plan, old(cur)) && !sink.gather && !AllCoded(sink.ets, Whole(p, old(cur)))
    {
      hide Shape, AllCoded, Standing, Whole, WholeSegs, GoodMcus;
      ok := FlushRun();
      if ok { CloseInterval(); }
    }

    /** The marker, and the state after it. */
    method CloseInterval()
      requires Shape() && Finished() && nextRestartNum == |segs| % 8 && GoodMcus(p.plan, cur) && sink.toks == Whole(p, cur) && eobrun == 0 && be == 0
      modifies this`lastDc, this`eobrun, this`be, this`segs, this`cur, sink, sink.w, sink.counts
      ensures Shape() && Standing() && Finished() && segs == old(segs) + [old(cur)] && cur == []
    {
      hide TokenSink.Valid, Standing, Whole, WholeSegs, GoodMcus, Progress.Valid;
      WholeSegsSnoc(p, sink.segs, segs, cur);
      SameCount(p, sink.segs, segs);
      sink.NextSegment(nextRestartNum);
      lastDc, eobrun, be := NoDc(), 0, 0;
      segs, cur := segs + [cur], [];
      StartsAfresh();
    }

    lemma StartsAfresh()
      requires p.Valid() && cur == [] && lastDc == NoDc() && eobrun == 0 && be == 0 && sink.toks == [] && bitBuffer.Length == MAX_CORR_BITS
      ensures Standing()
    {
      hide Emitted, Tails, AbsorbAll, Codings, DcTokensAll, DcPredsAll, GoodMcus, Progress.Valid;
      IntervalClosed();
    }

    lemma IntervalClosed()
      requires p.Valid()
      ensures GoodMcus(p.plan, []) && DcTokensAll(p, []) == [] && DcPredsAll(p, []) == NoDc()
      ensures p.ss > 0 ==> AbsorbAll(Codings(p, [])) == RunState([], []) && Emitted(p.AcT(), RunState([], [])) == []
      ensures bitBuffer[..0] == [] && Tails([]) == []
    {
      EmptyInterval(p);
      NoTails();
    }

    /** The MCU routine of the scan. */
    method EncodeBody(mcu: Mcu) returns (st: Status)
      requires Shape() && Standing() && GoodMcu(p.plan, mcu)
      modifies this`lastDc, this`eobrun, this`be, this`cur, sink`toks, sink.w, sink.counts, bitBuffer
      ensures GoodMcus(p.plan, old(cur)) && GoodMcus(p.plan, old(cur) + [mcu])
      ensures st.Success? ==> Shape() && Standing() && cur == old(cur) + [mcu]
      ensures st.Success? ==> ProgInRange(p, mcu, |mcu|, DcPredsAll(p, old(cur)))
      ensures st.Failure? ==> st == Failure(BadDctCoef) || st == Failure(HuffMissingCode)
      ensures st == Failure(BadDctCoef) ==> !ProgInRange(p, mcu, |mcu|, DcPredsAll(p, old(cur)))
      ensures st == Failure(HuffMissingCode) ==> !sink.gather && !AllCoded(sink.ets, SoFar(p, old(cur) + [mcu]))
    {
      hide TokenSink.Valid, AllCoded, AbsorbAll, Codings, DcTokensAll, DcPredsAll, Coding, BandInRange, RunState.Valid,
           BandUncoded, Waiting, Emitted, DcPreds, DcMcuTokens, Absorb, Zigzag;
      ghost var before := cur;
      if p.ss == 0 {
        DcSnoc(p, cur, mcu);
        NoPredictions(p, cur);
        BothCoded(sink.ets, DcTokensAll(p, cur), DcMcuTokens(p, mcu, |mcu|, DcPredsAll(p, cur)));
        if p.ah == 0 { st := EncodeDcFirst(mcu); } else { EncodeDcRefine(mcu); st := Success; }
      } else {
        ghost var s := AbsorbAll(Codings(p, cur));
        CodingsGood(p, cur);
        AbsorbAllValid(Codings(p, cur));
        CodingsSnoc(p, cur, mcu);
        AbsorbSnoc(Codings(p, cur), Coding(p, Zigzag(mcu[0])));
        CodingGood(p, Zigzag(mcu[0]));
        st := EncodeAc(mcu[0], s);
        if st == Failure(HuffMissingCode) { BandSpoils(sink.ets, p.AcT(), s, Coding(p, Zigzag(mcu[0]))); }
      }
      cur := cur + [mcu];
    }

    /** An MCU can be coded: the restart that was due has been emitted, though the counters still stand where they stood. */
    ghost predicate Begun()
      reads this, sink, sink.w, sink.counts, bitBuffer
    {
      && Shape() && Standing() && Finished() && McuDue(p.plan.restartInterval, segs, cur, restartsToGo, nextRestartNum)
    }

    /** A restart marker, if one is due. */
    method BeginMcu() returns (ok: bool)
      requires Valid()
      modifies this, sink, sink.w, sink.counts
      ensures GoodMcus(p.plan, old(cur))
      ensures ok ==> Begun() && segs == SegsBefore(p.plan.restartInterval, old(segs), old(cur))
                     && cur == CurBefore(p.plan.restartInterval, old(cur))
      ensures !ok ==> RestartDue(p.plan.restartInterval, old(cur)) && !sink.gather && !AllCoded(sink.ets, Whole(p, old(cur)))
    {
      hide Shape, Finished, AllCoded, DcPredsAll, DcTokensAll, Codings, AbsorbAll, Whole;
      ok := true;
      if p.plan.restartInterval > 0 && restartsToGo == 0 { ok := EmitRestart(); }
    }

    /** Updates the restart state after an MCU. */
    method CountMcu()
      requires Shape() && Standing() && Finished() && cur != []
      requires McuDue(p.plan.restartInterval, segs, cur[..|cur| - 1], restartsToGo, nextRestartNum)
      modifies this`restartsToGo, this`nextRestartNum
      ensures Valid()
    {
      hide Shape, Standing, Finished, Intervals;
      LongerInterval(p.plan.restartInterval, segs, cur);
      if p.plan.restartInterval > 0 {
        if restartsToGo == 0 {
          NextNum(|segs|);
          restartsToGo := p.plan.restartInterval;
          nextRestartNum := (nextRestartNum + 1) % 8;
        }
        restartsToGo := restartsToGo - 1;
      }
    }

    /** One MCU of the scan. */
    method EncodeMcu(mcu: Mcu) returns (st: Status)
      requires Valid() && GoodMcu(p.plan, mcu)
      modifies this, sink, sink.w, sink.counts, bitBuffer
      ensures var restart := p.plan.restartInterval > 0 && |old(cur)| == p.plan.restartInterval;
              var cur0 := if restart then [] else old(cur);
              && GoodMcus(p.plan, cur0) && GoodMcus(p.plan, cur0 + [mcu]) && GoodMcus(p.plan, old(cur))
              && (st.Success? ==>
                    && Valid() && segs == (if restart then old(segs) + [old(cur)] else old(segs)) && cur == cur0 + [mcu]
                    && ProgInRange(p, mcu, |mcu|, DcPredsAll(p, cur0)))
              && (st.Failure? ==> st == Failure(BadDctCoef) || st == Failure(HuffMissingCode))
              && (st == Failure(BadDctCoef) ==> !ProgInRange(p, mcu, |mcu|, DcPredsAll(p, cur0)))
              && (st == Failure(HuffMissingCode) ==>
                    && !sink.gather
                    && (!AllCoded(sink.ets, SoFar(p, cur0 + [mcu])) || (restart && !AllCoded(sink.ets, Whole(p, old(cur))))))
    {
      hide Shape, Standing, Finished, AllCoded, DcPredsAll, Whole, SoFar, ProgInRange, GoodMcus, GoodMcu, Valid, McuDue;
      HasShape();
      GoodSnoc(p.plan, cur, mcu);
      GoodSnoc(p.plan, [], mcu);
      var ok := BeginMcu();
      if !ok { return Failure(HuffMissingCode); }
      ghost var cur0 := cur;
      st := EncodeBody(mcu);
      if st.Success? {
        assert cur[..|cur| - 1] == cur0;
        CountMcu();
      }
    }

    lemma HasShape()
      requires Valid()
      ensures p.Valid() && p.plan.Valid() && GoodMcus(p.plan, cur)
    {
    }
  }

  lemma GoodSnoc(plan: Plan, mcus: seq<Mcu>, mcu: Mcu)
    requires GoodMcu(plan, mcu)
    ensures GoodMcus(plan, []) && (GoodMcus(plan, mcus) ==> GoodMcus(plan, mcus + [mcu]))
  {
    hide GoodMcu;
  }

  lemma NoPredictions(p: Progress, mcus: seq<Mcu>)
    requires p.plan.Valid() && GoodMcus(p.plan, mcus)
    ensures p.ah != 0 ==> DcPredsAll(p, mcus) == NoDc()
  {
  }

  lemma NothingPending(t: nat, s: RunState)
    requires s.run == []
    ensures Flush(s) == s
  {
  }

  lemma BandSpoils(ets: seq<EncTable>, t: nat, s: RunState, c: BandCoding)
    requires c.Good() && BandUncoded(ets, t, s, c)
    ensures !AllCoded(ets, Emitted(t, Absorb(s, c)))
  {
    hide AllCoded, Emitted, Flush, Started, Absorb, MustFlush, BandCoding.Good;
    if AllCoded(ets, Emitted(t, Absorb(s, c))) {
      PartsCoded(ets, t, s, c);
      NothingUncoded(ets);
    }
  }

  lemma DcUncoded(ets: seq<EncTable>, t: nat, diff: int)
    requires !HasCode(ets, Sym(t, NumBits(Abs(diff))))
    ensures !AllCoded(ets, DcTokens(t, diff))
  {
    hide HasCode, NumBits, ValueBits;
    assert DcTokens(t, diff)[0] == Sym(t, NumBits(Abs(diff)));
  }

  lemma {:induction false} DcPrefixCoded(ets: seq<EncTable>, p: Progress, mcu: Mcu, b: nat, n: nat, lastDc: seq<int>)
    requires p.plan.Valid() && GoodMcu(p.plan, mcu) && b <= n <= |mcu| && |lastDc| == MAX_COMPS_IN_SCAN
    requires AllCoded(ets, DcMcuTokens(p, mcu, n, lastDc))
    ensures AllCoded(ets, DcMcuTokens(p, mcu, b, lastDc))
    decreases n
  {
    hide DcBlockTokens, AllCoded;
    if b < n {
      BothCoded(ets, DcMcuTokens(p, mcu, n - 1, lastDc), DcBlockTokens(p, mcu, n - 1, lastDc));
      DcPrefixCoded(ets, p, mcu, b, n - 1, lastDc);
    }
  }

  lemma DcBlockOfMcu(ets: seq<EncTable>, p: Progress, mcu: Mcu, b: nat, lastDc: seq<int>)
    requires p.plan.Valid() && GoodMcu(p.plan, mcu) && b < |mcu| && |lastDc| == MAX_COMPS_IN_SCAN
    ensures !AllCoded(ets, DcBlockTokens(p, mcu, b, lastDc)) ==> !AllCoded(ets, DcMcuTokens(p, mcu, |mcu|, lastDc))
  {
    hide DcBlockTokens, AllCoded;
    if AllCoded(ets, DcMcuTokens(p, mcu, |mcu|, lastDc)) { DcPrefixCoded(ets, p, mcu, b + 1, |mcu|, lastDc); }
    BothCoded(ets, DcMcuTokens(p, mcu, b, lastDc), DcBlockTokens(p, mcu, b, lastDc));
  }

  lemma RunFits(s: RunState)
    requires s.Valid()
    ensures |s.run| <= MAX_EOBRUN
  {
  }

  lemma IsAhead(m: seq<nat>, k: nat, se: nat)
    requires k <= se < |m| && m[k] == 1
    ensures NextNew(m, k, se) <= se
  {
  }

  lemma GroupBounds(m: seq<nat>, g: nat, k: nat, se: nat, r: nat)
    requires Group(m, g, k, se, r)
    ensures g <= k <= se + 1 <= |m| && r == NumZeros(m, g, k) && |Corrections(m, g, k)| <= k - g
  {
  }

  lemma LastNew(m: seq<nat>, k: nat, se: nat, eob: nat)
    requires k <= se < |m| && (eob == 0 || (eob <= se && m[eob] == 1)) && forall i :: eob < i <= se && i >= k ==> m[i] != 1
    requires k > 0
    ensures k <= eob <==> NextNew(m, k, se) <= se
  {
  }

  /** A group whose symbol has no code spoils its band. */
  lemma GroupUncoded(ets: seq<EncTable>, p: Progress, z: seq<int>, s: RunState, hd: seq<Token>, sym: nat, sign: int,
                     bits: seq<nat>, more: seq<Token>)
    requires p.Valid() && p.ss > 0 && p.ah != 0 && |z| == 64
    requires RefineTokens(Mags(z, p.al), z, p.AcT(), p.ss, p.se) == hd + (GroupTokens(p.AcT(), sym, sign, bits) + more)
    requires !HasCode(ets, Sym(p.AcT(), sym)) || (hd == [] && !AllCoded(ets, Emitted(p.AcT(), Flush(s))))
    ensures BandUncoded(ets, p.AcT(), s, Coding(p, z))
  {
    hide RefineTokens, RefineEnd, Mags, Corrections, HasCode, Emitted, AllCoded, NumZeros;
    var group := GroupTokens(p.AcT(), sym, sign, bits);
    assert group[0] == Sym(p.AcT(), sym);
    if !HasCode(ets, Sym(p.AcT(), sym)) {
      FirstOfGroup(ets, hd, group, more);
    }
  }

  lemma FirstOfGroup(ets: seq<EncTable>, hd: seq<Token>, group: seq<Token>, more: seq<Token>)
    requires group != [] && !HasCode(ets, group[0])
    ensures !AllCoded(ets, hd + (group + more))
  {
    hide HasCode;
    assert group[0] in hd + (group + more);
  }

  /** The tokens of a group: its symbol, the sign of a new coefficient (none if negative), and its correction bits. */
  function GroupTokens(t: nat, sym: nat, sign: int, bits: seq<nat>): (toks: seq<Token>) {
    (if sign >= 0 then [Sym(t, sym), Raw(sign, 1)] else [Sym(t, sym)]) + BitTokens(bits)
  }

  lemma FrontSent(before: seq<Token>, t: nat, sym: nat, sign: int, after: seq<Token>)
    requires after == if sign >= 0 then (before + [Sym(t, sym)]) + [Raw(sign, 1)] else before + [Sym(t, sym)]
    ensures after == before + if sign >= 0 then [Sym(t, sym), Raw(sign, 1)] else [Sym(t, sym)]
  {
    if sign >= 0 {
      Seqs.Assoc(before, [Sym(t, sym)], [Raw(sign, 1)]);
      assert [Sym(t, sym), Raw(sign, 1)] == [Sym(t, sym)] + [Raw(sign, 1)];
    }
  }

  lemma GroupSent(base: seq<Token>, hd: seq<Token>, front: seq<Token>, bits: seq<Token>)
    ensures ((base + hd) + front) + bits == base + (hd + (front + bits))
  {
    Seqs.Assoc(base + hd, front, bits);
    Seqs.Assoc(base, hd, front + bits);
  }

  lemma StartedFits(s: RunState, c: BandCoding)
    requires s.Valid() && c.Good()
    ensures |Started(s, c).run| <= MAX_EOBRUN
    ensures c.tail == [] ==> |Tails(Started(s, c).run)| <= MAX_CORR_BITS - DCTSIZE2 + 1
    ensures !c.eob ==> Started(s, c).run == []
  {
    hide Tails;
    NoTails();
    TailsSnoc(s.run, c);
    TailsSnoc([], c);
    assert [] + [c] == [c];
    SomethingSent(c);
  }

  lemma FlushedRun(s: RunState)
    ensures Flush(s).run == []
  {
  }

  lemma NoBitsInZero()
    ensures NumBits(Abs(0)) == 0
  {
  }

  /** Some token of the band, or of the run that has to go before it, has no code. */
  ghost predicate BandUncoded(ets: seq<EncTable>, t: nat, s: RunState, c: BandCoding) {
    || !AllCoded(ets, c.head)
    || (c.head != [] && !AllCoded(ets, Emitted(t, Flush(s))))
    || (c.eob && MustFlush(Started(s, c)) && !AllCoded(ets, Emitted(t, Flush(Started(s, c)))))
  }

  lemma FirstUncoded(ets: seq<EncTable>, p: Progress, z: seq<int>, s: RunState, hd: seq<Token>, g: nat)
    requires p.Valid() && p.ss > 0 && p.ah == 0 && |z| == 64 && p.ss <= g <= p.se
    requires var v := Shifted(z, p.al);
             && RunTokens(v, p.AcT(), p.ss, p.se) == hd + RunTokens(v, p.AcT(), g, p.se)
             && (!AllCoded(ets, RunTokens(v, p.AcT(), g, p.se)) || (hd == [] && !AllCoded(ets, Emitted(p.AcT(), Flush(s)))))
             && exists k :: g <= k <= p.se && v[k] != 0
    ensures BandUncoded(ets, p.AcT(), s, Coding(p, z))
  {
    hide RunEnd, HasCode, Emitted, AllCoded, RunTokens;
    var v, t := Shifted(z, p.al), p.AcT();
    BothCoded(ets, hd, RunTokens(v, t, g, p.se));
    RunsNotEmpty(v, t, g, p.se);
  }

  lemma {:induction false} RunsNotEmpty(v: seq<int>, t: nat, g: nat, se: nat)
    requires se < |v| && g <= se + 1 && exists k :: g <= k <= se && v[k] != 0
    ensures RunTokens(v, t, g, se) != []
  {
    hide NumBits, ValueBits;
    var p := NextNonzero(v, g, se);
  }

  lemma SomeTokens(t: nat, r: nat, v: int)
    ensures ValueTokens(t, r, v) != []
  {
  }

  /** A value without a code spoils the band from the group on in which it stands. */
  lemma ValueUncoded(ets: seq<EncTable>, v: seq<int>, t: nat, k: nat, r0: nat, r: nat, hd0: seq<Token>, zrls: seq<Token>, se: nat)
    requires |v| == 64 && r <= r0 <= k <= se < 64 && !AllCoded(ets, ValueTokens(t, r, v[k]))
    requires hd0 + RunTokens(v, t, k - r0, se) == zrls + RunTokens(v, t, k - r, se) && hd0 <= zrls
    requires RunTokens(v, t, k - r, se) == ValueTokens(t, r, v[k]) + RunTokens(v, t, k + 1, se)
    ensures !AllCoded(ets, RunTokens(v, t, k - r0, se))
  {
    hide RunTokens, HasCode, AllCoded, ValueTokens;
    var more := zrls[|hd0|..];
    assert zrls == hd0 + more;
    Seqs.Assoc(hd0, more, RunTokens(v, t, k - r, se));
    CancelFront(hd0, RunTokens(v, t, k - r0, se), more + RunTokens(v, t, k - r, se));
    UncodedPart(ets, more, ValueTokens(t, r, v[k]), RunTokens(v, t, k + 1, se));
  }

  lemma CancelFront(a: seq<Token>, b: seq<Token>, c: seq<Token>)
    requires a + b == a + c
    ensures b == c
  {
    assert b == (a + b)[|a|..] && c == (a + c)[|a|..];
  }

  /** What `emit_eobrun` appends. */
  function EndOfRun(t: nat, run: seq<BandCoding>): (toks: seq<Token>) {
    if run == [] then [] else EobTokens(t, |run|) + BitTokens(Tails(run))
  }

  lemma NothingUncoded(ets: seq<EncTable>)
    ensures AllCoded(ets, [])
  {
  }

  lemma NothingEnds(t: nat)
    ensures EndOfRun(t, []) == []
  {
  }

  lemma FlushAppends(t: nat, s: RunState)
    ensures Emitted(t, Flush(s)) == Emitted(t, s) + EndOfRun(t, s.run)
  {
    hide EobTokens, Tails, ChunkTokens;
    if s.run == [] {
      assert Emitted(t, s) + [] == Emitted(t, s);
    } else {
      FlushEmits(t, s);
    }
  }

  lemma EmptyInterval(p: Progress)
    requires p.Valid()
    ensures GoodMcus(p.plan, []) && DcTokensAll(p, []) == [] && DcPredsAll(p, []) == NoDc()
    ensures p.ss > 0 ==> AbsorbAll(Codings(p, [])) == RunState([], []) && Emitted(p.AcT(), RunState([], [])) == []
  {
  }

  lemma RunLengthBits(n: nat)
    requires 0 < n <= MAX_EOBRUN
    ensures 1 <= NumBits(n) <= 15
  {
    Pow2Literals();
    NumBitsLeast(n, 15);
  }

  lemma EobJoined(t: nat, before: seq<Token>, n: nat, after: seq<Token>)
    requires n > 0
    requires var nbits: nat := NumBits(n) - 1;
             after == if nbits > 0 then (before + [Sym(t, nbits * 16)]) + [Raw(n, nbits)] else before + [Sym(t, nbits * 16)]
    ensures after == before + EobTokens(t, n)
  {
    hide NumBits;
    var nbits: nat := NumBits(n) - 1;
    if nbits > 0 {
      Seqs.Assoc(before, [Sym(t, nbits * 16)], [Raw(n, nbits)]);
      assert EobTokens(t, n) == [Sym(t, nbits * 16)] + [Raw(n, nbits)];
    }
  }

  lemma EobUncoded(ets: seq<EncTable>, t: nat, n: nat, bits: seq<nat>)
    requires n > 0 && !HasCode(ets, Sym(t, (NumBits(n) - 1) * 16))
    ensures !AllCoded(ets, EobTokens(t, n) + BitTokens(bits))
  {
    hide NumBits, HasCode;
    var e := EobTokens(t, n);
    assert e[0] in e + BitTokens(bits);
  }
}
