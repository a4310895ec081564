/**
 Where an index entry made behind the marker fails: inputs on which a decoder restored with it delivers another block, waits for input
 for ever, or misses a restart marker.
 */
module IndexLimits {
  import A = AnyStream
  import opened BitInput
  import opened Bits
  import opened Coefficients
  import opened HuffDecoding
  import opened HuffIndex
  import opened HuffTables
  import opened Locality
  import opened McuDecoder
  import opened RunLength
  import opened ScanIndex
  import opened Scans
  import opened Segments
  import opened SeqDecoder
  import opened SeqScanDecoder
  import opened SeqScanEncoder
  import opened SeqRoundTrip

  /** Code 0 for the first symbol, code 10 for the second. */
  function Bits2(n: nat): (b: seq<nat>) { [0, 1, n, 0, 0, 0, 0, 0, 0, 0, 0, 0, 0, 0, 0, 0, 0] }

  /** Symbols 0 and 1. */
  function Table(n: nat): (h: HuffTable) { HuffTable(Bits2(n), seq(256, i => if i == 1 then 1 else 0)) }

  lemma TableShape(n: nat)
    requires n <= 1
    ensures Table(n).WellTyped() && FirstCode(Bits2(n), 1) == 0 && NextCode(Bits2(n), 1) == 1 && NextCode(Bits2(n), 2) == 2 + n
    ensures Count(Bits2(n), 0) == 0 && Count(Bits2(n), 1) == 1 && Count(Bits2(n), 16) == 1 + n && FirstCode(Bits2(n), 2) == 2
  {
    var b := Bits2(n);
    assert Count(b, 0) == 0;
    assert Count(b, 2) == 1 + n;
    assert Count(b, 4) == Count(b, 6) == Count(b, 8) == 1 + n;
    assert Count(b, 10) == Count(b, 12) == Count(b, 14) == 1 + n;
    assert FirstCode(b, 1) == 0;
  }

  /** Bit 0: the first symbol.  Bits 10: the second. */
  lemma Decodes(n: nat, data: seq<bool>, at: nat)
    requires n <= 1
    ensures Table(n).WellTyped() && Count(Bits2(n), 16) <= 256
    ensures BitAt(data, at) == 0 ==> DecodeLength(Bits2(n), data, at) == 1 && DecodeSymbol(Table(n), data, at) == 0
    ensures n == 1 && BitAt(data, at) == 1 && BitAt(data, at + 1) == 0 ==>
              DecodeLength(Bits2(n), data, at) == 2 && DecodeSymbol(Table(n), data, at) == 1
  {
    hide Count, FirstCode;
    TableShape(n);
    assert Peek(data, at, 0) == 0;
    assert Peek(data, at, 1) == BitAt(data, at);
    assert Peek(data, at, 2) == 2 * Peek(data, at, 1) + BitAt(data, at + 1);
  }

  /** A scan of one component. */
  function OneBlock(ri: nat): (plan: Plan) { Plan([Component(0, 0)], [0], ri) }

  function Tables(): (hs: seq<HuffTable>) { seq(2 * NUM_HUFF_TBLS, t => Table(if t == 0 then 1 else 0)) }

  lemma SmallSymbols(n: nat)
    requires n <= 1
    ensures DcTable(Table(n)) && Decodable(Table(n))
  {
    TableShape(n);
  }

  lemma TablesReadable(ri: nat)
    requires ri <= 65535
    ensures OneBlock(ri).Valid() && Readable(OneBlock(ri), Tables())
  {
    hide Table, Count, DcTable, Decodable;
    SmallSymbols(0);
    SmallSymbols(1);
  }

  ghost function Code(ri: nat, data: seq<bool>, n: nat): (c: BlockCode)
    requires Readable(OneBlock(ri), Tables())
  {
    CodeOfBlock(OneBlock(ri), Tables(), data, n, 0)
  }

  /** A difference of zero, and a difference of one. */
  lemma DcAt(data: seq<bool>, n: nat)
    ensures Table(1).WellTyped() && Count(Bits2(1), 16) <= 256
    ensures BitAt(data, n) == 0 ==> ReadDc(Table(1), data, n) == (0, n + 1)
    ensures BitAt(data, n) == 1 && BitAt(data, n + 1) == 0 && BitAt(data, n + 2) == 1 ==> ReadDc(Table(1), data, n) == (1, n + 3)
  {
    hide DecodeLength, DecodeSymbol, Count;
    Decodes(1, data, n);
    assert Peek(data, n + 2, 0) == 0;
    assert Peek(data, n + 2, 1) == BitAt(data, n + 2);
  }

  /** A band of zeros. */
  lemma AcAt(data: seq<bool>, n: nat)
    ensures Table(0).WellTyped() && Count(Bits2(0), 16) <= 256
    ensures BitAt(data, n) == 0 ==> ReadBand(Table(0), data, n, 1, 63) == BandCode([], n + 1, 0)
  {
    hide DecodeLength, DecodeSymbol, Count, ReadBand;
    Decodes(0, data, n);
    BandStep(Table(0), data, n, 1, 63, DecodeSymbol(Table(0), data, n) / 16, DecodeSymbol(Table(0), data, n) % 16,
             n + DecodeLength(Table(0).bits, data, n));
  }

  /** At bits without a code but the first, the block is the predicted one; at bits 101 its DC coefficient is one greater. */
  lemma BlockAt(ri: nat, data: seq<bool>, n: nat)
    requires ri <= 65535
    ensures Readable(OneBlock(ri), Tables())
    ensures BitAt(data, n) == 0 && BitAt(data, n + 1) == 0 ==> Code(ri, data, n) == BlockCode(0, BandCode([], n + 2, 0))
    ensures BitAt(data, n) == 1 && BitAt(data, n + 1) == 0 && BitAt(data, n + 2) == 1 && BitAt(data, n + 3) == 0 ==>
              Code(ri, data, n) == BlockCode(1, BandCode([], n + 4, 0))
  {
    hide ReadDc, ReadBand, Count, Readable, Table;
    TablesReadable(ri);
    assert Tables()[0] == Table(1) && Tables()[4] == Table(0);
    DcAt(data, n);
    AcAt(data, n + 1);
    AcAt(data, n + 3);
  }

  // ----- Inputs -----

  /** Scans of this kind. */
  function Of(ri: nat, file: seq<nat>): (x: A.Stream) { A.Stream(OneBlock(ri), Tables(), [Need(true, true)], file) }

  lemma StreamValid(ri: nat, file: seq<nat>)
    requires ri <= 65535
    ensures Of(ri, file).Valid() && Readable(OneBlock(ri), Tables())
  {
    TablesReadable(ri);
  }

  /** Four MCUs of two bits, and a marker. */
  ghost predicate FourMcus(file: seq<nat>, marker: nat) { Scan(file, 0) == Segment([0x00], marker, 3) && 3 <= |file| }

  /** Behind the marker there are bits 101. */
  function Misleading(): (file: seq<nat>) { [0x00, 0xFF, 0xD9, 0xA0, 0xFF, 0xD9] }

  /** Behind the marker there is nothing. */
  function Ending(): (file: seq<nat>) { [0x00, 0xFF, 0xD9] }

  lemma SegmentsAre()
    ensures FourMcus(Misleading(), 0xD9) && Scan(Misleading(), 3) == Segment([0xA0], 0xD9, 6)
    ensures FourMcus(Ending(), 0xD9) && Scan(Ending(), 3) == Segment([], 0, 3)
  {
    assert SkipFF(Misleading(), 2) == 2 && SkipFF(Misleading(), 5) == 5 && SkipFF(Ending(), 2) == 2;
    assert Scan(Misleading(), 1) == Segment([], 0xD9, 3) && Scan(Misleading(), 4) == Segment([], 0xD9, 6);
    assert Scan(Ending(), 1) == Segment([], 0xD9, 3);
  }

  function EightZeros(): (z: seq<bool>) { [false, false, false, false, false, false, false, false] }

  function Behind(): (z: seq<bool>) { [true, false, true, false, false, false, false, false] }

  lemma BitsAre()
    ensures Unpack([0x00]) == EightZeros() && Unpack([0xA0]) == Behind() && Unpack([]) == []
  {
    assert ToBits(0, 4) == [false, false, false, false];
    assert ToBits(0, 6) == [false, false, false, false, false, false];
    assert ToBits(0, 8) == EightZeros();
    assert ToBits(0xA, 4) == [true, false, true, false];
    assert ToBits(0x28, 6) == [true, false, true, false, false, false];
    assert ToBits(0xA0, 8) == Behind();
    UnpackOne(0x00);
    UnpackOne(0xA0);
  }

  ghost function Final(ri: nat, s: Start, zs: seq<seq<int>>): (r: seq<seq<int>>)
    requires Readable(OneBlock(ri), Tables()) && |s.pred| == MAX_COMPS_IN_SCAN && |zs| == 1 && |zs[0]| == 64
    ensures |r| == 1 && |r[0]| == 64
  {
    McuFinal(OneBlock(ri), Tables(), [Need(true, true)], s, zs)
  }

  /** An MCU of this scan is its one block. */
  lemma OneMcu(ri: nat, s: Start, zs: seq<seq<int>>)
    requires Readable(OneBlock(ri), Tables()) && |s.pred| == MAX_COMPS_IN_SCAN && |zs| == 1 && |zs[0]| == 64 && !s.skip && ri <= 65535
    ensures McuEnd(OneBlock(ri), Tables(), s) == Code(ri, s.data, s.n).ac.end
    ensures McuPred(OneBlock(ri), Tables(), [Need(true, true)], s) == s.pred[0 := s.pred[0] + Code(ri, s.data, s.n).diff]
    ensures Code(ri, s.data, s.n).ac.writes == [] ==> Final(ri, s, zs)[0][0] == ToShort(s.pred[0] + Code(ri, s.data, s.n).diff)
  {
    hide CodeOfBlock, Readable, ToShort;
    assert OneBlock(ri).Valid() by { TablesReadable(ri); }
    var cs := Codes(OneBlock(ri), Tables(), s.data, s.n, 0);
    assert cs == [];
    assert Codes(OneBlock(ri), Tables(), s.data, s.n, 1) == [CodeOfBlock(OneBlock(ri), Tables(), s.data, s.n, 0)];
    var needs, all := [Need(true, true)], McuCodes(OneBlock(ri), Tables(), s);
    assert PredAfter(OneBlock(ri), needs, all, s.pred, 0) == s.pred;
    assert PredAfter(OneBlock(ri), needs, all, s.pred, 1) == s.pred[0 := s.pred[0] + all[0].diff];
  }

  function Eight(n: nat): (s: Start) { Start(EightZeros(), n, NoDc(), false) }

  /** Where the decoder has got to in order. */
  function InOrder(ri: nat, marker: nat, k: nat): (e: A.Stand) {
    A.Inside(Eight(2 * k), Books(Segment([0x00], marker, 3), (ri - k) % 0x1_0000_0000, 0))
  }

  /** Such an MCU takes two bits. */
  lemma ZeroMcu(x: A.Stream, marker: nat, k: nat)
    requires x.Valid() && x == Of(x.plan.restartInterval, x.file) && x.plan.restartInterval <= 65535 && k < 4
    ensures var ri := x.plan.restartInterval;
            A.Passed(x, A.Entered(x, InOrder(ri, marker, k)))
            == if ri == k + 1 then A.AtMarker(Segment([0x00], marker, 3), 0) else InOrder(ri, marker, k + 1)
  {
    hide Readable, CodeOfBlock, McuEnd, McuPred, McuFinal;
    var ri := x.plan.restartInterval;
    OneMcu(ri, Eight(2 * k), [seq(64, i => 0)]);
    BlockAt(ri, EightZeros(), 2 * k);
    assert NoDc()[0 := NoDc()[0] + 0] == NoDc();
    assert (((ri - k) % 0x1_0000_0000) - 1) % 0x1_0000_0000 == (ri - (k + 1)) % 0x1_0000_0000;
  }

  /** The first MCUs are of this kind. */
  lemma {:induction false} ZeroMcus(ri: nat, file: seq<nat>, marker: nat, k: nat)
    requires k <= 4 && FourMcus(file, marker) && (ri == 0 || k < ri <= 65535)
    ensures Of(ri, file).Valid() && A.NthStand(Of(ri, file), A.FirstOf(Of(ri, file)), k) == InOrder(ri, marker, k)
  {
    hide Readable, CodeOfBlock, Scan, Unpack, A.NthStand, A.Passed, A.Entered;
    StreamValid(ri, file);
    var x := Of(ri, file);
    if k == 0 {
      BitsAre();
      StandZero(x, A.FirstOf(x));
    } else {
      ZeroMcus(ri, file, marker, k - 1);
      StandNext(x, A.FirstOf(x), k - 1);
      ZeroMcu(x, marker, k - 1);
    }
  }

  lemma StandZero(x: A.Stream, st: A.Stand)
    requires x.Valid()
    ensures A.NthStand(x, st, 0) == st
  {
  }

  /** Where a decoder restored from behind the marker takes itself to be. */
  function RestoredThere(): (r: A.Stand) {
    A.Inside(Start(EightZeros() + Behind(), 8, NoDc(), false), Books(Segment([0xA0], 0xD9, 6), Entry(0, 4).restartsToGo, 0))
  }

  /** An entry made behind the marker after `k` MCUs. */
  function Entry(ri: nat, k: nat): (o: Offset)
    requires k <= 4
  {
    Offset(3 * 32 + 8 - 2 * k, [0, 0, 0], 0, (ri - k) % 0x1_0000, 0)
  }

  /** It is one that the indexing calls make. */
  lemma EntryMade(ri: nat, file: seq<nat>, marker: nat, k: nat)
    requires FourMcus(file, marker) && Scan(file, 3).marker < 256 && k <= 4 && (ri == 0 || k < ri <= 65535)
    ensures Of(ri, file).Valid() && EntryFor(Of(ri, file), |file|, Entry(ri, k), InOrder(ri, marker, k), false)
  {
    hide Readable, Scan, Unpack, Continues, ToShort;
    StreamValid(ri, file);
    EntryContinues(ri, file, marker, k);
    ShortValues();
  }

  lemma EntryContinues(ri: nat, file: seq<nat>, marker: nat, k: nat)
    requires FourMcus(file, marker) && Scan(file, 3).marker < 256 && k <= 4 && (ri == 0 || k < ri <= 65535)
    ensures var seg := Segment([0x00], marker, 3);
            Continues(OneBlock(ri), file, |file|, Entry(ri, k), 2 * k, SegFrom(file, seg, false), DataFrom(file, seg, EightZeros(), false))
  {
    hide Scan, Unpack, Peek;
    var data := DataFrom(file, Segment([0x00], marker, 3), EightZeros(), false);
    ZerosAre(data, 2 * k, 8 - 2 * k);
    assert data[8..] == Unpack(Scan(file, 3).data);
    assert StateOf(Entry(ri, k)) == BitState(3, 0, 8 - 2 * k);
  }

  lemma {:induction false} ZerosAre(data: seq<bool>, n: nat, k: nat)
    requires n + k <= 8 && EightZeros() <= data
    ensures Peek(data, n, k) == 0
  {
    if k > 0 { ZerosAre(data, n, k - 1); }
  }

  /** Restored with it, the decoder goes on behind the marker. */
  lemma ResumedThere()
    ensures Resumed(Of(0, Misleading()), Entry(0, 4), InOrder(0, 0xD9, 4), false, NoDc()) == RestoredThere()
  {
    hide Scan, Unpack;
    SegmentsAre();
    BitsAre();
    assert PredsOf(OneBlock(0), Entry(0, 4), NoDc()) == NoDc();
  }

  lemma BlocksDiffer(zs: seq<seq<int>>)
    requires |zs| == 1 && |zs[0]| == 64
    ensures Of(0, Misleading()).Valid()
    ensures A.Filled(Of(0, Misleading()), RestoredThere(), zs) != A.Filled(Of(0, Misleading()), InOrder(0, 0xD9, 4), zs)
  {
    hide Readable, CodeOfBlock, ToShort, McuEnd, McuFinal, McuPred;
    StreamValid(0, Misleading());
    var e, r := InOrder(0, 0xD9, 4).s, RestoredThere().s;
    OneMcu(0, e, zs);
    OneMcu(0, r, zs);
    BlockAt(0, e.data, 8);
    BlockAt(0, r.data, 8);
    ShortValues();
    assert Final(0, e, zs)[0][0] == 0 && Final(0, r, zs)[0][0] == 1;
  }

  lemma ShortValues()
    ensures ToShort(0) == 0 && ToShort(1) == 1
  {
  }

  // ----- What goes wrong -----

  /**
   The entry for the fifth MCU, which begins at the end of the data: decoding in order finds a zero DC coefficient, a decoder restored
   from behind the marker finds a 1.  For MCUs within their segment `ScanIndex.SeekAndDecode` excludes this.
   */
  lemma MisleadsBeyondTheData(zs: seq<seq<int>>) returns (o: Offset, e: A.Stand)
    requires |zs| == 1 && |zs[0]| == 64
    ensures Of(0, Misleading()).Valid() && e == EnteredAt(Of(0, Misleading()), A.FirstOf(Of(0, Misleading())), 4)
    ensures EntryFor(Of(0, Misleading()), |Misleading()|, o, e, false) && e.Inside? && |o.prevDc| == 3
    ensures A.Filled(Of(0, Misleading()), Resumed(Of(0, Misleading()), o, e, false, NoDc()), zs) != A.Filled(Of(0, Misleading()), e, zs)
  {
    hide A.Filled, A.FirstOf, A.NthStand, EntryFor, RestoredThere, Resumed, FourMcus, Scan;
    SegmentsAre();
    ZeroMcus(0, Misleading(), 0xD9, 4);
    o, e := Entry(0, 4), InOrder(0, 0xD9, 4);
    EntryMade(0, Misleading(), 0xD9, 4);
    ResumedThere();
    BlocksDiffer(zs);
  }

  /**
   The entry for the fourth MCU of a file that ends with the marker: the MCU lies within its segment, yet a decoder restored from behind
   the marker, with two bits left, is stranded: it waits for input for ever.
   */
  lemma StrandsAtTheEnd() returns (o: Offset, e: A.Stand)
    ensures Of(0, Ending()).Valid() && e == EnteredAt(Of(0, Ending()), A.FirstOf(Of(0, Ending())), 3)
    ensures EntryFor(Of(0, Ending()), |Ending()|, o, e, false) && e.Inside? && |o.prevDc| == 3 && Within(Of(0, Ending()), e)
    ensures Stranded(Of(0, Ending()), o, Resumed(Of(0, Ending()), o, e, false, NoDc()))
  {
    hide A.FirstOf, A.NthStand, EntryFor, FourMcus, Scan, Unpack, Readable, CodeOfBlock, McuEnd;
    SegmentsAre();
    BitsAre();
    StreamValid(0, Ending());
    ZeroMcus(0, Ending(), 0xD9, 3);
    o, e := Entry(0, 3), InOrder(0, 0xD9, 3);
    EntryMade(0, Ending(), 0xD9, 3);
    OneMcu(0, e.s, [seq(64, i => 0)]);
    BlockAt(0, e.s.data, 6);
  }

  /** Two restart intervals of four MCUs: behind the first marker the second one follows. */
  function TwoIntervals(): (file: seq<nat>) { [0x00, 0xFF, 0xD0, 0x00, 0xFF, 0xD1] }

  lemma IntervalsAre()
    ensures FourMcus(TwoIntervals(), 0xD0) && Scan(TwoIntervals(), 3) == Segment([0x00], 0xD1, 6)
  {
    var file := TwoIntervals();
    assert SkipFF(file, 2) == 2 && SkipFF(file, 5) == 5;
    assert Scan(file, 1) == Segment([], 0xD0, 3) && Scan(file, 4) == Segment([], 0xD1, 6);
  }

  /**
   The entry for the fourth MCU of the first restart interval: the MCU is decoded well, but then the first marker is due, which a
   decoder restored from behind it does not find again.
   */
  lemma MissesTheMarker() returns (o: Offset, e: A.Stand)
    ensures var x := Of(4, TwoIntervals());
            && x.Valid() && e == EnteredAt(x, A.FirstOf(x), 3) && EntryFor(x, |x.file|, o, e, false) && Within(x, e) && |o.prevDc| == 3
            && !A.Stuck(A.Passed(x, e)) && A.Stuck(A.Passed(x, Resumed(x, o, e, false, NoDc())))
  {
    hide A.FirstOf, A.NthStand, EntryFor, FourMcus, Scan, Unpack, Readable, CodeOfBlock, McuEnd;
    IntervalsAre();
    StreamValid(4, TwoIntervals());
    ZeroMcus(4, TwoIntervals(), 0xD0, 3);
    o, e := Entry(4, 3), InOrder(4, 0xD0, 3);
    EntryMade(4, TwoIntervals(), 0xD0, 3);
    OneMcu(4, e.s, [seq(64, i => 0)]);
    BlockAt(4, e.s.data, 6);
    ZeroMcu(Of(4, TwoIntervals()), 0xD0, 3);
  }
}
