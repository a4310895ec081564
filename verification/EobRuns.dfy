/**
 End-of-band runs (figures G.3 to G.8 of ITU-T T.81): an EOB symbol that ends the bands of many blocks, and correction
 bits that wait for it.  The history of EOBRUN and BE is a function of the blocks alone.
 */
module EobRuns {
  import opened AcRefine
  import opened Bits
  import opened Coefficients
  import opened Tokens
  import Seqs

  const MAX_CORR_BITS := 1000
  const MAX_EOBRUN := 0x7FFF

  /** How a band is coded: tokens up to its last coded coefficient, correction bits after it, and whether it needs an EOB. */
  datatype BandCoding = BandCoding(head: seq<Token>, tail: seq<nat>, eob: bool) {
    predicate Good() {
      |tail| <= 63 && (!eob ==> head != [] && tail == []) && forall b <- tail :: b <= 1
    }
  }

  /** A band that ends with a coefficient, or the bands of a whole EOB run. */
  datatype Chunk = Plain(code: BandCoding) | Run(codes: seq<BandCoding>) {
    function Codes(): (cs: seq<BandCoding>) { if Plain? then [code] else codes }

    ghost predicate Good() {
      && (forall c <- Codes() :: c.Good())
      && if Plain? then !code.eob
         else 1 <= |codes| <= MAX_EOBRUN && (forall i :: 0 <= i < |codes| ==> codes[i].eob && (i > 0 ==> codes[i].head == []))
    }
  }

  /** The correction bits of a run, in order. */
  function Tails(run: seq<BandCoding>): (bits: seq<nat>) {
    if run == [] then [] else Tails(run[..|run| - 1]) + run[|run| - 1].tail
  }

  /** The EOBn symbol for a run of `n` bands, with the bits of its length. */
  function EobTokens(t: nat, n: nat): (toks: seq<Token>)
    requires n > 0
  {
    var nbits: nat := NumBits(n) - 1;
    if nbits == 0 then [Sym(t, 0)] else [Sym(t, nbits * 16), Raw(n, nbits)]
  }

  function ChunkTokens(t: nat, c: Chunk): (toks: seq<Token>) {
    if c.Plain? then c.code.head
    else if c.codes == [] then []
    else c.codes[0].head + EobTokens(t, |c.codes|) + BitTokens(Tails(c.codes))
  }

  function ChunksTokens(t: nat, chunks: seq<Chunk>): (toks: seq<Token>) {
    if chunks == [] then [] else ChunksTokens(t, chunks[..|chunks| - 1]) + ChunkTokens(t, chunks[|chunks| - 1])
  }

  /** Chunks that have been emitted, and the bands of the pending EOB run. */
  datatype RunState = RunState(chunks: seq<Chunk>, run: seq<BandCoding>) {
    ghost predicate Valid() {
      && (forall c <- chunks :: c.Good()) && (forall c <- run :: c.Good())
      && |run| < MAX_EOBRUN && |Tails(run)| <= MAX_CORR_BITS - DCTSIZE2 + 1
      && forall i :: 0 <= i < |run| ==> run[i].eob && (i > 0 ==> run[i].head == [])
    }
  }

  /** What has reached the output: of a pending run, the tokens before the end of its first band. */
  function Emitted(t: nat, s: RunState): (toks: seq<Token>) {
    ChunksTokens(t, s.chunks) + if s.run == [] then [] else s.run[0].head
  }

  /** The effect of `emit_eobrun`. */
  function Flush(s: RunState): (s': RunState) {
    if s.run == [] then s else RunState(s.chunks + [Run(s.run)], [])
  }

  function MustFlush(s: RunState): (b: bool) {
    |s.run| == MAX_EOBRUN || |Tails(s.run)| > MAX_CORR_BITS - DCTSIZE2 + 1
  }

  /** A band that needs an EOB joins the run; a full run is forced out. */
  function Join(s: RunState, c: BandCoding): (s': RunState) {
    var s1 := RunState(s.chunks, s.run + [c]);
    if MustFlush(s1) then Flush(s1) else s1
  }

  /** The effect of a whole block. */
  function Absorb(s: RunState, c: BandCoding): (s': RunState) {
    if c.head == [] then Join(s, c)
    else if c.eob then Join(Flush(s), c)
    else RunState(Flush(s).chunks + [Plain(c)], [])
  }

  function AbsorbAll(codes: seq<BandCoding>): (s: RunState) {
    if codes == [] then RunState([], []) else Absorb(AbsorbAll(codes[..|codes| - 1]), codes[|codes| - 1])
  }

  lemma AbsorbSnoc(codes: seq<BandCoding>, c: BandCoding)
    ensures AbsorbAll(codes + [c]) == Absorb(AbsorbAll(codes), c)
  {
    hide Absorb;
    Seqs.SnocInit(codes, c);
  }

  lemma TailsSnoc(run: seq<BandCoding>, c: BandCoding)
    ensures Tails(run + [c]) == Tails(run) + c.tail
  {
    Seqs.SnocInit(run, c);
  }

  lemma ChunksSnoc(t: nat, chunks: seq<Chunk>, c: Chunk)
    ensures ChunksTokens(t, chunks + [c]) == ChunksTokens(t, chunks) + ChunkTokens(t, c)
  {
    hide ChunkTokens;
    Seqs.SnocInit(chunks, c);
  }

  /** Forcing out a run appends its EOB symbol and its correction bits. */
  lemma FlushEmits(t: nat, s: RunState)
    requires s.run != []
    ensures Emitted(t, Flush(s)) == Emitted(t, s) + (EobTokens(t, |s.run|) + BitTokens(Tails(s.run)))
  {
    hide EobTokens, Tails, BitTokens;
    ChunksSnoc(t, s.chunks, Run(s.run));
    var a, h, e, b := ChunksTokens(t, s.chunks), s.run[0].head, EobTokens(t, |s.run|), BitTokens(Tails(s.run));
    Seqs.Assoc(h, e, b);
    Seqs.Assoc(a, h, e + b);
    assert ChunksTokens(t, s.chunks + [Run(s.run)]) + [] == ChunksTokens(t, s.chunks + [Run(s.run)]);
  }

  lemma FlushValid(s: RunState)
    requires s.Valid()
    ensures Flush(s).Valid() && Flush(s).run == []
  {
    hide Tails;
    assert Tails([]) == [] by { NoTails(); }
    if s.run != [] { assert Run(s.run).Good(); }
  }

  lemma NoTails()
    ensures Tails([]) == []
  {
  }

  /** EOBRUN stays below 0x7FFF and BE at most 937, so that the next block's bits fit the buffer. */
  lemma AbsorbValid(s: RunState, c: BandCoding)
    requires s.Valid() && c.Good()
    ensures Absorb(s, c).Valid()
  {
    hide Tails, BandCoding.Good;
    NoTails();
    FlushValid(s);
    var f := Flush(s);
    SomethingSent(c);
    if c.head == [] {
      JoinValid(s, c);
    } else if c.eob {
      JoinValid(f, c);
    } else {
      assert Plain(c).Codes() == [c];
      assert Plain(c).Good();
    }
  }

  lemma JoinValid(s: RunState, c: BandCoding)
    requires s.Valid() && c.Good() && c.eob && (s.run != [] ==> c.head == [])
    ensures Join(s, c).Valid()
  {
    hide Tails, BandCoding.Good;
    NoTails();
    var s1 := RunState(s.chunks, s.run + [c]);
    if MustFlush(s1) { assert Run(s1.run).Good(); }
  }

  lemma {:induction false} AbsorbAllValid(codes: seq<BandCoding>)
    requires forall c <- codes :: c.Good()
    ensures AbsorbAll(codes).Valid()
  {
    hide Absorb, BandCoding.Good;
    if codes == [] {
      NoTails();
    } else {
      AbsorbAllValid(codes[..|codes| - 1]);
      AbsorbValid(AbsorbAll(codes[..|codes| - 1]), codes[|codes| - 1]);
    }
  }

  // ----- Where each band's code is found -----

  function AllCodes(chunks: seq<Chunk>): (cs: seq<BandCoding>) {
    if chunks == [] then [] else AllCodes(chunks[..|chunks| - 1]) + chunks[|chunks| - 1].Codes()
  }

  lemma CodesSnoc(chunks: seq<Chunk>, c: Chunk)
    ensures AllCodes(chunks + [c]) == AllCodes(chunks) + c.Codes()
  {
    Seqs.SnocInit(chunks, c);
  }

  lemma FlushKeeps(s: RunState)
    ensures AllCodes(Flush(s).chunks) + Flush(s).run == AllCodes(s.chunks) + s.run
  {
    if s.run != [] {
      CodesSnoc(s.chunks, Run(s.run));
      assert AllCodes(s.chunks + [Run(s.run)]) + [] == AllCodes(s.chunks + [Run(s.run)]);
    }
  }

  lemma AbsorbKeeps(s: RunState, c: BandCoding)
    requires c.Good()
    ensures AllCodes(Absorb(s, c).chunks) + Absorb(s, c).run == AllCodes(s.chunks) + s.run + [c]
  {
    hide Tails, BandCoding.Good, AllCodes;
    var f := Flush(s);
    FlushKeeps(s);
    Seqs.Assoc(AllCodes(s.chunks), s.run, [c]);
    Seqs.Assoc(AllCodes(f.chunks), f.run, [c]);
    FlushKeeps(RunState(s.chunks, s.run + [c]));
    FlushKeeps(RunState(f.chunks, f.run + [c]));
    if c.head != [] && !c.eob {
      CodesSnoc(f.chunks, Plain(c));
      assert AllCodes(f.chunks) + [] == AllCodes(f.chunks);
      assert AllCodes(f.chunks + [Plain(c)]) + [] == AllCodes(f.chunks + [Plain(c)]);
    } else {
      assert c.eob || c.head != [] by { SomethingSent(c); }
    }
  }

  lemma SomethingSent(c: BandCoding)
    requires c.Good()
    ensures c.eob || c.head != []
  {
  }

  // ----- The decoder's view -----

  /** What comes before a band in the stream, and the EOBRUN that is left when it is reached. */
  datatype Place = Place(toks: seq<Token>, eobrun: nat)

  /** Within a chunk, before its i-th band. */
  function LeadIn(t: nat, c: Chunk, i: nat): (p: Place)
    requires i <= |c.Codes()|
  {
    if c.Plain? || i == 0 then Place([], 0)
    else Place(c.codes[0].head + EobTokens(t, |c.codes|) + BitTokens(Tails(c.codes[..i])), |c.codes| - i)
  }

  /** Before the i-th band of all. */
  function Lead(t: nat, chunks: seq<Chunk>, i: nat): (p: Place)
    requires i < |AllCodes(chunks)|
    decreases |chunks|
  {
    var before, last := chunks[..|chunks| - 1], chunks[|chunks| - 1];
    if i < |AllCodes(before)| then Lead(t, before, i)
    else
      var p := LeadIn(t, last, i - |AllCodes(before)|);
      p.(toks := ChunksTokens(t, before) + p.toks)
  }

  /** A band takes `used` from the stream and changes the EOBRUN from `e` to `e'`. */
  ghost predicate Consumes(t: nat, c: BandCoding, e: nat, used: seq<Token>, e': nat) {
    if e > 0 then c.head == [] && c.eob && used == BitTokens(c.tail) && e' == e - 1
    else if c.eob then e' < MAX_EOBRUN && used == c.head + EobTokens(t, e' + 1) + BitTokens(c.tail)
    else used == c.head && e' == 0
  }

  /** Some stretch of `toks` after `lead` is taken by band `c`, which leaves `next`. */
  ghost predicate Follows(t: nat, c: BandCoding, lead: Place, next: Place, used: seq<Token>) {
    next.toks == lead.toks + used && Consumes(t, c, lead.eobrun, used, next.eobrun)
  }

  lemma BitTokensConcat(a: seq<nat>, b: seq<nat>)
    ensures BitTokens(a + b) == BitTokens(a) + BitTokens(b)
  {
  }

  lemma {:induction false} TailsPrefix(run: seq<BandCoding>, k: nat)
    requires k <= |run|
    ensures Tails(run[..k]) <= Tails(run)
  {
    if k == |run| {
      assert run[..k] == run;
    } else {
      TailsPrefix(run[..|run| - 1], k);
      assert run[..|run| - 1][..k] == run[..k];
    }
  }

  lemma RunPrefix(t: nat, c: Chunk, k: nat)
    requires c.Run? && 0 < k <= |c.codes|
    ensures c.codes[0].head + EobTokens(t, |c.codes|) + BitTokens(Tails(c.codes[..k])) <= ChunkTokens(t, c)
  {
    hide EobTokens, Tails;
    TailsPrefix(c.codes, k);
    assert BitTokens(Tails(c.codes[..k])) <= BitTokens(Tails(c.codes));
  }

  lemma HasCodes(c: Chunk)
    requires c.Good()
    ensures |c.Codes()| >= 1
  {
  }

  /** What follows the band at place `i` of a chunk. */
  function LeadOut(t: nat, c: Chunk, i: nat): (p: Place)
    requires i < |c.Codes()|
  {
    if i + 1 < |c.Codes()| then LeadIn(t, c, i + 1) else Place(ChunkTokens(t, c), 0)
  }

  lemma RunFirst(t: nat, c: Chunk) returns (used: seq<Token>)
    requires c.Run? && c.Good()
    ensures c.codes[0].Good() && Follows(t, c.codes[0], LeadIn(t, c, 0), LeadOut(t, c, 0), used)
  {
    hide EobTokens, Tails, BitTokens, BandCoding.Good;
    assert c.codes[0] in c.Codes();
    assert c.codes[..1] == [] + [c.codes[0]];
    NoTails();
    TailsSnoc([], c.codes[0]);
    assert [] + c.codes[0].tail == c.codes[0].tail;
    used := c.codes[0].head + EobTokens(t, |c.codes|) + BitTokens(c.codes[0].tail);
    assert [] + used == used;
    if |c.codes| == 1 { assert c.codes[..1] == c.codes; }
  }

  lemma RunNext(t: nat, c: Chunk, i: nat) returns (used: seq<Token>)
    requires c.Run? && c.Good() && 0 < i < |c.codes|
    ensures c.codes[i].Good() && Follows(t, c.codes[i], LeadIn(t, c, i), LeadOut(t, c, i), used)
  {
    hide EobTokens, Tails, BitTokens, BandCoding.Good;
    assert c.codes[i] in c.Codes();
    assert c.codes[..i + 1] == c.codes[..i] + [c.codes[i]];
    TailsSnoc(c.codes[..i], c.codes[i]);
    BitTokensConcat(Tails(c.codes[..i]), c.codes[i].tail);
    used := BitTokens(c.codes[i].tail);
    Seqs.Assoc(c.codes[0].head + EobTokens(t, |c.codes|), BitTokens(Tails(c.codes[..i])), used);
    if i + 1 == |c.codes| { assert c.codes[..i + 1] == c.codes; }
  }

  /** The band at place `i` of a chunk. */
  lemma ChunkStep(t: nat, c: Chunk, i: nat) returns (used: seq<Token>)
    requires c.Good() && i < |c.Codes()|
    ensures c.Codes()[i].Good() && Follows(t, c.Codes()[i], LeadIn(t, c, i), LeadOut(t, c, i), used)
    ensures LeadOut(t, c, i).toks <= ChunkTokens(t, c)
  {
    if c.Plain? {
      assert c.code in c.Codes();
      used := c.code.head;
      hide BandCoding.Good;
      assert [] + used == used;
    } else {
      hide EobTokens, Tails, BitTokens, BandCoding.Good, Follows;
      if i == 0 { used := RunFirst(t, c); } else { used := RunNext(t, c, i); }
      RunPrefix(t, c, i + 1);
    }
  }

  lemma LeadInStart(t: nat, c: Chunk)
    ensures LeadIn(t, c, 0) == Place([], 0)
  {
  }

  /** Each band follows on the one before, and the last one ends the stream. */
  lemma {:induction false} LeadStep(t: nat, chunks: seq<Chunk>, i: nat) returns (used: seq<Token>, next: Place)
    requires (forall c <- chunks :: c.Good()) && i < |AllCodes(chunks)|
    ensures AllCodes(chunks)[i].Good() && Follows(t, AllCodes(chunks)[i], Lead(t, chunks, i), next, used)
    ensures i + 1 < |AllCodes(chunks)| ==> next == Lead(t, chunks, i + 1)
    ensures i + 1 == |AllCodes(chunks)| ==> next == Place(ChunksTokens(t, chunks), 0)
    ensures next.toks <= ChunksTokens(t, chunks)
    decreases |chunks|
  {
    hide EobTokens, Tails, BitTokens, BandCoding.Good, LeadIn, ChunkTokens, Chunk.Codes, Chunk.Good, Follows;
    var before, last := chunks[..|chunks| - 1], chunks[|chunks| - 1];
    var n := |AllCodes(before)|;
    assert last in chunks;
    HasCodes(last);
    if i < n {
      used, next := LeadStep(t, before, i);
      if i + 1 == n && n < |AllCodes(chunks)| {
        LeadInStart(t, last);
        assert ChunksTokens(t, before) + [] == ChunksTokens(t, before);
      }
      Seqs.ConcatPrefix(ChunksTokens(t, before), ChunkTokens(t, last));
      Seqs.PrefixTrans(next.toks, ChunksTokens(t, before), ChunksTokens(t, chunks));
    } else {
      used := ChunkStep(t, last, i - n);
      next := LeadOut(t, last, i - n).(toks := ChunksTokens(t, before) + LeadOut(t, last, i - n).toks);
      FollowsAfter(t, AllCodes(chunks)[i], LeadIn(t, last, i - n), LeadOut(t, last, i - n), used, ChunksTokens(t, before));
      Seqs.ConcatPrefix(ChunksTokens(t, before), ChunkTokens(t, last));
      PrefixAfter(ChunksTokens(t, before), LeadOut(t, last, i - n).toks, ChunkTokens(t, last));
    }
  }

  lemma PrefixAfter(a: seq<Token>, b: seq<Token>, c: seq<Token>)
    requires b <= c
    ensures a + b <= a + c
  {
  }

  lemma FollowsAfter(t: nat, c: BandCoding, lead: Place, next: Place, used: seq<Token>, before: seq<Token>)
    requires Follows(t, c, lead, next, used)
    ensures Follows(t, c, lead.(toks := before + lead.toks), next.(toks := before + next.toks), used)
  {
    hide Consumes;
    Seqs.Assoc(before, lead.toks, used);
  }
}
