/** The bit layer as a whole: what is written in fields of up to 16 bits is read back in the same fields. */
module BitRoundTrip {
  import opened BitInput
  import opened BitOutput
  import opened Bits
  import opened Restarts
  import opened Segments
  import opened Streams

  /** The low `size` bits of `code`. */
  datatype Field = Field(code: int, size: nat) {
    function Value(): (v: nat) { code % Pow2(size) }
  }

  /** What is written before a marker. */
  datatype Script = Script(fields: seq<Field>, marker: nat) {
    ghost predicate Valid() { IsMarker(marker) && Writable(fields) }
  }

  predicate Writable(fs: seq<Field>) { forall f <- fs :: 1 <= f.size <= 16 }

  /** The bits of the first `k` fields. */
  function FieldBits(fs: seq<Field>, k: nat): (s: seq<bool>)
    requires k <= |fs|
  {
    if k == 0 then [] else FieldBits(fs, k - 1) + ToBits(fs[k - 1].code, fs[k - 1].size)
  }

  lemma {:induction false} FieldBitsPrefix(fs: seq<Field>, j: nat, k: nat)
    requires j <= k <= |fs|
    ensures FieldBits(fs, j) <= FieldBits(fs, k)
  {
    hide ToBits;
    if j < k { FieldBitsPrefix(fs, j, k - 1); }
  }

  /** A field is found where the bits of those before it end. */
  lemma FieldFound(fs: seq<Field>, k: nat, data: seq<bool>)
    requires k < |fs| && FieldBits(fs, |fs|) <= data
    ensures Peek(data, |FieldBits(fs, k)|, fs[k].size) == fs[k].Value()
    ensures |FieldBits(fs, k)| + fs[k].size == |FieldBits(fs, k + 1)| <= |data|
  {
    hide Peek, ToBits, Pow2;
    var before, f := FieldBits(fs, k), fs[k];
    FieldBitsPrefix(fs, k + 1, |fs|);
    PeekField(before, f.code, f.size, []);
    assert before + ToBits(f.code, f.size) + [] == FieldBits(fs, k + 1);
    PeekPrefix(FieldBits(fs, k + 1), data, |before|, f.size);
  }

  // ----- Writing -----

  method WriteFields(w: BitWriter, fs: seq<Field>)
    requires w.Valid() && w.bits == [] && Writable(fs)
    modifies w
    ensures w.Valid() && w.done == old(w.done) && w.bits == FieldBits(fs, |fs|)
  {
    hide ToBits, BitWriter.Valid;
    var k := 0;
    while k < |fs|
      invariant 0 <= k <= |fs| && w.Valid() && w.done == old(w.done) && w.bits == FieldBits(fs, k)
    {
      var _ := w.EmitBits(fs[k].code, fs[k].size);
      k := k + 1;
    }
  }

  /** The finished segments are those of the first `k` scripts. */
  ghost predicate Written(done: seq<(seq<nat>, nat)>, scripts: seq<Script>, k: nat)
    requires k <= |scripts|
  {
    |done| == k && forall i :: 0 <= i < k ==> SegmentOf(done[i], scripts[i])
  }

  ghost predicate SegmentOf(s: (seq<nat>, nat), script: Script) {
    AreBytes(s.0) && Unpack(s.0) == Padded(FieldBits(script.fields, |script.fields|)) && s.1 == script.marker
  }

  lemma AsMany(done: seq<(seq<nat>, nat)>, scripts: seq<Script>)
    requires Written(done, scripts, |scripts|)
    ensures |done| == |scripts|
  {
  }

  /** Each script: its fields, a flush, and the marker. */
  method WriteScripts(scripts: seq<Script>) returns (w: BitWriter)
    requires forall s <- scripts :: s.Valid()
    ensures fresh(w) && w.Valid() && w.bits == [] && w.out == Join(w.done) && Written(w.done, scripts, |scripts|)
  {
    hide FieldBits, Padded, Unpack, Accumulates;
    w := new BitWriter();
    var k := 0;
    while k < |scripts|
      invariant 0 <= k <= |scripts| && fresh(w) && w.Valid() && w.bits == [] && Written(w.done, scripts, k)
    {
      assert scripts[k].Valid();
      WriteFields(w, scripts[k].fields);
      w.FlushBits();
      w.EmitMarker(scripts[k].marker);
      k := k + 1;
    }
    NothingPending(w);
  }

  lemma NothingPending(w: BitWriter)
    requires w.Valid() && w.bits == []
    ensures w.out == Join(w.done)
  {
    assert Join(w.done) + [] == Join(w.done);
  }

  // ----- Reading -----

  /** Reads fields of the given sizes, as many as the input delivered so far allows. */
  method ReadFields(src: BitSource, st: BitState, fs: seq<Field>, from: nat) returns (vs: seq<nat>, st': BitState)
    requires Writable(fs) && FieldBits(fs, |fs|) <= src.data && from <= |fs| && src.At(st, |FieldBits(fs, from)|) && !src.insufficient
    modifies src`unreadMarker, src`insufficient
    ensures from + |vs| <= |fs| && forall i :: 0 <= i < |vs| ==> vs[i] == fs[from + i].Value()
    ensures src.At(st', |FieldBits(fs, from + |vs|)|) && !src.insufficient
    ensures src.Delivered() ==> from + |vs| == |fs|
  {
    hide BitSource.At, FieldBits, Peek, Field.Value;
    vs, st' := [], st;
    while from + |vs| < |fs|
      invariant from + |vs| <= |fs| && forall i :: 0 <= i < |vs| ==> vs[i] == fs[from + i].Value()
      invariant src.At(st', |FieldBits(fs, from + |vs|)|) && !src.insufficient
    {
      var k := from + |vs|;
      FieldFound(fs, k, src.data);
      var ok, v, next := src.GetBits(st', fs[k].size, |FieldBits(fs, k)|);
      if !ok { return; }
      vs, st' := vs + [v], next;
    }
  }

  /** Where segment `k` begins, and what is found there. */
  lemma ScriptFound(done: seq<(seq<nat>, nat)>, scripts: seq<Script>, k: nat, rest: seq<nat>)
    requires (forall s <- scripts :: s.Valid()) && Written(done, scripts, |scripts|) && k < |scripts|
    ensures |Join(done[..k])| <= |Join(done) + rest|
    ensures var seg, bits := Scan(Join(done) + rest, |Join(done[..k])|), FieldBits(scripts[k].fields, |scripts[k].fields|);
            && seg.marker == scripts[k].marker && Unpack(seg.data) == Padded(bits) && seg.next == |Join(done[..k + 1])|
  {
    hide Join, Scan, Unpack, Padded, FieldBits;
    assert scripts[k].Valid() && SegmentOf(done[k], scripts[k]);
    ScanJoin(done, k, rest);
  }

  /** The values of a script's fields. */
  predicate Values(script: Script, vs: seq<nat>) {
    |vs| == |script.fields| && forall i :: 0 <= i < |vs| ==> vs[i] == script.fields[i].Value()
  }

  /** What may be left over at the end of a segment. */
  predicate Filling(left: seq<bool>) { |left| <= 7 && left == Ones(|left|) }

  /** A segment that begins at `pos`: its fields, and where the next one begins. */
  method ReadScript(file: seq<nat>, pos: nat, script: Script) returns (vs: seq<nat>, ghost left: seq<bool>, pos': nat)
    requires AreBytes(file) && pos <= |file| && script.Valid()
    requires Scan(file, pos).marker == script.marker
    requires Unpack(Scan(file, pos).data) == Padded(FieldBits(script.fields, |script.fields|))
    ensures Values(script, vs) && pos' == Scan(file, pos).next
    ensures Filling(left)
  {
    hide FieldBits, Scan, Unpack, Field.Value;
    var src := new BitSource(file, |file|, pos);
    var st := BitState(pos, 0, 0);
    var fs := script.fields;
    FirstBit(src, st);
    NoFields(fs);
    vs, st := ReadFields(src, st, fs, 0);
    left := src.data[|FieldBits(fs, |fs|)|..];
    pos' := st.pos;
    if src.unreadMarker == 0 {
      var ok, marker;
      ok, marker, pos' := NextMarker(src, st.pos);
    }
  }

  lemma NoFields(fs: seq<Field>)
    ensures FieldBits(fs, 0) == []
  {
  }

  lemma FirstBit(src: BitSource, st: BitState)
    requires src.avail <= |src.file| && AreBytes(src.file) && src.unreadMarker == 0 && !src.insufficient
    requires st.left == 0 && st.pos <= src.avail && src.seg == Scan(src.file, st.pos) && src.data == Unpack(src.seg.data)
    ensures src.At(st, 0)
  {
    hide Scan, Unpack;
    ScanByteMarker(src.file, st.pos);
    assert src.data[0..] == src.data;
  }

  /**
   The bits come back: whatever fields of 1 to 16 bits are written, with flushes and markers between them, the segments are found one
   after the other, each field is read with the value that its low bits had, and at most seven one-bits remain in a segment.
   */
  method FieldsComeBack(scripts: seq<Script>, rest: seq<nat>) returns (all: seq<seq<nat>>, ghost lefts: seq<seq<bool>>)
    requires (forall s <- scripts :: s.Valid()) && AreBytes(rest)
    ensures |all| == |scripts| && forall k :: 0 <= k < |all| ==> Values(scripts[k], all[k])
    ensures |lefts| == |scripts| && forall k :: 0 <= k < |lefts| ==> Filling(lefts[k])
  {
    hide FieldBits, Join, Scan, Unpack, Values, Filling, BitWriter.Valid, Written;
    var w := WriteScripts(scripts);
    ghost var done := w.done;
    BytesWritten(done, scripts, |scripts|);
    JoinNothing();
    assert |done| == |scripts| by { AsMany(done, scripts); }
    assert done[..|done|] == done && done[..0] == [];
    var file, pos := w.out + rest, 0;
    all, lefts := [], [];
    while |all| < |scripts|
      invariant |all| == |lefts| <= |scripts| && forall k :: 0 <= k < |all| ==> Values(scripts[k], all[k])
      invariant forall k :: 0 <= k < |lefts| ==> Filling(lefts[k])
      invariant pos == |Join(done[..|all|])| <= |file|
    {
      ScriptFound(done, scripts, |all|, rest);
      assert scripts[|all|].Valid();
      var vs, left, next := ReadScript(file, pos, scripts[|all|]);
      all, lefts, pos := all + [vs], lefts + [left], next;
    }
  }

  lemma {:induction false} BytesWritten(done: seq<(seq<nat>, nat)>, scripts: seq<Script>, k: nat)
    requires (forall s <- scripts :: s.Valid()) && Written(done, scripts, |scripts|) && k <= |scripts|
    ensures AreBytes(Join(done[..k]))
  {
    hide FieldBits, Unpack, Stuff;
    if k > 0 {
      assert SegmentOf(done[k - 1], scripts[k - 1]) && scripts[k - 1].Valid();
      BytesWritten(done, scripts, k - 1);
      JoinNext(done, k - 1);
      StuffBytes(done[k - 1].0);
    }
  }
}
