/**
 Entropy-coded segments inside a byte stream: byte stuffing (section B.1.1.5 of ITU-T T.81) and the markers that
 end a segment.
 */
module Segments {
  import opened Bits
  import Seqs

  const RST0 := 0xD0

  predicate IsByte(b: nat) { b < 256 }

  predicate AreBytes(bytes: seq<nat>) { forall b <- bytes :: IsByte(b) }

  function StuffByte(b: nat): (s: seq<nat>) {
    if b == 0xFF then [0xFF, 0] else [b]
  }

  /** The data bytes as they appear in the stream. */
  function Stuff(data: seq<nat>): (s: seq<nat>) {
    if data == [] then [] else Stuff(data[..|data| - 1]) + StuffByte(data[|data| - 1])
  }

  lemma StuffSnoc(a: seq<nat>, x: nat)
    ensures Stuff(a + [x]) == Stuff(a) + StuffByte(x)
  {
    Seqs.SnocInit(a, x);
  }

  lemma {:induction false} StuffConcat(a: seq<nat>, b: seq<nat>)
    ensures Stuff(a + b) == Stuff(a) + Stuff(b)
    decreases |b|
  {
    if b == [] {
      assert a + b == a;
    } else {
      hide *;
      var b', x := b[..|b| - 1], b[|b| - 1];
      Seqs.InitLast(b);
      Seqs.Assoc(a, b', [x]);
      StuffSnoc(a + b', x);
      StuffConcat(a, b');
      StuffSnoc(b', x);
      Seqs.Assoc(Stuff(a), Stuff(b'), StuffByte(x));
    }
  }

  /** Inside a segment every FF byte is followed by a zero byte, so it cannot be taken for a marker. */
  lemma {:induction false} StuffedEscapesFF(data: seq<nat>, i: nat)
    requires i < |Stuff(data)| && Stuff(data)[i] == 0xFF
    ensures i + 1 < |Stuff(data)| && Stuff(data)[i + 1] == 0
  {
    var d, x := data[..|data| - 1], data[|data| - 1];
    if i < |Stuff(d)| {
      StuffedEscapesFF(d, i);
    }
  }

  /** What lies between a stream position and the next marker; `marker` is 0 when the stream ends first. */
  datatype Segment = Segment(data: seq<nat>, marker: nat, next: nat)

  /** The first position at or after `i` that holds no FF. */
  function SkipFF(bytes: seq<nat>, i: nat): (j: nat)
    requires i <= |bytes|
    ensures i <= j <= |bytes|
    ensures forall k :: i <= k < j ==> bytes[k] == 0xFF
    ensures j < |bytes| ==> bytes[j] != 0xFF
    decreases |bytes| - i
  {
    if i < |bytes| && bytes[i] == 0xFF then SkipFF(bytes, i + 1) else i
  }

  function Scan(bytes: seq<nat>, i: nat): (s: Segment)
    requires i <= |bytes|
    ensures i <= s.next <= |bytes|
    decreases |bytes| - i
  {
    if i == |bytes| then Segment([], 0, i)
    else if bytes[i] != 0xFF then
      var s := Scan(bytes, i + 1);
      s.(data := [bytes[i]] + s.data)
    else
      var j := SkipFF(bytes, i + 1);
      if j == |bytes| then Segment([], 0, j)
      else if bytes[j] == 0 then
        var s := Scan(bytes, j + 1);
        s.(data := [0xFF] + s.data)
      else Segment([], bytes[j], j + 1)
  }

  predicate IsMarker(m: nat) { 0 < m < 0xFF }

  /** `w` stands at position `i` of the stream. */
  predicate Occurs(bytes: seq<nat>, i: nat, w: seq<nat>) {
    i + |w| <= |bytes| && forall k :: i <= k < i + |w| ==> bytes[k] == w[k - i]
  }

  lemma {:induction false} FillSkipped(bytes: seq<nat>, i: nat, k: nat)
    requires i + k < |bytes| && (forall j :: i <= j < i + k ==> bytes[j] == 0xFF) && bytes[i + k] != 0xFF
    ensures SkipFF(bytes, i) == i + k
    decreases k
  {
    if k > 0 { FillSkipped(bytes, i + 1, k - 1); }
  }

  /**
   * Any number of FF bytes may stand before a marker code (section B.1.1.2 of ITU-T T.81); before a 00 they are taken for one data
   * byte FF.
   */
  lemma FillBytes(bytes: seq<nat>, i: nat, k: nat)
    requires 0 < k && i + k < |bytes| && (forall j :: i <= j < i + k ==> bytes[j] == 0xFF) && bytes[i + k] != 0xFF
    ensures bytes[i + k] != 0 ==> Scan(bytes, i) == Segment([], bytes[i + k], i + k + 1)
    ensures bytes[i + k] == 0 ==> Scan(bytes, i) == var s := Scan(bytes, i + k + 1); s.(data := [0xFF] + s.data)
  {
    FillSkipped(bytes, i + 1, k - 1);
  }

  lemma StuffCons(data: seq<nat>)
    requires data != []
    ensures Stuff(data) == StuffByte(data[0]) + Stuff(data[1..])
  {
    assert Stuff([data[0]]) == StuffByte(data[0]) by { StuffSnoc([], data[0]); assert [] + [data[0]] == [data[0]]; }
    hide *;
    Seqs.ConsTail(data);
    StuffConcat([data[0]], data[1..]);
  }

  lemma OccursSplit(bytes: seq<nat>, i: nat, a: seq<nat>, b: seq<nat>)
    requires Occurs(bytes, i, a + b)
    ensures i + |a| <= |bytes| && Occurs(bytes, i, a) && Occurs(bytes, i + |a|, b)
  {
    forall k | i <= k < i + |a + b| ensures bytes[k] == (a + b)[k - i] {}
  }

  lemma ScanOneByte(bytes: seq<nat>, i: nat, x: nat)
    requires Occurs(bytes, i, StuffByte(x))
    ensures Scan(bytes, i) == var s := Scan(bytes, i + |StuffByte(x)|); s.(data := [x] + s.data)
  {
    assert bytes[i] == StuffByte(x)[0];
    if x == 0xFF {
      assert bytes[i + 1] == StuffByte(x)[1];
    }
  }

  lemma ScanMarker(bytes: seq<nat>, i: nat, m: nat)
    requires IsMarker(m) && Occurs(bytes, i, [0xFF, m])
    ensures Scan(bytes, i) == Segment([], m, i + 2)
  {
    assert bytes[i] == 0xFF && bytes[i + 1] == m;
  }

  /** Scanning a stuffed segment that a marker ends gives back its data bytes and its marker. */
  lemma {:induction false} ScanStuffed(bytes: seq<nat>, i: nat, data: seq<nat>, m: nat)
    requires IsMarker(m)
    requires Occurs(bytes, i, Stuff(data) + [0xFF, m])
    ensures Scan(bytes, i) == Segment(data, m, i + |Stuff(data)| + 2)
    decreases |data|
  {
    if data == [] {
      ScanMarker(bytes, i, m) by { assert Stuff(data) + [0xFF, m] == [0xFF, m]; }
    } else {
      hide *;
      var d, a := data[1..], StuffByte(data[0]);
      StuffCons(data);
      Seqs.Assoc(a, Stuff(d), [0xFF, m]);
      OccursSplit(bytes, i, a, Stuff(d) + [0xFF, m]);
      ScanStuffed(bytes, i + |a|, d, m);
      ScanOneByte(bytes, i, data[0]);
      Seqs.ConsTail(data);
    }
  }

  /** Finished segments, each with the marker that ends it. */
  function Join(done: seq<(seq<nat>, nat)>): (s: seq<nat>) {
    if done == [] then [] else
      var last := done[|done| - 1];
      Join(done[..|done| - 1]) + (Stuff(last.0) + [0xFF, last.1])
  }

  lemma {:induction false} JoinPrefix(done: seq<(seq<nat>, nat)>, k: nat)
    requires k <= |done|
    ensures |Join(done[..k])| <= |Join(done)|
    ensures Join(done[..k]) == Join(done)[..|Join(done[..k])|]
  {
    if k == |done| {
      assert done[..k] == done;
    } else {
      var d := done[..|done| - 1];
      JoinPrefix(d, k);
      assert d[..k] == done[..k];
    }
  }

  lemma JoinNext(done: seq<(seq<nat>, nat)>, k: nat)
    requires k < |done|
    ensures Join(done[..k + 1]) == Join(done[..k]) + (Stuff(done[k].0) + [0xFF, done[k].1])
  {
    Seqs.TakeOfTake(done, k, k + 1);
  }

  lemma OccursAfter(bytes: seq<nat>, a: seq<nat>, w: seq<nat>)
    requires a + w <= bytes
    ensures Occurs(bytes, |a|, w)
  {
    forall k | |a| <= k < |a| + |w| ensures bytes[k] == w[k - |a|] {
      assert bytes[k] == (a + w)[k];
    }
  }

  /** The k-th segment of a stream is found where the segments before it end. */
  lemma ScanJoin(done: seq<(seq<nat>, nat)>, k: nat, rest: seq<nat>)
    requires k < |done| && IsMarker(done[k].1)
    ensures |Join(done[..k])| < |Join(done[..k + 1])| <= |Join(done)|
    ensures Scan(Join(done) + rest, |Join(done[..k])|) == Segment(done[k].0, done[k].1, |Join(done[..k + 1])|)
  {
    hide Join, Stuff, Scan;
    var bytes := Join(done) + rest;
    JoinPrefix(done, k + 1);
    JoinNext(done, k);
    Seqs.ConcatPrefix(Join(done), rest);
    Seqs.PrefixTrans(Join(done[..k + 1]), Join(done), bytes);
    OccursAfter(bytes, Join(done[..k]), Stuff(done[k].0) + [0xFF, done[k].1]);
    ScanStuffed(bytes, |Join(done[..k])|, done[k].0, done[k].1);
  }
}
