/** A scan as the reader meets it: segments that restart markers separate, and the marker that ends the last one. */
module Streams {
  import opened BitOutput
  import opened Bits
  import opened Scans
  import opened Segments
  import Seqs

  ghost predicate Framed(done: seq<(seq<nat>, nat)>, m: nat) {
    && IsMarker(m)
    && forall j :: 0 <= j < |done| ==> AreBytes(done[j].0) && done[j].1 == if j < |done| - 1 then RstMarker(j) else m
  }

  /** The j-th segment as the scanner sees it. */
  function SegAt(done: seq<(seq<nat>, nat)>, j: nat): (s: Segment)
    requires j < |done|
  {
    Segment(done[j].0, done[j].1, |Join(done[..j + 1])|)
  }

  /** Each segment is found where the one before it ends. */
  lemma SegScanned(done: seq<(seq<nat>, nat)>, m: nat, rest: seq<nat>, j: nat)
    requires Framed(done, m) && j < |done|
    ensures SegAt(done, j).next <= |Join(done) + rest| && SegAt(done, j).marker != 0
    ensures j == 0 ==> Scan(Join(done) + rest, 0) == SegAt(done, 0)
    ensures j + 1 < |done| ==>
              && SegAt(done, j).marker == RstMarker(j)
              && Scan(Join(done) + rest, SegAt(done, j).next) == SegAt(done, j + 1)
  {
    hide Join, Scan;
    ScanJoin(done, j, rest);
    if j == 0 {
      assert done[..0] == [];
      assert Join([]) == [] by { JoinNothing(); }
    }
    if j + 1 < |done| { ScanJoin(done, j + 1, rest); }
  }

  lemma JoinNothing()
    ensures Join([]) == []
  {
  }

  lemma {:induction false} JoinBytes(done: seq<(seq<nat>, nat)>, m: nat, j: nat)
    requires Framed(done, m) && j <= |done|
    ensures AreBytes(Join(done[..j]))
  {
    hide Stuff;
    if j > 0 {
      JoinBytes(done, m, j - 1);
      JoinNext(done, j - 1);
      StuffBytes(done[j - 1].0);
    }
  }

  lemma {:induction false} StuffBytes(data: seq<nat>)
    requires AreBytes(data)
    ensures AreBytes(Stuff(data))
  {
    if data != [] { StuffBytes(data[..|data| - 1]); }
  }

  lemma FileBytes(done: seq<(seq<nat>, nat)>, m: nat, rest: seq<nat>)
    requires Framed(done, m) && AreBytes(rest)
    ensures AreBytes(Join(done) + rest)
  {
    hide Join, Framed;
    JoinBytes(done, m, |done|);
    Seqs.TakeAll(done);
  }

  /** How many bytes arrive in the given instalments. */
  function Total(grants: seq<nat>): (t: nat) { if grants == [] then 0 else grants[0] + Total(grants[1..]) }

  /** Of what was to arrive, nothing has been lost. */
  ghost predicate Accounted(file: nat, avail0: nat, grants0: seq<nat>, avail: nat, grants: seq<nat>) {
    avail + Total(grants) >= file || avail + Total(grants) >= avail0 + Total(grants0)
  }
}
