/** What an accepted scan script is, told scan by scan without the bookkeeping of `validate_script`. */
module ScriptLaws {
  import opened HuffTables
  import opened Scans
  import opened Scripts

  /** Scan `j` is the last one before scan `i` that covers the coefficient. */
  predicate Latest(script: seq<ScanInfo>, i: nat, ci: int, k: int, j: nat)
    requires i <= |script|
  {
    j < i && script[j].Covers(ci, k) && forall m :: j < m < i ==> !script[m].Covers(ci, k)
  }

  predicate Never(script: seq<ScanInfo>, i: nat, ci: int, k: int)
    requires i <= |script|
  {
    forall m :: 0 <= m < i ==> !script[m].Covers(ci, k)
  }

  /** The components of a scan: one to four, each of the image, in increasing order. */
  predicate LawfulComps(n: nat, s: ScanInfo) {
    && 1 <= |s.comps| <= 4 && (forall x :: 0 <= x < |s.comps| ==> 0 <= s.comps[x] < n)
    && forall x, y :: 0 <= x < y < |s.comps| ==> s.comps[x] < s.comps[y]
  }

  /** A first scan of a coefficient has Ah = 0; a later one has the Al of the one before as its Ah, and one bit less. */
  predicate LawfulBits(script: seq<ScanInfo>, i: nat, ci: int, k: int)
    requires i < |script|
  {
    && (Never(script, i, ci, k) ==> script[i].ah == 0)
    && forall j :: 0 <= j < i && Latest(script, i, ci, k, j) ==> script[i].ah == script[j].al && script[i].al == script[i].ah - 1
  }

  /** The DC coefficients of the component are sent by one of the first `i` scans. */
  predicate DcBefore(script: seq<ScanInfo>, i: nat, ci: int)
    requires i <= |script|
  {
    exists j :: 0 <= j < i && ci in script[j].comps && script[j].ss == 0
  }

  /**
   A progressive scan: DC coefficients by themselves or a band of AC coefficients of one component, whose DC coefficients have been
   sent before; bit positions of at most 10.
   */
  ghost predicate LawfulProgScan(n: nat, script: seq<ScanInfo>, i: nat)
    requires i < |script|
  {
    var s := script[i];
    && LawfulComps(n, s) && 0 <= s.ah <= 10 && 0 <= s.al <= 10
    && (if s.ss == 0 then s.se == 0 else 1 <= s.ss <= s.se <= 63 && |s.comps| == 1)
    && (forall ci, k :: s.Covers(ci, k) ==> LawfulBits(script, i, ci, k))
    && (s.ss > 0 ==> forall ci :: ci in s.comps ==> DcBefore(script, i, ci))
  }

  /** A sequential scan: whole blocks, at once, of components that no other scan has sent. */
  predicate LawfulSeqScan(n: nat, script: seq<ScanInfo>, i: nat)
    requires i < |script|
  {
    var s := script[i];
    && LawfulComps(n, s) && s.ss == 0 && s.se == 63 && s.ah == 0 && s.al == 0
    && forall j, ci :: 0 <= j < i && ci in s.comps ==> ci !in script[j].comps
  }

  /** The script is progressive if its first scan does not send whole blocks; every component is sent. */
  ghost predicate Lawful(n: nat, script: seq<ScanInfo>) {
    && script != []
    && (forall i :: 0 <= i < |script| ==>
          if script[0].ss == 0 && script[0].se == 63 then LawfulSeqScan(n, script, i) else LawfulProgScan(n, script, i))
    && forall ci :: 0 <= ci < n ==> DcBefore(script, |script|, ci)
  }

  // ----- Bookkeeping -----

  lemma {:induction false} LastAlTells(script: seq<ScanInfo>, i: nat, ci: int, k: int)
    requires i <= |script|
    ensures Never(script, i, ci, k) ==> LastAl(script[..i], ci, k) == -1
    ensures forall j :: 0 <= j < i && Latest(script, i, ci, k, j) ==> LastAl(script[..i], ci, k) == script[j].al
    ensures Never(script, i, ci, k) || exists j :: 0 <= j < i && Latest(script, i, ci, k, j)
    decreases i
  {
    if i > 0 {
      LastAlTells(script, i - 1, ci, k);
      assert script[..i] == script[..i - 1] + [script[i - 1]];
      LastAlSnoc(script[..i - 1], script[i - 1]);
      if script[i - 1].Covers(ci, k) {
        assert Latest(script, i, ci, k, i - 1);
      } else if !Never(script, i - 1, ci, k) {
        var j :| 0 <= j < i - 1 && Latest(script, i - 1, ci, k, j);
        assert Latest(script, i, ci, k, j);
      }
    }
  }

  /** Bit positions are not negative, so that -1 means a coefficient that has not been sent. */
  lemma SentAlready(n: nat, script: seq<ScanInfo>, i: nat, ci: int, k: int)
    requires i <= |script| && forall j :: 0 <= j < i ==> script[j].al >= 0
    ensures LastAl(script[..i], ci, k) >= 0 <==> exists j :: 0 <= j < i && script[j].Covers(ci, k)
    ensures LastAl(script[..i], ci, k) < 0 <==> Never(script, i, ci, k)
  {
    LastAlTells(script, i, ci, k);
  }

  lemma BitsMean(n: nat, script: seq<ScanInfo>, i: nat, ci: int, k: int)
    requires i < |script| && forall j :: 0 <= j < i ==> script[j].al >= 0
    ensures NextBit(script[i], LastAl(script[..i], ci, k)) <==> LawfulBits(script, i, ci, k)
  {
    LastAlTells(script, i, ci, k);
    SentAlready(n, script, i, ci, k);
  }

  lemma CompsMean(n: nat, s: ScanInfo)
    ensures CompsOk(n, s) <==> LawfulComps(n, s)
  {
    if CompsOk(n, s) {
      forall x: nat, y: nat | x < y < |s.comps| ensures s.comps[x] < s.comps[y] { Increasing(s, n, x, y); }
    }
  }

  lemma DcMeans(n: nat, script: seq<ScanInfo>, i: nat, ci: int)
    requires i <= |script| && forall j :: 0 <= j < i ==> script[j].al >= 0 && 0 <= script[j].ss <= script[j].se
    ensures LastAl(script[..i], ci, 0) >= 0 <==> DcBefore(script, i, ci)
  {
    hide LastAl;
    SentAlready(n, script, i, ci, 0);
  }

  lemma OrderMeans(n: nat, script: seq<ScanInfo>, i: nat, ci: int)
    requires i < |script| && forall j :: 0 <= j < i ==> script[j].al >= 0 && 0 <= script[j].ss <= script[j].se
    requires ci in script[i].comps
    ensures OrderOkFor(script[..i], script[i], ci) <==>
              && (script[i].ss != 0 ==> DcBefore(script, i, ci))
              && forall k :: script[i].Covers(ci, k) ==> LawfulBits(script, i, ci, k)
  {
    hide LastAl, LawfulBits, NextBit;
    DcMeans(n, script, i, ci);
    forall k ensures NextBit(script[i], LastAl(script[..i], ci, k)) <==> LawfulBits(script, i, ci, k) { BitsMean(n, script, i, ci, k); }
  }

  lemma ProgMeans(n: nat, script: seq<ScanInfo>, i: nat)
    requires i < |script| && forall j :: 0 <= j < i ==> script[j].al >= 0 && 0 <= script[j].ss <= script[j].se
    ensures ProgScanOk(n, script[..i], script[i]) <==> LawfulProgScan(n, script, i)
  {
    hide OrderOkFor, LawfulBits, DcBefore, CompsOk, LawfulComps;
    var s := script[i];
    CompsMean(n, s);
    forall ci | ci in s.comps
      ensures OrderOkFor(script[..i], s, ci) <==>
                (s.ss != 0 ==> DcBefore(script, i, ci)) && forall k :: s.Covers(ci, k) ==> LawfulBits(script, i, ci, k)
    {
      OrderMeans(n, script, i, ci);
    }
    if LawfulProgScan(n, script, i) {
      forall x | 0 <= x < |s.comps| ensures OrderOkFor(script[..i], s, s.comps[x]) { assert s.comps[x] in s.comps; }
    }
    if ProgScanOk(n, script[..i], s) {
      forall ci | ci in s.comps ensures OrderOkFor(script[..i], s, ci) {
        var x :| 0 <= x < |s.comps| && s.comps[x] == ci;
      }
    }
  }

  lemma SeqMeans(n: nat, script: seq<ScanInfo>, i: nat)
    requires i < |script|
    ensures SeqScanOk(n, script[..i], script[i]) <==> LawfulSeqScan(n, script, i)
  {
    hide CompsOk, LawfulComps;
    var s := script[i];
    CompsMean(n, s);
    forall ci ensures Sent(script[..i], ci) <==> exists j :: 0 <= j < i && ci in script[j].comps {
      if j :| 0 <= j < i && ci in script[j].comps { assert script[..i][j] == script[j]; }
    }
    if LawfulSeqScan(n, script, i) {
      forall x | 0 <= x < |s.comps| ensures !Sent(script[..i], s.comps[x]) { assert s.comps[x] in s.comps; }
    }
  }

  /** The bit positions and bands of scans that have been found right. */
  lemma ScansSound(n: nat, script: seq<ScanInfo>, i: nat)
    requires i <= |script|
    requires (forall j :: 0 <= j < i ==> ProgScanOk(n, script[..j], script[j])) || (forall j :: 0 <= j < i ==> LawfulProgScan(n, script, j))
    ensures forall j :: 0 <= j < i ==> script[j].al >= 0 && 0 <= script[j].ss <= script[j].se
  {
    hide OrderOkFor, LawfulBits, DcBefore, CompsOk, LawfulComps;
    forall j | 0 <= j < i ensures script[j].al >= 0 && 0 <= script[j].ss <= script[j].se {
      assert ProgScanOk(n, script[..j], script[j]) || LawfulProgScan(n, script, j);
    }
  }

  lemma {:induction false} ProgScansMean(n: nat, script: seq<ScanInfo>, i: nat)
    requires i <= |script|
    ensures (forall j :: 0 <= j < i ==> ProgScanOk(n, script[..j], script[j])) <==> forall j :: 0 <= j < i ==> LawfulProgScan(n, script, j)
    decreases i
  {
    hide ProgScanOk, LawfulProgScan;
    if i > 0 {
      ProgScansMean(n, script, i - 1);
      if forall j :: 0 <= j < i - 1 ==> ProgScanOk(n, script[..j], script[j]) {
        ScansSound(n, script, i - 1);
        ProgMeans(n, script, i - 1);
      }
    }
  }

  /** `validate_script` accepts exactly the lawful scripts. */
  lemma AcceptableIsLawful(n: nat, script: seq<ScanInfo>)
    ensures Acceptable(n, script) <==> Lawful(n, script)
  {
    hide ProgScanOk, SeqScanOk, LawfulProgScan, LawfulSeqScan, LastAl;
    if script == [] { return; }
    assert script[..|script|] == script;
    if IsProgressive(script) {
      ProgScansMean(n, script, |script|);
      if forall j :: 0 <= j < |script| ==> ProgScanOk(n, script[..j], script[j]) {
        ScansSound(n, script, |script|);
        forall ci ensures LastAl(script, ci, 0) >= 0 <==> DcBefore(script, |script|, ci) { DcMeans(n, script, |script|, ci); }
        ProgComplete(n, script);
      }
      OneKind(n, script);
    } else {
      forall i | 0 <= i < |script| ensures SeqScanOk(n, script[..i], script[i]) <==> LawfulSeqScan(n, script, i) { SeqMeans(n, script, i); }
      OneKind(n, script);
      if forall i :: 0 <= i < |script| ==> LawfulSeqScan(n, script, i) { SeqComplete(n, script); }
    }
  }

  lemma OneKind(n: nat, script: seq<ScanInfo>)
    requires script != []
    ensures ScansOk(n, IsProgressive(script), script) <==>
              if script[0].ss == 0 && script[0].se == 63 then forall i :: 0 <= i < |script| ==> SeqScanOk(n, script[..i], script[i])
              else forall i :: 0 <= i < |script| ==> ProgScanOk(n, script[..i], script[i])
  {
    hide ProgScanOk, SeqScanOk;
  }

  lemma ProgComplete(n: nat, script: seq<ScanInfo>)
    requires forall ci :: LastAl(script, ci, 0) >= 0 <==> DcBefore(script, |script|, ci)
    ensures Complete(n, true, script) <==>
              forall ci :: 0 <= ci < n ==> DcBefore(script, |script|, ci)
  {
    hide LastAl;
  }

  lemma SeqComplete(n: nat, script: seq<ScanInfo>)
    requires forall i :: 0 <= i < |script| ==> LawfulSeqScan(n, script, i)
    ensures Complete(n, false, script) <==>
              forall ci :: 0 <= ci < n ==> DcBefore(script, |script|, ci)
  {
    hide LawfulComps;
    forall i | 0 <= i < |script| ensures script[i].ss == 0 { assert LawfulSeqScan(n, script, i); }
    forall ci ensures Sent(script, ci) <==> DcBefore(script, |script|, ci) {
      if Sent(script, ci) {
        var i :| 0 <= i < |script| && ci in script[i].comps;
        assert script[i].ss == 0;
      }
    }
  }

  /** In particular every component's DC coefficients are sent. */
  lemma EveryComponentSent(n: nat, script: seq<ScanInfo>, ci: nat)
    requires Acceptable(n, script) && ci < n
    ensures exists i :: 0 <= i < |script| && ci in script[i].comps && script[i].ss == 0
  {
    hide Acceptable;
    AcceptableIsLawful(n, script);
    assert DcBefore(script, |script|, ci);
  }
}
