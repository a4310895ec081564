/** How accepted scripts fare in the decoder, and that the recommended script is accepted and sends every bit. */
module Progressions {
  import opened Coefficients
  import opened Scans
  import opened Scripts
  import Seqs

  // ----- start_pass_phuff_decoder -----

  /** What the decoder refuses outright. */
  predicate Bogus(s: ScanInfo) {
    || (if s.ss == 0 then s.se != 0 else s.ss > s.se || s.se >= DCTSIZE2 || |s.comps| != 1)
    || (s.ah != 0 && s.al != s.ah - 1)
    || s.al > 13
  }

  function Expected(last: int): (ah: int) { if last < 0 then 0 else last }

  /** The order of scans that draws no warning. */
  ghost predicate QuietFor(before: seq<ScanInfo>, s: ScanInfo, ci: int) {
    && (s.ss != 0 ==> LastAl(before, ci, 0) >= 0)
    && forall k :: s.ss <= k <= s.se ==> s.ah == Expected(LastAl(before, ci, k))
  }

  ghost predicate Quiet(before: seq<ScanInfo>, s: ScanInfo) { forall i :: 0 <= i < |s.comps| ==> QuietFor(before, s, s.comps[i]) }

  /** One component of the scan: counts the warnings and enters the new bit positions. */
  method EnterQuietly(coefBits: array2<int>, n: nat, s: ScanInfo, j: nat, ghost before: seq<ScanInfo>) returns (warnings: nat)
    requires CompsOk(n, s) && 0 <= s.ss <= s.se < DCTSIZE2 && j < |s.comps| && Entering(coefBits, n, before, s, j)
    modifies coefBits
    ensures warnings == 0 <==> QuietFor(before, s, s.comps[j])
    ensures Entering(coefBits, n, before, s, j + 1)
  {
    hide LastAl;
    NotYetEntered(s, n, j);
    var c := s.comps[j];
    warnings := if s.ss != 0 && coefBits[c, 0] < 0 then 1 else 0;
    ghost var unsent := warnings;
    var coefi := s.ss;
    while coefi <= s.se
      invariant s.ss <= coefi <= s.se + 1 && warnings >= unsent
      invariant forall ci, k :: 0 <= ci < n && 0 <= k < DCTSIZE2 ==>
                  coefBits[ci, k] == if (ci in s.comps[..j] && s.ss <= k <= s.se) || (ci == c && s.ss <= k < coefi) then s.al
                                     else LastAl(before, ci, k)
      invariant warnings == unsent <==> forall k :: s.ss <= k < coefi ==> s.ah == Expected(LastAl(before, c, k))
    {
      var expected := if coefBits[c, coefi] < 0 then 0 else coefBits[c, coefi];
      if s.ah != expected { warnings := warnings + 1; }
      coefBits[c, coefi] := s.al;
      coefi := coefi + 1;
    }
  }

  /** The checks of `start_pass_phuff_decoder`; coef_bits remembers the bit positions of the scans before. */
  method StartProgression(coefBits: array2<int>, n: nat, s: ScanInfo, ghost before: seq<ScanInfo>) returns (bad: bool, warnings: nat)
    requires CompsOk(n, s) && 0 <= s.ss && 0 <= s.se && Mirrors(coefBits, n, before)
    modifies coefBits
    ensures bad <==> Bogus(s)
    ensures !bad ==> Mirrors(coefBits, n, before + [s]) && (warnings == 0 <==> Quiet(before, s))
  {
    hide LastAl, QuietFor;
    warnings := 0;
    bad := false;
    if s.ss == 0 {
      if s.se != 0 { bad := true; }
    } else {
      if s.ss > s.se || s.se >= DCTSIZE2 { bad := true; }
      if |s.comps| != 1 { bad := true; }
    }
    if s.ah != 0 {
      if s.al != s.ah - 1 { bad := true; }
    }
    if s.al > 13 { bad := true; }
    if bad { return; }
    var ci := 0;
    while ci < |s.comps|
      invariant 0 <= ci <= |s.comps| && Entering(coefBits, n, before, s, ci)
      invariant warnings == 0 <==> forall i :: 0 <= i < ci ==> QuietFor(before, s, s.comps[i])
    {
      var w := EnterQuietly(coefBits, n, s, ci, before);
      warnings := warnings + w;
      ci := ci + 1;
    }
    assert s.comps[..|s.comps|] == s.comps;
    LastAlSnoc(before, s);
  }

  /** A scan that `validate_script` lets pass is neither refused nor warned about by the decoder. */
  lemma LegalityCarriesOver(n: nat, before: seq<ScanInfo>, s: ScanInfo)
    requires ProgScanOk(n, before, s)
    ensures !Bogus(s) && Quiet(before, s)
  {
    hide LastAl;
    assert OrderOkFor(before, s, s.comps[0]);
    assert NextBit(s, LastAl(before, s.comps[0], s.ss));
    forall i | 0 <= i < |s.comps| ensures QuietFor(before, s, s.comps[i]) { assert OrderOkFor(before, s, s.comps[i]); }
  }

  /** All coefficients of the scan still have bits to come. */
  ghost predicate Unfinished(before: seq<ScanInfo>, s: ScanInfo) {
    forall i, k :: 0 <= i < |s.comps| && s.ss <= k <= s.se ==> LastAl(before, s.comps[i], k) != 0
  }

  /**
   The two sides agree except in one respect: a scan that the decoder takes without a warning is one that `validate_script` lets pass,
   unless it sends coefficients again of which every bit has been sent, or its bit positions are beyond the limit of 10.
   */
  lemma LegalityIs(n: nat, before: seq<ScanInfo>, s: ScanInfo)
    requires CompsOk(n, s) && 0 <= s.ss && forall ci, k :: -1 <= LastAl(before, ci, k)
    ensures ProgScanOk(n, before, s) <==>
              !Bogus(s) && Quiet(before, s) && Unfinished(before, s) && 0 <= s.ah <= MAX_AH_AL && 0 <= s.al <= MAX_AH_AL
  {
    hide LastAl;
    if ProgScanOk(n, before, s) {
      LegalityCarriesOver(n, before, s);
      forall i, k | 0 <= i < |s.comps| && s.ss <= k <= s.se ensures LastAl(before, s.comps[i], k) != 0 {
        assert OrderOkFor(before, s, s.comps[i]);
        assert NextBit(s, LastAl(before, s.comps[i], k));
      }
    }
    if !Bogus(s) && Quiet(before, s) && Unfinished(before, s) && 0 <= s.ah <= MAX_AH_AL && 0 <= s.al <= MAX_AH_AL {
      forall i | 0 <= i < |s.comps| ensures OrderOkFor(before, s, s.comps[i]) {
        assert QuietFor(before, s, s.comps[i]);
        forall k | s.ss <= k <= s.se ensures NextBit(s, LastAl(before, s.comps[i], k)) {}
      }
    }
  }

  /** The decoder's checks over a whole accepted script: no scan is refused, and none draws a warning. */
  method FollowScript(n: nat, script: seq<ScanInfo>) returns (coefBits: array2<int>, bad: bool, warnings: nat)
    requires n <= MAX_COMPONENTS && Acceptable(n, script) && IsProgressive(script)
    ensures !bad && warnings == 0 && Mirrors(coefBits, n, script)
  {
    hide LastAl, ProgScanOk, Quiet, Bogus;
    coefBits := new int[n, DCTSIZE2]((ci, k) => -1);
    NothingSent(n);
    bad, warnings := false, 0;
    var i := 0;
    assert script[..0] == [];
    assert script[..|script|] == script;
    while i < |script| && !bad
      invariant 0 <= i <= |script| && fresh(coefBits) && Mirrors(coefBits, n, script[..i]) && !bad && warnings == 0
    {
      assert script[..i + 1] == script[..i] + [script[i]];
      assert ScanOk(n, true, script[..i], script[i]);
      LegalityCarriesOver(n, script[..i], script[i]);
      ScanShape(n, script[..i], script[i]);
      var w;
      bad, w := StartProgression(coefBits, n, script[i], script[..i]);
      warnings, i := warnings + w, i + 1;
    }
  }

  lemma ScanShape(n: nat, before: seq<ScanInfo>, s: ScanInfo)
    requires ProgScanOk(n, before, s)
    ensures CompsOk(n, s) && 0 <= s.ss <= s.se < DCTSIZE2
  {
  }

  // ----- jpeg_simple_progression -----

  function OneScan(ci: int, ss: int, se: int, ah: int, al: int): (s: ScanInfo) { ScanInfo([ci], ss, se, ah, al) }

  /** One scan for each of the first `n` components. */
  function EachScans(n: nat, ss: int, se: int, ah: int, al: int): (scans: seq<ScanInfo>)
    ensures |scans| == n
  {
    seq(n, ci => OneScan(ci, ss, se, ah, al))
  }

  function AllComps(n: nat): (comps: seq<int>) { seq(n, ci => ci) }

  function DcScans(n: nat, ah: int, al: int): (scans: seq<ScanInfo>) {
    if n <= MAX_COMPS_IN_SCAN then [ScanInfo(AllComps(n), 0, 0, ah, al)] else EachScans(n, 0, 0, ah, al)
  }

  /** The recommended script. */
  function SimpleScript(n: nat, ycc: bool): (script: seq<ScanInfo>) {
    if n == 3 && ycc then
      DcScans(3, 0, 1)
      + [OneScan(0, 1, 5, 0, 2), OneScan(2, 1, 63, 0, 1), OneScan(1, 1, 63, 0, 1), OneScan(0, 6, 63, 0, 2), OneScan(0, 1, 63, 2, 1)]
      + DcScans(3, 1, 0)
      + [OneScan(2, 1, 63, 1, 0), OneScan(1, 1, 63, 1, 0), OneScan(0, 1, 63, 1, 0)]
    else
      DcScans(n, 0, 1) + EachScans(n, 1, 5, 0, 2) + EachScans(n, 6, 63, 0, 2) + EachScans(n, 1, 63, 2, 1)
      + DcScans(n, 1, 0) + EachScans(n, 1, 63, 1, 0)
  }

  /** The custom script for YCbCr: the other bits of the luminance come last, and Cr comes before Cb. */
  lemma YccIs()
    ensures SimpleScript(3, true)
         == [ScanInfo([0, 1, 2], 0, 0, 0, 1), ScanInfo([0], 1, 5, 0, 2), ScanInfo([2], 1, 63, 0, 1), ScanInfo([1], 1, 63, 0, 1),
             ScanInfo([0], 6, 63, 0, 2), ScanInfo([0], 1, 63, 2, 1), ScanInfo([0, 1, 2], 0, 0, 1, 0), ScanInfo([2], 1, 63, 1, 0),
             ScanInfo([1], 1, 63, 1, 0), ScanInfo([0], 1, 63, 1, 0)]
  {
    assert AllComps(3) == [0, 1, 2];
  }

  /** The all-purpose script, for components that fit one DC scan. */
  lemma AllPurposeScript(n: nat, ci: nat)
    requires ci < n <= 4
    ensures var s := SimpleScript(n, false);
            && |s| == 4 * n + 2
            && s[0].comps == s[3 * n + 1].comps && |s[0].comps| == n && s[0].comps[ci] == ci
            && s[0] == ScanInfo(s[0].comps, 0, 0, 0, 1) && s[1 + ci] == ScanInfo([ci], 1, 5, 0, 2) && s[n + 1 + ci] == ScanInfo([ci], 6, 63, 0, 2)
            && s[2 * n + 1 + ci] == ScanInfo([ci], 1, 63, 2, 1) && s[3 * n + 1] == ScanInfo(s[0].comps, 0, 0, 1, 0)
            && s[3 * n + 2 + ci] == ScanInfo([ci], 1, 63, 1, 0)
  {
  }

  /** `fill_a_scan`. */
  method FillAScan(space: array<ScanInfo>, pos: nat, ci: int, ss: int, se: int, ah: int, al: int) returns (pos': nat)
    requires pos < space.Length
    modifies space
    ensures pos' == pos + 1 && space[..pos'] == old(space[..pos]) + [OneScan(ci, ss, se, ah, al)]
  {
    space[pos] := OneScan(ci, ss, se, ah, al);
    pos' := pos + 1;
    assert space[..pos'] == space[..pos] + [space[pos]];
  }

  /** `fill_scans`. */
  method FillScans(space: array<ScanInfo>, pos: nat, ncomps: nat, ss: int, se: int, ah: int, al: int) returns (pos': nat)
    requires pos + ncomps <= space.Length
    modifies space
    ensures pos' == pos + ncomps && space[..pos'] == old(space[..pos]) + EachScans(ncomps, ss, se, ah, al)
  {
    var ci := 0;
    pos' := pos;
    while ci < ncomps
      invariant 0 <= ci <= ncomps && pos' == pos + ci
      invariant space[..pos'] == old(space[..pos]) + EachScans(ncomps, ss, se, ah, al)[..ci]
    {
      pos' := FillAScan(space, pos', ci, ss, se, ah, al);
      ci := ci + 1;
    }
  }

  /** `fill_dc_scans`. */
  method FillDcScans(space: array<ScanInfo>, pos: nat, ncomps: nat, ah: int, al: int) returns (pos': nat)
    requires pos + |DcScans(ncomps, ah, al)| <= space.Length
    modifies space
    ensures pos' == pos + |DcScans(ncomps, ah, al)| && space[..pos'] == old(space[..pos]) + DcScans(ncomps, ah, al)
  {
    if ncomps <= MAX_COMPS_IN_SCAN {
      var comps := [];
      var ci := 0;
      while ci < ncomps
        invariant 0 <= ci <= ncomps && comps == AllComps(ncomps)[..ci]
      {
        comps := comps + [ci];
        ci := ci + 1;
      }
      assert AllComps(ncomps)[..ncomps] == AllComps(ncomps);
      space[pos] := ScanInfo(comps, 0, 0, ah, al);
      pos' := pos + 1;
      assert space[..pos'] == space[..pos] + [space[pos]];
    } else {
      pos' := FillScans(space, pos, ncomps, 0, 0, ah, al);
    }
  }

  /** `jpeg_simple_progression`: fills exactly the scans it has counted, in space that is reused when it suffices. */
  method SimpleProgression(n: nat, ycc: bool, scriptSpace: array?<ScanInfo>) returns (space: array<ScanInfo>, nscans: nat)
    requires 1 <= n <= MAX_COMPONENTS
    modifies scriptSpace
    ensures nscans == |SimpleScript(n, ycc)| <= space.Length && space[..nscans] == SimpleScript(n, ycc)
    ensures if scriptSpace != null && scriptSpace.Length >= nscans then space == scriptSpace else fresh(space)
  {
    hide SimpleScript;
    CustomCount();
    nscans := if n == 3 && ycc then 10 else if n > MAX_COMPS_IN_SCAN then 6 * n else 2 + 4 * n;
    if scriptSpace != null && scriptSpace.Length >= nscans {
      space := scriptSpace;
    } else {
      space := new ScanInfo[if nscans > 10 then nscans else 10](i => ScanInfo([], 0, 0, 0, 0));
    }
    var pos;
    if n == 3 && ycc {
      pos := FillCustom(space);
    } else {
      pos := FillGeneral(space, n);
      GeneralUnlessYcc(n, ycc);
    }
  }

  /** The all-purpose script. */
  method FillGeneral(space: array<ScanInfo>, n: nat) returns (pos: nat)
    requires 1 <= n && space.Length >= if n > MAX_COMPS_IN_SCAN then 6 * n else 2 + 4 * n
    modifies space
    ensures pos == |SimpleScript(n, false)| == (if n > MAX_COMPS_IN_SCAN then 6 * n else 2 + 4 * n)
    ensures space[..pos] == SimpleScript(n, false)
  {
    hide EachScans, DcScans;
    DcCount(n, 0, 1);
    DcCount(n, 1, 0);
    pos := 0;
    assert space[..0] + DcScans(n, 0, 1) == DcScans(n, 0, 1);
    pos := FillDcScans(space, pos, n, 0, 1);
    pos := FillScans(space, pos, n, 1, 5, 0, 2);
    pos := FillScans(space, pos, n, 6, 63, 0, 2);
    pos := FillScans(space, pos, n, 1, 63, 2, 1);
    pos := FillDcScans(space, pos, n, 1, 0);
    pos := FillScans(space, pos, n, 1, 63, 1, 0);
  }

  lemma DcCount(n: nat, ah: int, al: int)
    ensures |DcScans(n, ah, al)| == if n <= MAX_COMPS_IN_SCAN then 1 else n
  {
  }

  lemma GeneralUnlessYcc(n: nat, ycc: bool)
    requires !(n == 3 && ycc)
    ensures SimpleScript(n, ycc) == SimpleScript(n, false)
  {
  }

  lemma CustomCount()
    ensures |SimpleScript(3, true)| == 10
  {
  }

  /** The custom script for YCbCr images. */
  method FillCustom(space: array<ScanInfo>) returns (pos: nat)
    requires space.Length >= 10
    modifies space
    ensures pos == 10 && space[..10] == SimpleScript(3, true)
  {
    pos := 0;
    pos := FillDcScans(space, pos, 3, 0, 1);
    pos := FillAScan(space, pos, 0, 1, 5, 0, 2);
    pos := FillAScan(space, pos, 2, 1, 63, 0, 1);
    pos := FillAScan(space, pos, 1, 1, 63, 0, 1);
    pos := FillAScan(space, pos, 0, 6, 63, 0, 2);
    pos := FillAScan(space, pos, 0, 1, 63, 2, 1);
    assert pos == 6 && space[..6] == SimpleScript(3, true)[..6];
    pos := FillDcScans(space, pos, 3, 1, 0);
    pos := FillAScan(space, pos, 2, 1, 63, 1, 0);
    pos := FillAScan(space, pos, 1, 1, 63, 1, 0);
    pos := FillAScan(space, pos, 0, 1, 63, 1, 0);
  }

  // ----- The recommended script is accepted -----

  /** An accepted beginning, and what has been sent of each band: DC, coefficients 1 to 5, coefficients 6 to 63. */
  ghost predicate Standing(n: nat, script: seq<ScanInfo>, ci: int, dc: int, low: int, high: int) {
    && LastAl(script, ci, 0) == dc
    && (forall k :: 1 <= k <= 5 ==> LastAl(script, ci, k) == low)
    && (forall k :: 6 <= k <= 63 ==> LastAl(script, ci, k) == high)
  }

  ghost predicate AllStanding(n: nat, script: seq<ScanInfo>, m: nat, dc: int, low: int, high: int) {
    ScansOk(n, true, script) && forall ci :: 0 <= ci < m ==> Standing(n, script, ci, dc, low, high)
  }

  lemma OkSnoc(n: nat, a: seq<ScanInfo>, s: ScanInfo)
    requires ScansOk(n, true, a) && ProgScanOk(n, a, s)
    ensures ScansOk(n, true, a + [s])
  {
    hide ProgScanOk;
    assert (a + [s])[..|a|] == a;
    OkNext(n, true, a + [s], |a|);
    assert (a + [s])[..|a| + 1] == a + [s];
  }

  /** One scan of an AC band: a whole number of the three parts of the spectrum. */
  predicate Band(ss: int, se: int) { (ss == 1 && se == 5) || (ss == 6 && se == 63) || (ss == 1 && se == 63) || (ss == 0 && se == 0) }

  function After(s: ScanInfo, k: int, was: int): (al: int) { if s.ss <= k <= s.se then s.al else was }

  lemma OneMore(n: nat, a: seq<ScanInfo>, ci: nat, ss: int, se: int, ah: int, al: int, dc: int, low: int, high: int)
    requires ScansOk(n, true, a) && ci < n && Band(ss, se) && 0 <= ah <= 2 && 0 <= al <= 2 && Standing(n, a, ci, dc, low, high)
    requires ss != 0 ==> dc >= 0
    requires (ss <= 0 ==> NextBit(OneScan(ci, ss, se, ah, al), dc)) && (ss <= 1 <= se ==> NextBit(OneScan(ci, ss, se, ah, al), low))
    requires ss <= 6 <= se ==> NextBit(OneScan(ci, ss, se, ah, al), high)
    ensures var s := OneScan(ci, ss, se, ah, al);
            && ScansOk(n, true, a + [s]) && Standing(n, a + [s], ci, After(s, 0, dc), After(s, 1, low), After(s, 6, high))
            && forall c, k :: c != ci ==> LastAl(a + [s], c, k) == LastAl(a, c, k)
  {
    hide LastAl;
    var s := OneScan(ci, ss, se, ah, al);
    assert OrderOkFor(a, s, ci);
    OkSnoc(n, a, s);
    LastAlSnoc(a, s);
  }

  /** A scan for each component. */
  lemma {:induction false} EachMore(n: nat, a: seq<ScanInfo>, m: nat, ss: int, se: int, ah: int, al: int, dc: int, low: int, high: int)
    requires AllStanding(n, a, n, dc, low, high) && m <= n && Band(ss, se) && 0 <= ah <= 2 && 0 <= al <= 2
    requires ss != 0 ==> dc >= 0
    requires var s := OneScan(0, ss, se, ah, al);
             && (ss <= 0 ==> NextBit(s, dc)) && (ss <= 1 <= se ==> NextBit(s, low)) && (ss <= 6 <= se ==> NextBit(s, high))
    ensures var s, b := OneScan(0, ss, se, ah, al), a + EachScans(n, ss, se, ah, al)[..m];
            && AllStanding(n, b, m, After(s, 0, dc), After(s, 1, low), After(s, 6, high))
            && forall c, k :: c >= m ==> LastAl(b, c, k) == LastAl(a, c, k)
    decreases m
  {
    hide LastAl, ScansOk;
    var each := EachScans(n, ss, se, ah, al);
    if m == 0 {
      assert a + each[..0] == a;
    } else {
      EachMore(n, a, m - 1, ss, se, ah, al, dc, low, high);
      var b := a + each[..m - 1];
      assert Standing(n, a, m - 1, dc, low, high);
      OneMore(n, b, m - 1, ss, se, ah, al, dc, low, high);
      assert a + each[..m] == b + [OneScan(m - 1, ss, se, ah, al)];
      var s := OneScan(0, ss, se, ah, al);
      forall ci | 0 <= ci < m
        ensures Standing(n, a + each[..m], ci, After(s, 0, dc), After(s, 1, low), After(s, 6, high))
      {
        if ci < m - 1 { assert Standing(n, b, ci, After(s, 0, dc), After(s, 1, low), After(s, 6, high)); }
      }
    }
  }

  lemma EachAll(n: nat, a: seq<ScanInfo>, ss: int, se: int, ah: int, al: int, dc: int, low: int, high: int)
    requires AllStanding(n, a, n, dc, low, high) && Band(ss, se) && 0 <= ah <= 2 && 0 <= al <= 2 && (ss != 0 ==> dc >= 0)
    requires var s := OneScan(0, ss, se, ah, al);
             && (ss <= 0 ==> NextBit(s, dc)) && (ss <= 1 <= se ==> NextBit(s, low)) && (ss <= 6 <= se ==> NextBit(s, high))
    ensures var s := OneScan(0, ss, se, ah, al);
            AllStanding(n, a + EachScans(n, ss, se, ah, al), n, After(s, 0, dc), After(s, 1, low), After(s, 6, high))
  {
    hide LastAl, ScansOk;
    EachMore(n, a, n, ss, se, ah, al, dc, low, high);
    assert EachScans(n, ss, se, ah, al)[..n] == EachScans(n, ss, se, ah, al);
  }

  /** A DC scan, interleaved if there are few components. */
  lemma DcAll(n: nat, a: seq<ScanInfo>, ah: int, al: int, dc: int, low: int, high: int)
    requires 1 <= n && AllStanding(n, a, n, dc, low, high) && 0 <= ah <= 2 && 0 <= al <= 2 && NextBit(OneScan(0, 0, 0, ah, al), dc)
    ensures AllStanding(n, a + DcScans(n, ah, al), n, al, low, high)
  {
    hide LastAl, ScansOk;
    if n <= MAX_COMPS_IN_SCAN {
      var s := ScanInfo(AllComps(n), 0, 0, ah, al);
      forall i | 0 <= i < n ensures OrderOkFor(a, s, s.comps[i]) { assert Standing(n, a, i, dc, low, high); }
      OkSnoc(n, a, s);
      LastAlSnoc(a, s);
      forall ci | 0 <= ci < n ensures Standing(n, a + [s], ci, al, low, high) {
        assert Standing(n, a, ci, dc, low, high);
        assert s.comps[ci] == ci;
      }
    } else {
      EachAll(n, a, 0, 0, ah, al, dc, low, high);
    }
  }

  lemma NothingStands(n: nat)
    ensures AllStanding(n, [], n, -1, -1, -1)
  {
  }

  lemma GeneralScript(n: nat)
    requires 1 <= n
    ensures AllStanding(n, SimpleScript(n, false), n, 0, 0, 0)
  {
    hide AllStanding, DcScans, EachScans;
    NothingStands(n);
    var a := DcScans(n, 0, 1);
    assert [] + a == a;
    DcAll(n, [], 0, 1, -1, -1, -1);
    EachAll(n, a, 1, 5, 0, 2, 1, -1, -1);
    a := a + EachScans(n, 1, 5, 0, 2);
    EachAll(n, a, 6, 63, 0, 2, 1, 2, -1);
    a := a + EachScans(n, 6, 63, 0, 2);
    EachAll(n, a, 1, 63, 2, 1, 1, 2, 2);
    a := a + EachScans(n, 1, 63, 2, 1);
    DcAll(n, a, 1, 0, 1, 1, 1);
    a := a + DcScans(n, 1, 0);
    EachAll(n, a, 1, 63, 1, 0, 0, 1, 1);
  }

  /** Standing of the three components of the custom script. */
  ghost predicate Three(script: seq<ScanInfo>, dc: int, l0: int, h0: int, l1: int, h1: int, l2: int, h2: int) {
    && ScansOk(3, true, script) && Standing(3, script, 0, dc, l0, h0) && Standing(3, script, 1, dc, l1, h1)
    && Standing(3, script, 2, dc, l2, h2)
  }

  lemma ThreeMore(a: seq<ScanInfo>, ci: nat, ss: int, se: int, ah: int, al: int, dc: int, l0: int, h0: int, l1: int, h1: int,
                  l2: int, h2: int)
    requires Three(a, dc, l0, h0, l1, h1, l2, h2) && ci < 3 && Band(ss, se) && ss > 0 && dc >= 0 && 0 <= ah <= 2 && 0 <= al <= 2
    requires var s, low, high := OneScan(ci, ss, se, ah, al), if ci == 0 then l0 else if ci == 1 then l1 else l2,
                                 if ci == 0 then h0 else if ci == 1 then h1 else h2;
             (ss <= 1 <= se ==> NextBit(s, low)) && (ss <= 6 <= se ==> NextBit(s, high))
    ensures var s := OneScan(ci, ss, se, ah, al);
            Three(a + [s], dc, if ci == 0 then After(s, 1, l0) else l0, if ci == 0 then After(s, 6, h0) else h0,
                  if ci == 1 then After(s, 1, l1) else l1, if ci == 1 then After(s, 6, h1) else h1,
                  if ci == 2 then After(s, 1, l2) else l2, if ci == 2 then After(s, 6, h2) else h2)
  {
    hide LastAl, ScansOk;
    OneMore(3, a, ci, ss, se, ah, al, dc, if ci == 0 then l0 else if ci == 1 then l1 else l2,
            if ci == 0 then h0 else if ci == 1 then h1 else h2);
  }

  lemma ThreeDc(a: seq<ScanInfo>, ah: int, al: int, dc: int, l0: int, h0: int, l1: int, h1: int, l2: int, h2: int)
    requires Three(a, dc, l0, h0, l1, h1, l2, h2) && 0 <= ah <= 2 && 0 <= al <= 2 && NextBit(OneScan(0, 0, 0, ah, al), dc)
    ensures Three(a + DcScans(3, ah, al), al, l0, h0, l1, h1, l2, h2)
  {
    hide LastAl, ScansOk;
    var s := ScanInfo(AllComps(3), 0, 0, ah, al);
    assert s.comps == [0, 1, 2];
    forall i | 0 <= i < 3 ensures OrderOkFor(a, s, s.comps[i]) {}
    OkSnoc(3, a, s);
    LastAlSnoc(a, s);
  }

  lemma CustomScript()
    ensures AllStanding(3, SimpleScript(3, true), 3, 0, 0, 0)
  {
    hide Three, DcScans, ScansOk;
    NothingThree();
    var a := DcScans(3, 0, 1);
    assert [] + a == a;
    ThreeDc([], 0, 1, -1, -1, -1, -1, -1, -1, -1);
    ThreeMore(a, 0, 1, 5, 0, 2, 1, -1, -1, -1, -1, -1, -1);
    a := a + [OneScan(0, 1, 5, 0, 2)];
    ThreeMore(a, 2, 1, 63, 0, 1, 1, 2, -1, -1, -1, -1, -1);
    a := a + [OneScan(2, 1, 63, 0, 1)];
    ThreeMore(a, 1, 1, 63, 0, 1, 1, 2, -1, -1, -1, 1, 1);
    a := a + [OneScan(1, 1, 63, 0, 1)];
    ThreeMore(a, 0, 6, 63, 0, 2, 1, 2, -1, 1, 1, 1, 1);
    a := a + [OneScan(0, 6, 63, 0, 2)];
    ThreeMore(a, 0, 1, 63, 2, 1, 1, 2, 2, 1, 1, 1, 1);
    a := a + [OneScan(0, 1, 63, 2, 1)];
    ThreeDc(a, 1, 0, 1, 1, 1, 1, 1, 1, 1);
    a := a + DcScans(3, 1, 0);
    ThreeMore(a, 2, 1, 63, 1, 0, 0, 1, 1, 1, 1, 1, 1);
    a := a + [OneScan(2, 1, 63, 1, 0)];
    ThreeMore(a, 1, 1, 63, 1, 0, 0, 1, 1, 1, 1, 0, 0);
    a := a + [OneScan(1, 1, 63, 1, 0)];
    ThreeMore(a, 0, 1, 63, 1, 0, 0, 1, 1, 0, 0, 0, 0);
    a := a + [OneScan(0, 1, 63, 1, 0)];
    assert SimpleScript(3, true) == a;
    ThreeAll(a);
  }

  lemma NothingThree()
    ensures Three([], -1, -1, -1, -1, -1, -1, -1)
  {
  }

  lemma ThreeAll(a: seq<ScanInfo>)
    requires Three(a, 0, 0, 0, 0, 0, 0, 0)
    ensures AllStanding(3, a, 3, 0, 0, 0)
  {
    hide LastAl, ScansOk;
  }

  /** The recommended script is accepted, is progressive, and leaves every coefficient of every component with Al = 0. */
  lemma SimpleScriptSendsAll(n: nat, ycc: bool)
    requires 1 <= n <= MAX_COMPONENTS
    ensures Acceptable(n, SimpleScript(n, ycc)) && IsProgressive(SimpleScript(n, ycc))
    ensures forall ci, k :: 0 <= ci < n && 0 <= k < DCTSIZE2 ==> LastAl(SimpleScript(n, ycc), ci, k) == 0
  {
    hide ScansOk, LastAl, SimpleScript, Acceptable, IsProgressive;
    if n == 3 && ycc { CustomScript(); } else { GeneralUnlessYcc(n, ycc); GeneralScript(n); }
    StartsWithDc(n, ycc);
    AllSent(n, SimpleScript(n, ycc));
  }

  lemma AllSent(n: nat, a: seq<ScanInfo>)
    requires AllStanding(n, a, n, 0, 0, 0) && IsProgressive(a)
    ensures Acceptable(n, a)
    ensures forall ci, k :: 0 <= ci < n && 0 <= k < DCTSIZE2 ==> LastAl(a, ci, k) == 0
  {
    hide ScansOk, LastAl;
    forall ci, k | 0 <= ci < n && 0 <= k < DCTSIZE2 ensures LastAl(a, ci, k) == 0 {
      assert Standing(n, a, ci, 0, 0, 0);
    }
  }

  lemma StartsWithDc(n: nat, ycc: bool)
    requires 1 <= n
    ensures IsProgressive(SimpleScript(n, ycc))
  {
  }
}
