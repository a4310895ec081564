/**
 Scan scripts: what `validate_script` accepts, what `start_pass_phuff_decoder` makes of it, and the script that
 `jpeg_simple_progression` proposes.
 */
module Scripts {
  import opened Coefficients
  import opened HuffTables
  import opened Scans
  import Seqs

  const MAX_COMPONENTS := 10
  const MAX_AH_AL := 10

  /** `jpeg_scan_info`: the components of a scan, its spectral band and its bit positions. */
  datatype ScanInfo = ScanInfo(comps: seq<int>, ss: int, se: int, ah: int, al: int) {
    predicate Covers(ci: int, k: int) { ci in comps && ss <= k <= se }
  }

  /** The Al with which coefficient `k` of component `ci` was sent last; -1 if it has not been sent. */
  function LastAl(script: seq<ScanInfo>, ci: int, k: int): (al: int) {
    if script == [] then -1 else
      var s := script[|script| - 1];
      if s.Covers(ci, k) then s.al else LastAl(script[..|script| - 1], ci, k)
  }

  lemma LastAlSnoc(script: seq<ScanInfo>, s: ScanInfo)
    ensures forall ci, k :: LastAl(script + [s], ci, k) == if s.Covers(ci, k) then s.al else LastAl(script, ci, k)
  {
    Seqs.SnocInit(script, s);
  }

  // ----- What is acceptable -----

  predicate CompsOk(n: nat, s: ScanInfo) {
    && 1 <= |s.comps| <= MAX_COMPS_IN_SCAN
    && (forall i :: 0 <= i < |s.comps| ==> 0 <= s.comps[i] < n)
    && (forall i :: 0 < i < |s.comps| ==> s.comps[i - 1] < s.comps[i])
  }

  predicate RangesOk(s: ScanInfo) {
    && 0 <= s.ss < DCTSIZE2 && s.ss <= s.se < DCTSIZE2 && 0 <= s.ah <= MAX_AH_AL && 0 <= s.al <= MAX_AH_AL
    && (if s.ss == 0 then s.se == 0 else |s.comps| == 1)
  }

  /** A coefficient is sent for the first time, or its next bit is. */
  predicate NextBit(s: ScanInfo, last: int) { if last < 0 then s.ah == 0 else s.ah == last && s.al == s.ah - 1 }

  ghost predicate OrderOkFor(before: seq<ScanInfo>, s: ScanInfo, ci: int) {
    && (s.ss != 0 ==> LastAl(before, ci, 0) >= 0)
    && forall k :: s.ss <= k <= s.se ==> NextBit(s, LastAl(before, ci, k))
  }

  ghost predicate ProgScanOk(n: nat, before: seq<ScanInfo>, s: ScanInfo) {
    CompsOk(n, s) && RangesOk(s) && forall i :: 0 <= i < |s.comps| ==> OrderOkFor(before, s, s.comps[i])
  }

  ghost predicate SeqScanOk(n: nat, before: seq<ScanInfo>, s: ScanInfo) {
    && CompsOk(n, s) && s.ss == 0 && s.se == DCTSIZE2 - 1 && s.ah == 0 && s.al == 0
    && forall i :: 0 <= i < |s.comps| ==> !Sent(before, s.comps[i])
  }

  predicate Sent(script: seq<ScanInfo>, ci: int) { exists i :: 0 <= i < |script| && ci in script[i].comps }

  lemma SentSnoc(script: seq<ScanInfo>, s: ScanInfo, ci: int)
    ensures Sent(script + [s], ci) <==> Sent(script, ci) || ci in s.comps
  {
    var all := script + [s];
    if Sent(script, ci) {
      var i :| 0 <= i < |script| && ci in script[i].comps;
      assert all[i] == script[i];
    }
    if ci in s.comps { assert all[|script|] == s; }
  }

  predicate IsProgressive(script: seq<ScanInfo>) { script != [] && (script[0].ss != 0 || script[0].se != DCTSIZE2 - 1) }

  ghost predicate ScanOk(n: nat, progressive: bool, before: seq<ScanInfo>, s: ScanInfo) {
    if progressive then ProgScanOk(n, before, s) else SeqScanOk(n, before, s)
  }

  ghost predicate Complete(n: nat, progressive: bool, script: seq<ScanInfo>) {
    forall ci :: 0 <= ci < n ==> if progressive then LastAl(script, ci, 0) >= 0 else Sent(script, ci)
  }

  ghost predicate ScansOk(n: nat, progressive: bool, script: seq<ScanInfo>) {
    forall i :: 0 <= i < |script| ==> ScanOk(n, progressive, script[..i], script[i])
  }

  ghost predicate Acceptable(n: nat, script: seq<ScanInfo>) {
    script != [] && ScansOk(n, IsProgressive(script), script) && Complete(n, IsProgressive(script), script)
  }

  // ----- validate_script -----

  datatype ScriptError = BadScanScript | ComponentCount | BadProgScript | MissingData

  datatype Verdict = Accepted(progressive: bool) | Refused(error: ScriptError)

  /** last_bitpos (or coef_bits) mirrors the scans so far. */
  ghost predicate Mirrors(a: array2<int>, n: nat, script: seq<ScanInfo>)
    reads a
  {
    && a.Length0 == n && a.Length1 == DCTSIZE2
    && forall ci, k :: 0 <= ci < n && 0 <= k < DCTSIZE2 ==> a[ci, k] == LastAl(script, ci, k)
  }

  /** Some components of scan `s` have been entered. */
  ghost predicate Entering(a: array2<int>, n: nat, before: seq<ScanInfo>, s: ScanInfo, j: nat)
    requires j <= |s.comps|
    reads a
  {
    && a.Length0 == n && a.Length1 == DCTSIZE2
    && forall ci, k :: 0 <= ci < n && 0 <= k < DCTSIZE2 ==>
         a[ci, k] == if ci in s.comps[..j] && s.ss <= k <= s.se then s.al else LastAl(before, ci, k)
  }

  lemma {:induction false} Increasing(s: ScanInfo, n: nat, i: nat, j: nat)
    requires CompsOk(n, s) && i < j < |s.comps|
    ensures s.comps[i] < s.comps[j]
  {
    if i + 1 < j { Increasing(s, n, i, j - 1); }
  }

  lemma NotYetEntered(s: ScanInfo, n: nat, j: nat)
    requires CompsOk(n, s) && j < |s.comps|
    ensures s.comps[j] !in s.comps[..j]
    ensures forall ci :: ci in s.comps[..j + 1] <==> ci in s.comps[..j] || ci == s.comps[j]
  {
    forall i | 0 <= i < j ensures s.comps[i] != s.comps[j] { Increasing(s, n, i, j); }
    assert s.comps[..j + 1] == s.comps[..j] + [s.comps[j]];
  }

  /** The component indexes of a scan. */
  method CheckComponents(n: nat, s: ScanInfo) returns (error: ScriptError, ok: bool)
    ensures ok <==> CompsOk(n, s)
    ensures error == ComponentCount <==> !(1 <= |s.comps| <= MAX_COMPS_IN_SCAN)
    ensures error == ComponentCount || error == BadScanScript
  {
    error := BadScanScript;
    if |s.comps| <= 0 || |s.comps| > MAX_COMPS_IN_SCAN { return ComponentCount, false; }
    var ci := 0;
    while ci < |s.comps|
      invariant 0 <= ci <= |s.comps|
      invariant forall i :: 0 <= i < ci ==> 0 <= s.comps[i] < n
      invariant forall i :: 0 < i < ci ==> s.comps[i - 1] < s.comps[i]
    {
      var thisi := s.comps[ci];
      if thisi < 0 || thisi >= n { return BadScanScript, false; }
      if ci > 0 && thisi <= s.comps[ci - 1] { return BadScanScript, false; }
      ci := ci + 1;
    }
    ok := true;
  }

  /** The band of one component: checks the bit positions and enters the new one. */
  method EnterBand(a: array2<int>, n: nat, s: ScanInfo, j: nat, ghost before: seq<ScanInfo>) returns (ok: bool)
    requires CompsOk(n, s) && RangesOk(s) && j < |s.comps| && Entering(a, n, before, s, j)
    modifies a
    ensures ok <==> OrderOkFor(before, s, s.comps[j])
    ensures ok ==> Entering(a, n, before, s, j + 1)
  {
    hide LastAl;
    NotYetEntered(s, n, j);
    var c := s.comps[j];
    if s.ss != 0 && a[c, 0] < 0 { return false; }
    var coefi := s.ss;
    while coefi <= s.se
      invariant s.ss <= coefi <= s.se + 1
      invariant forall ci, k :: 0 <= ci < n && 0 <= k < DCTSIZE2 ==>
                  a[ci, k] == if (ci in s.comps[..j] && s.ss <= k <= s.se) || (ci == c && s.ss <= k < coefi) then s.al
                              else LastAl(before, ci, k)
      invariant forall k :: s.ss <= k < coefi ==> NextBit(s, LastAl(before, c, k))
    {
      if a[c, coefi] < 0 {
        if s.ah != 0 { return false; }
      } else {
        if s.ah != a[c, coefi] || s.al != s.ah - 1 { return false; }
      }
      a[c, coefi] := s.al;
      coefi := coefi + 1;
    }
    ok := true;
  }

  /** A scan of a progressive script. */
  method CheckProgressive(a: array2<int>, n: nat, s: ScanInfo, ghost before: seq<ScanInfo>) returns (ok: bool)
    requires CompsOk(n, s) && Mirrors(a, n, before)
    modifies a
    ensures ok <==> ProgScanOk(n, before, s)
    ensures ok ==> Mirrors(a, n, before + [s])
  {
    hide LastAl, OrderOkFor;
    if s.ss < 0 || s.ss >= DCTSIZE2 || s.se < s.ss || s.se >= DCTSIZE2 || s.ah < 0 || s.ah > MAX_AH_AL || s.al < 0 || s.al > MAX_AH_AL {
      return false;
    }
    if s.ss == 0 {
      if s.se != 0 { return false; }
    } else {
      if |s.comps| != 1 { return false; }
    }
    var ci := 0;
    while ci < |s.comps|
      invariant 0 <= ci <= |s.comps| && Entering(a, n, before, s, ci)
      invariant forall i :: 0 <= i < ci ==> OrderOkFor(before, s, s.comps[i])
    {
      ok := EnterBand(a, n, s, ci, before);
      if !ok { return; }
      ci := ci + 1;
    }
    assert s.comps[..|s.comps|] == s.comps;
    LastAlSnoc(before, s);
    ok := true;
  }

  /** component_sent mirrors the scans so far. */
  ghost predicate MirrorsSent(sent: array<bool>, n: nat, script: seq<ScanInfo>)
    reads sent
  {
    sent.Length == n && forall ci :: 0 <= ci < n ==> sent[ci] == Sent(script, ci)
  }

  /** A scan of a sequential script. */
  method CheckSequential(sent: array<bool>, n: nat, s: ScanInfo, ghost before: seq<ScanInfo>) returns (ok: bool, error: ScriptError)
    requires CompsOk(n, s) && MirrorsSent(sent, n, before)
    modifies sent
    ensures ok <==> SeqScanOk(n, before, s)
    ensures error == BadProgScript || error == BadScanScript
    ensures ok ==> MirrorsSent(sent, n, before + [s])
  {
    hide Sent;
    error := BadProgScript;
    if s.ss != 0 || s.se != DCTSIZE2 - 1 || s.ah != 0 || s.al != 0 { return false, error; }
    var ci := 0;
    while ci < |s.comps|
      invariant 0 <= ci <= |s.comps| && sent.Length == n
      invariant forall c :: 0 <= c < n ==> sent[c] == (Sent(before, c) || c in s.comps[..ci])
      invariant forall i :: 0 <= i < ci ==> !Sent(before, s.comps[i])
    {
      NotYetEntered(s, n, ci);
      var thisi := s.comps[ci];
      if sent[thisi] { return false, BadScanScript; }
      sent[thisi] := true;
      ci := ci + 1;
    }
    assert s.comps[..|s.comps|] == s.comps;
    forall c | 0 <= c < n ensures sent[c] == Sent(before + [s], c) { SentSnoc(before, s, c); }
    ok := true;
  }

  lemma OkNext(n: nat, progressive: bool, script: seq<ScanInfo>, i: nat)
    requires i < |script| && ScansOk(n, progressive, script[..i]) && ScanOk(n, progressive, script[..i], script[i])
    ensures ScansOk(n, progressive, script[..i + 1])
  {
    hide ScanOk;
    var a := script[..i + 1];
    forall j | 0 <= j <= i ensures ScanOk(n, progressive, a[..j], a[j]) {
      assert a[..j] == script[..j];
      if j < i { assert script[..i][..j] == script[..j]; }
    }
  }

  /** `validate_script`. */
  method ValidateScript(n: nat, script: seq<ScanInfo>) returns (v: Verdict)
    requires n <= MAX_COMPONENTS
    ensures v.Accepted? <==> Acceptable(n, script)
    ensures v.Accepted? ==> v.progressive == IsProgressive(script)
    ensures v == Refused(MissingData) <==>
              script != [] && ScansOk(n, IsProgressive(script), script) && !Complete(n, IsProgressive(script), script)
  {
    hide LastAl, ProgScanOk, SeqScanOk, CompsOk, Sent;
    if |script| <= 0 { return Refused(BadScanScript); }
    var progressive := script[0].ss != 0 || script[0].se != DCTSIZE2 - 1;
    var lastBitpos := new int[n, DCTSIZE2]((ci, k) => -1);
    var componentSent := new bool[n](ci => false);
    NothingSent(n);
    var scanno := 0;
    assert script[..0] == [];
    while scanno < |script|
      invariant 0 <= scanno <= |script| && fresh(lastBitpos) && fresh(componentSent)
      invariant if progressive then Mirrors(lastBitpos, n, script[..scanno]) else MirrorsSent(componentSent, n, script[..scanno])
      invariant ScansOk(n, progressive, script[..scanno])
    {
      var s := script[scanno];
      assert script[..scanno + 1] == script[..scanno] + [s];
      OkImpliesComps(n, progressive, script[..scanno], s);
      var error, ok := CheckComponents(n, s);
      if !ok { return Refused(error); }
      if progressive {
        ok := CheckProgressive(lastBitpos, n, s, script[..scanno]);
        if !ok { return Refused(BadProgScript); }
      } else {
        ok, error := CheckSequential(componentSent, n, s, script[..scanno]);
        if !ok { return Refused(error); }
      }
      OkNext(n, progressive, script, scanno);
      scanno := scanno + 1;
    }
    assert script[..|script|] == script;
    var ci := 0;
    while ci < n
      invariant 0 <= ci <= n
      invariant forall c :: 0 <= c < ci ==> if progressive then LastAl(script, c, 0) >= 0 else Sent(script, c)
    {
      if progressive {
        if lastBitpos[ci, 0] < 0 { return Refused(MissingData); }
      } else {
        if !componentSent[ci] { return Refused(MissingData); }
      }
      ci := ci + 1;
    }
    return Accepted(progressive);
  }

  lemma OkImpliesComps(n: nat, progressive: bool, before: seq<ScanInfo>, s: ScanInfo)
    ensures ScanOk(n, progressive, before, s) ==> CompsOk(n, s)
  {
  }

  lemma NothingSent(n: nat)
    ensures forall ci, k :: LastAl([], ci, k) == -1
    ensures forall ci :: !Sent([], ci)
  {
  }
}
