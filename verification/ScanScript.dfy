/** Scan scripts: `validate_script` of `jcmaster.c` and `jpeg_simple_progression` of `jcparam.c`. */
module ScanScript {

  const MAX_COMPS_IN_SCAN := 4
  const MAX_COMPONENTS := 10
  const DCTSIZE2 := 64
  const MAX_AH_AL := 10

  /** One jpeg_scan_info. */
  datatype Scan = Scan(comps: seq<int>, ss: int, se: int, ah: int, al: int)

  /** How validate_script ends: the mode it sets, or the error it raises. */
  datatype Verdict = Sequential | Progressive | Rejected

  /** For every coefficient of every component, -1 until it has been sent, then the last Al for it. */
  type BitPos = seq<seq<int>>

  predicate Shaped(bp: BitPos, n: nat) {
    |bp| == n && forall c :: 0 <= c < n ==> |bp[c]| == DCTSIZE2
  }

  function Unsent(n: nat): (bp: BitPos)
    ensures Shaped(bp, n)
  {
    seq(n, _ => seq(DCTSIZE2, _ => -1))
  }

  predicate GoodCount(s: Scan) {
    1 <= |s.comps| <= MAX_COMPS_IN_SCAN
  }

  /** Component indexes are in range and in frame-header order. */
  predicate GoodComponents(s: Scan, n: nat) {
    forall i :: 0 <= i < |s.comps| ==> 0 <= s.comps[i] < n && (i > 0 ==> s.comps[i - 1] < s.comps[i])
  }

  predicate GoodBand(s: Scan) {
    && 0 <= s.ss <= s.se < DCTSIZE2
    && 0 <= s.ah <= MAX_AH_AL && 0 <= s.al <= MAX_AH_AL
    && (if s.ss == 0 then s.se == 0 else |s.comps| == 1)
  }

  /** The scan continues what was sent before: a first scan with Ah = 0, or the next lower bit. */
  predicate Continues(s: Scan, last: int) {
    if last < 0 then s.ah == 0 else s.ah == last && s.al == s.ah - 1
  }

  /** AC coefficients need their DC first; every coefficient of the band continues what was sent. */
  predicate GoodComponentBand(s: Scan, row: seq<int>)
    requires |row| == DCTSIZE2 && GoodBand(s)
  {
    && (s.ss != 0 ==> row[0] >= 0)
    && forall k :: s.ss <= k <= s.se ==> Continues(s, row[k])
  }

  ghost predicate GoodRefinement(s: Scan, bp: BitPos, n: nat)
    requires Shaped(bp, n) && GoodComponents(s, n) && GoodBand(s)
  {
    forall i :: 0 <= i < |s.comps| ==> GoodComponentBand(s, bp[s.comps[i]])
  }

  ghost predicate GoodProgressiveScan(s: Scan, bp: BitPos, n: nat)
    requires Shaped(bp, n)
  {
    GoodCount(s) && GoodComponents(s, n) && GoodBand(s) && GoodRefinement(s, bp, n)
  }

  /** Al is recorded for every coefficient of the band, for the first `m` components of the scan. */
  function Record(bp: BitPos, s: Scan, n: nat): (r: BitPos)
    requires Shaped(bp, n)
    ensures Shaped(r, n)
  {
    seq(n, c requires 0 <= c < n =>
      seq(DCTSIZE2, k requires 0 <= k < DCTSIZE2 =>
        if c in s.comps && s.ss <= k <= s.se then s.al else bp[c][k]))
  }

  ghost predicate GoodProgression(scans: seq<Scan>, bp: BitPos, n: nat)
    requires Shaped(bp, n)
  {
    scans == [] ||
    (GoodProgressiveScan(scans[0], bp, n) && GoodProgression(scans[1..], Record(bp, scans[0], n), n))
  }

  function Final(scans: seq<Scan>, bp: BitPos, n: nat): (r: BitPos)
    requires Shaped(bp, n)
    ensures Shaped(r, n)
  {
    if scans == [] then bp else Final(scans[1..], Record(bp, scans[0], n), n)
  }

  predicate WholeBlock(s: Scan) {
    s.ss == 0 && s.se == DCTSIZE2 - 1
  }

  ghost predicate GoodSequence(scans: seq<Scan>, sent: set<int>, n: nat) {
    scans == [] ||
    (&& GoodCount(scans[0]) && GoodComponents(scans[0], n)
     && WholeBlock(scans[0]) && scans[0].ah == 0 && scans[0].al == 0
     && (forall i :: 0 <= i < |scans[0].comps| ==> scans[0].comps[i] !in sent)
     && GoodSequence(scans[1..], sent + (set c | c in scans[0].comps), n))
  }

  function SentBy(scans: seq<Scan>): set<int> {
    if scans == [] then {} else (set c | c in scans[0].comps) + SentBy(scans[1..])
  }

  /** A progressive script: the first scan is not a whole-block scan, every scan continues the ones before
      it, and every component gets at least its DC coefficients. */
  ghost predicate ProgressiveScript(scans: seq<Scan>, n: nat) {
    && scans != [] && !WholeBlock(scans[0])
    && GoodProgression(scans, Unsent(n), n)
    && forall c :: 0 <= c < n ==> Final(scans, Unsent(n), n)[c][0] >= 0
  }

  /** A sequential script: every component is sent exactly once. */
  ghost predicate SequentialScript(scans: seq<Scan>, n: nat) {
    && scans != [] && WholeBlock(scans[0])
    && GoodSequence(scans, {}, n)
    && forall c :: 0 <= c < n ==> c in SentBy(scans)
  }

  /** The array `last_bitpos` holds `bp`. */
  ghost predicate Holds(a: array2<int>, bp: BitPos, n: nat)
    reads a
  {
    && a.Length0 == n && a.Length1 == DCTSIZE2 && Shaped(bp, n)
    && forall c, k :: 0 <= c < n && 0 <= k < DCTSIZE2 ==> a[c, k] == bp[c][k]
  }

  /** "Validate component indexes". */
  method CheckComponents(s: Scan, n: nat) returns (ok: bool)
    ensures ok <==> GoodCount(s) && GoodComponents(s, n)
  {
    var ncomps := |s.comps|;
    if ncomps <= 0 || ncomps > MAX_COMPS_IN_SCAN {
      return false;
    }
    var ci := 0;
    while ci < ncomps
      invariant ci <= ncomps
      invariant forall i :: 0 <= i < ci ==> 0 <= s.comps[i] < n && (i > 0 ==> s.comps[i - 1] < s.comps[i])
    {
      var thisi := s.comps[ci];
      if thisi < 0 || thisi >= n {
        return false;
      }
      if ci > 0 && thisi <= s.comps[ci - 1] {
        return false;
      }
      ci := ci + 1;
    }
    return true;
  }

  lemma {:induction false} Ascending(s: Scan, n: nat, i: nat, j: nat)
    requires GoodComponents(s, n) && i < j < |s.comps|
    ensures s.comps[i] < s.comps[j]
  {
    if i < j - 1 {
      Ascending(s, n, i, j - 1);
    }
  }

  /** The coefficients of one component: each starts with Ah = 0 or continues with the next lower bit. */
  method CheckBand(lastBitpos: array2<int>, c0: nat, s: Scan, ghost n: nat) returns (ok: bool)
    requires lastBitpos.Length0 == n && lastBitpos.Length1 == DCTSIZE2 && c0 < n && GoodBand(s)
    modifies lastBitpos
    ensures ok <==> && (s.ss != 0 ==> old(lastBitpos[c0, 0]) >= 0)
                    && forall k :: s.ss <= k <= s.se ==> Continues(s, old(lastBitpos[c0, k]))
    ensures forall k :: ok && s.ss <= k <= s.se ==> lastBitpos[c0, k] == s.al
    ensures forall c, k :: 0 <= c < n && 0 <= k < DCTSIZE2 && !(c == c0 && s.ss <= k <= s.se) ==>
              lastBitpos[c, k] == old(lastBitpos[c, k])
  {
    if s.ss != 0 && lastBitpos[c0, 0] < 0 {
      return false;
    }
    var coefi := s.ss;
    while coefi <= s.se
      invariant s.ss <= coefi <= s.se + 1
      invariant forall k :: s.ss <= k < coefi ==> lastBitpos[c0, k] == s.al && Continues(s, old(lastBitpos[c0, k]))
      invariant forall c, k :: 0 <= c < n && 0 <= k < DCTSIZE2 && !(c == c0 && s.ss <= k < coefi) ==>
                  lastBitpos[c, k] == old(lastBitpos[c, k])
    {
      if lastBitpos[c0, coefi] < 0 {
        if s.ah != 0 {
          return false;
        }
      } else {
        if s.ah != lastBitpos[c0, coefi] || s.al != s.ah - 1 {
          return false;
        }
      }
      lastBitpos[c0, coefi] := s.al;
      coefi := coefi + 1;
    }
    return true;
  }

  /** Progress over the components of one scan: the first `m` have been checked and recorded. */
  ghost predicate Checked(a: array2<int>, bp: BitPos, s: Scan, n: nat, m: nat)
    reads a
    requires Shaped(bp, n) && GoodComponents(s, n) && GoodBand(s)
  {
    && a.Length0 == n && a.Length1 == DCTSIZE2 && m <= |s.comps|
    && (forall c, k :: 0 <= c < n && 0 <= k < DCTSIZE2 ==>
          a[c, k] == if c in s.comps[..m] && s.ss <= k <= s.se then s.al else bp[c][k])
    && forall i :: 0 <= i < m ==> GoodComponentBand(s, bp[s.comps[i]])
  }

  /** "Validate progression parameters", in progressive mode; records Al for what the scan sends. */
  method CheckProgression(lastBitpos: array2<int>, s: Scan, n: nat, ghost bp: BitPos) returns (ok: bool)
    requires Holds(lastBitpos, bp, n) && GoodCount(s) && GoodComponents(s, n)
    modifies lastBitpos
    ensures ok <==> GoodBand(s) && GoodRefinement(s, bp, n)
    ensures ok ==> Holds(lastBitpos, Record(bp, s, n), n)
  {
    var ss, se, ah, al := s.ss, s.se, s.ah, s.al;
    if ss < 0 || ss >= DCTSIZE2 || se < ss || se >= DCTSIZE2 || ah < 0 || ah > MAX_AH_AL || al < 0 || al > MAX_AH_AL {
      return false;
    }
    if ss == 0 {
      if se != 0 {
        return false;
      }
    } else {
      if |s.comps| != 1 {
        return false;
      }
    }
    var ci := 0;
    while ci < |s.comps|
      invariant ci <= |s.comps| && Checked(lastBitpos, bp, s, n, ci)
    {
      forall i | 0 <= i < ci
        ensures s.comps[i] != s.comps[ci]
      {
        Ascending(s, n, i, ci);
      }
      assert s.comps[ci] !in s.comps[..ci];
      ok := CheckBand(lastBitpos, s.comps[ci], s, n);
      if !ok {
        assert !GoodComponentBand(s, bp[s.comps[ci]]);
        return false;
      }
      assert s.comps[..ci + 1] == s.comps[..ci] + [s.comps[ci]];
      ci := ci + 1;
    }
    assert s.comps[..ci] == s.comps;
    return true;
  }

  /** The sequential case: fixed parameters, and no component sent twice. */
  method CheckSequential(componentSent: array<bool>, s: Scan, n: nat, ghost sent: set<int>) returns (ok: bool)
    requires componentSent.Length == n && GoodCount(s) && GoodComponents(s, n)
    requires forall c :: 0 <= c < n ==> componentSent[c] == (c in sent)
    modifies componentSent
    ensures ok <==> && WholeBlock(s) && s.ah == 0 && s.al == 0
                    && forall i :: 0 <= i < |s.comps| ==> s.comps[i] !in sent
    ensures ok ==> forall c :: 0 <= c < n ==> componentSent[c] == (c in sent + (set c | c in s.comps))
  {
    if s.ss != 0 || s.se != DCTSIZE2 - 1 || s.ah != 0 || s.al != 0 {
      return false;
    }
    var ci := 0;
    while ci < |s.comps|
      invariant ci <= |s.comps|
      invariant forall c :: 0 <= c < n ==> componentSent[c] == (c in sent || c in s.comps[..ci])
      invariant forall i :: 0 <= i < ci ==> s.comps[i] !in sent
    {
      var thisi := s.comps[ci];
      forall i | 0 <= i < ci
        ensures s.comps[i] != thisi
      {
        Ascending(s, n, i, ci);
      }
      if componentSent[thisi] {
        return false;
      }
      componentSent[thisi] := true;
      assert s.comps[..ci + 1] == s.comps[..ci] + [thisi];
      ci := ci + 1;
    }
    assert s.comps[..ci] == s.comps;
    return true;
  }

  /** `validate_script` accepts exactly the progressive and the sequential scripts. */
  method ValidateScript(scans: seq<Scan>, n: nat) returns (v: Verdict)
    requires 1 <= n <= MAX_COMPONENTS
    ensures v == Progressive <==> ProgressiveScript(scans, n)
    ensures v == Sequential <==> SequentialScript(scans, n)
  {
    if |scans| <= 0 {
      return Rejected;
    }
    var progressive := scans[0].ss != 0 || scans[0].se != DCTSIZE2 - 1;
    if progressive {
      v := ValidateProgressive(scans, n);
    } else {
      v := ValidateSequential(scans, n);
    }
  }

  method ValidateProgressive(scans: seq<Scan>, n: nat) returns (v: Verdict)
    requires scans != [] && !WholeBlock(scans[0])
    ensures v == Progressive <==> ProgressiveScript(scans, n)
    ensures v != Sequential
  {
    hide GoodProgression, Final;
    var lastBitpos := new int[n, DCTSIZE2]((c, k) => -1);
    ghost var bp;
    var ok;
    ok, bp := CheckScans(lastBitpos, scans, n);
    if !ok {
      return Rejected;
    }
    var ci := 0;
    while ci < n
      invariant ci <= n && forall c :: 0 <= c < ci ==> bp[c][0] >= 0
    {
      if lastBitpos[ci, 0] < 0 {
        assert bp[ci][0] < 0;
        return Rejected;
      }
      ci := ci + 1;
    }
    return Progressive;
  }

  /** The scan loop in progressive mode. */
  method CheckScans(lastBitpos: array2<int>, scans: seq<Scan>, n: nat) returns (ok: bool, ghost bp: BitPos)
    requires Holds(lastBitpos, Unsent(n), n)
    modifies lastBitpos
    ensures ok <==> GoodProgression(scans, Unsent(n), n)
    ensures ok ==> bp == Final(scans, Unsent(n), n) && Holds(lastBitpos, bp, n)
  {
    hide Unsent, Record, GoodCount, GoodComponents, GoodBand, GoodRefinement;
    bp := Unsent(n);
    var scanno := 0;
    assert scans[0..] == scans;
    while scanno < |scans|
      invariant scanno <= |scans| && Holds(lastBitpos, bp, n)
      invariant GoodProgression(scans, Unsent(n), n) <==> GoodProgression(scans[scanno..], bp, n)
      invariant Final(scans, Unsent(n), n) == Final(scans[scanno..], bp, n)
    {
      ghost var rest := scans[scanno..];
      assert rest[0] == scans[scanno] && rest[1..] == scans[scanno + 1..];
      ok := CheckComponents(scans[scanno], n);
      if !ok {
        return false, bp;
      }
      ok := CheckProgression(lastBitpos, scans[scanno], n, bp);
      if !ok {
        return false, bp;
      }
      bp := Record(bp, scans[scanno], n);
      scanno := scanno + 1;
    }
    return true, bp;
  }

  method ValidateSequential(scans: seq<Scan>, n: nat) returns (v: Verdict)
    requires scans != [] && WholeBlock(scans[0])
    ensures v == Sequential <==> SequentialScript(scans, n)
    ensures v != Progressive
  {
    var componentSent := new bool[n](c => false);
    ghost var sent: set<int> := {};
    var scanno := 0;
    assert scans[0..] == scans;
    while scanno < |scans|
      invariant scanno <= |scans|
      invariant GoodSequence(scans, {}, n) <==> GoodSequence(scans[scanno..], sent, n)
      invariant SentBy(scans) == sent + SentBy(scans[scanno..])
      invariant forall c :: 0 <= c < n ==> componentSent[c] == (c in sent)
    {
      ghost var rest := scans[scanno..];
      var ok := CheckComponents(scans[scanno], n);
      if !ok {
        return Rejected;
      }
      ok := CheckSequential(componentSent, scans[scanno], n, sent);
      if !ok {
        return Rejected;
      }
      sent := sent + (set c | c in scans[scanno].comps);
      assert rest[1..] == scans[scanno + 1..];
      scanno := scanno + 1;
    }
    var ci := 0;
    while ci < n
      invariant ci <= n && forall c :: 0 <= c < ci ==> c in sent
    {
      if !componentSent[ci] {
        return Rejected;
      }
      ci := ci + 1;
    }
    return Sequential;
  }
}
