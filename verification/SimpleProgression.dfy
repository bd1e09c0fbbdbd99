/** `jpeg_simple_progression` of `jcparam.c`: the recommended progressive script. */
module SimpleProgression {
  import opened ScanScript

  function OneScan(c: nat, ss: nat, se: nat, ah: nat, al: nat): Scan {
    Scan([c], ss, se, ah, al)
  }

  /** One scan for each of the components `from` to `n - 1`. */
  function EachScan(from: nat, n: nat, ss: nat, se: nat, ah: nat, al: nat): seq<Scan>
    requires from <= n
    decreases n - from
  {
    if from == n then [] else [OneScan(from, ss, se, ah, al)] + EachScan(from + 1, n, ss, se, ah, al)
  }

  function DcScans(n: nat, ah: nat, al: nat): seq<Scan> {
    if n <= MAX_COMPS_IN_SCAN then [Scan(seq(n, c => c), 0, 0, ah, al)] else EachScan(0, n, 0, 0, ah, al)
  }

  function YccScript(): seq<Scan> {
    DcScans(3, 0, 1) + [OneScan(0, 1, 5, 0, 2)] + [OneScan(2, 1, 63, 0, 1)] + [OneScan(1, 1, 63, 0, 1)]
    + [OneScan(0, 6, 63, 0, 2)] + [OneScan(0, 1, 63, 2, 1)] + DcScans(3, 1, 0)
    + [OneScan(2, 1, 63, 1, 0)] + [OneScan(1, 1, 63, 1, 0)] + [OneScan(0, 1, 63, 1, 0)]
  }

  function GeneralScript(n: nat): seq<Scan> {
    DcScans(n, 0, 1) + EachScan(0, n, 1, 5, 0, 2) + EachScan(0, n, 6, 63, 0, 2) + EachScan(0, n, 1, 63, 2, 1)
    + DcScans(n, 1, 0) + EachScan(0, n, 1, 63, 1, 0)
  }

  /** What the scripts' bands distinguish of one component: DC, coefficients 1 to 5, coefficients 6 to 63. */
  datatype Bands = Bands(dc: int, low: int, high: int)

  function Row(b: Bands): (r: seq<int>)
    ensures |r| == DCTSIZE2
  {
    seq(DCTSIZE2, k => if k == 0 then b.dc else if k <= 5 then b.low else b.high)
  }

  function Rows(t: seq<Bands>): (bp: BitPos)
    ensures Shaped(bp, |t|)
  {
    seq(|t|, c requires 0 <= c < |t| => Row(t[c]))
  }

  predicate ScriptBand(ss: nat, se: nat) {
    (ss == 0 && se == 0) || (ss == 1 && se == 5) || (ss == 6 && se == 63) || (ss == 1 && se == 63)
  }

  /** The effect on one component of sending a band down to bit `al`. */
  function Sent(b: Bands, ss: nat, se: nat, al: int): Bands {
    if ss == 0 then b.(dc := al)
    else Bands(b.dc, if ss == 1 then al else b.low, if se == 63 then al else b.high)
  }

  /** Sending a band is allowed after what has been sent of the component. */
  predicate Allowed(b: Bands, ss: nat, se: nat, ah: nat, al: nat) {
    && ScriptBand(ss, se) && ah <= MAX_AH_AL && al <= MAX_AH_AL
    && (if ss == 0 then Follows(b.dc, ah, al)
        else b.dc >= 0 && (ss == 1 ==> Follows(b.low, ah, al)) && (se == 63 ==> Follows(b.high, ah, al)))
  }

  predicate Follows(last: int, ah: nat, al: nat) {
    if last < 0 then ah == 0 else ah == last && al == ah - 1
  }

  /** What a scan does to one component, on a row that only distinguishes the script's bands. */
  lemma RowStep(s: Scan, b: Bands)
    requires GoodBand(s) && Allowed(b, s.ss, s.se, s.ah, s.al)
    ensures GoodComponentBand(s, Row(b))
    ensures forall k :: 0 <= k < DCTSIZE2 ==>
            Row(Sent(b, s.ss, s.se, s.al))[k] == if s.ss <= k <= s.se then s.al else Row(b)[k]
  {
  }

  /** A scan of one component. */
  lemma OneStep(t: seq<Bands>, c: nat, ss: nat, se: nat, ah: nat, al: nat)
    requires c < |t| && Allowed(t[c], ss, se, ah, al)
    ensures GoodProgressiveScan(OneScan(c, ss, se, ah, al), Rows(t), |t|)
    ensures Record(Rows(t), OneScan(c, ss, se, ah, al), |t|) == Rows(t[c := Sent(t[c], ss, se, al)])
  {
    hide Row, Sent, GoodComponentBand;
    var s := OneScan(c, ss, se, ah, al);
    RowStep(s, t[c]);
    var r, q := Record(Rows(t), s, |t|), Rows(t[c := Sent(t[c], ss, se, al)]);
    forall i | 0 <= i < |t|
      ensures r[i] == q[i]
    {
    }
  }

  lemma Extend(s: Scan, rest: seq<Scan>, bp: BitPos, n: nat)
    requires Shaped(bp, n)
    ensures GoodProgression([s] + rest, bp, n)
            <==> GoodProgressiveScan(s, bp, n) && GoodProgression(rest, Record(bp, s, n), n)
    ensures Final([s] + rest, bp, n) == Final(rest, Record(bp, s, n), n)
  {
  }

  lemma {:induction false} EachStep(t: seq<Bands>, from: nat, ss: nat, se: nat, ah: nat, al: nat, t': seq<Bands>)
    requires from <= |t| == |t'|
    requires forall c :: from <= c < |t| ==> Allowed(t[c], ss, se, ah, al) && t'[c] == Sent(t[c], ss, se, al)
    requires forall c :: 0 <= c < from ==> t'[c] == t[c]
    ensures GoodProgression(EachScan(from, |t|, ss, se, ah, al), Rows(t), |t|)
    ensures Final(EachScan(from, |t|, ss, se, ah, al), Rows(t), |t|) == Rows(t')
    decreases |t| - from
  {
    hide Rows, Record, Allowed, GoodProgressiveScan, Sent;
    if from == |t| {
      assert t == t';
    } else {
      var u := t[from := Sent(t[from], ss, se, al)];
      OneStep(t, from, ss, se, ah, al);
      EachStep(u, from + 1, ss, se, ah, al, t');
      Extend(OneScan(from, ss, se, ah, al), EachScan(from + 1, |t|, ss, se, ah, al), Rows(t), |t|);
    }
  }

  lemma DcStep(t: seq<Bands>, ah: nat, al: nat, t': seq<Bands>)
    requires 0 < |t| == |t'|
    requires forall c :: 0 <= c < |t| ==> Allowed(t[c], 0, 0, ah, al) && t'[c] == Sent(t[c], 0, 0, al)
    ensures GoodProgression(DcScans(|t|, ah, al), Rows(t), |t|)
    ensures Final(DcScans(|t|, ah, al), Rows(t), |t|) == Rows(t')
  {
    hide Rows, Allowed, Sent, Record, GoodProgressiveScan, EachScan;
    if |t| <= MAX_COMPS_IN_SCAN {
      var s := Scan(seq(|t|, c => c), 0, 0, ah, al);
      DcTogether(t, s, ah, al, t');
      Extend(s, [], Rows(t), |t|);
      assert [s] + [] == [s];
    } else {
      EachStep(t, 0, 0, 0, ah, al, t');
    }
  }

  /** The interleaved DC scan of all components. */
  lemma DcTogether(t: seq<Bands>, s: Scan, ah: nat, al: nat, t': seq<Bands>)
    requires 0 < |t| == |t'| <= MAX_COMPS_IN_SCAN && s == Scan(seq(|t|, c => c), 0, 0, ah, al)
    requires forall c :: 0 <= c < |t| ==> Allowed(t[c], 0, 0, ah, al) && t'[c] == Sent(t[c], 0, 0, al)
    ensures GoodProgressiveScan(s, Rows(t), |t|)
    ensures Record(Rows(t), s, |t|) == Rows(t')
  {
    hide Row, Sent, GoodComponentBand;
    assert Allowed(t[0], 0, 0, ah, al);
    var r, q := Record(Rows(t), s, |t|), Rows(t');
    forall c | 0 <= c < |t|
      ensures r[c] == q[c] && s.comps[c] == c && GoodComponentBand(s, Rows(t)[c])
    {
      assert s.comps[c] in s.comps;
      RowStep(s, t[c]);
    }
  }

  lemma {:induction false} Append(a: seq<Scan>, b: seq<Scan>, bp: BitPos, n: nat)
    requires Shaped(bp, n)
    ensures GoodProgression(a + b, bp, n) <==> GoodProgression(a, bp, n) && GoodProgression(b, Final(a, bp, n), n)
    ensures Final(a + b, bp, n) == Final(b, Final(a, bp, n), n)
  {
    hide Record, GoodProgressiveScan;
    if a == [] {
      assert a + b == b;
    } else {
      assert (a + b)[0] == a[0] && (a + b)[1..] == a[1..] + b;
      Append(a[1..], b, Record(bp, a[0], n), n);
    }
  }

  function Same(n: nat, b: Bands): (t: seq<Bands>)
    ensures |t| == n && forall c :: 0 <= c < n ==> t[c] == b
  {
    seq(n, _ => b)
  }

  lemma UnsentRows(n: nat)
    ensures Unsent(n) == Rows(Same(n, Bands(-1, -1, -1)))
  {
    var a, b := Unsent(n), Rows(Same(n, Bands(-1, -1, -1)));
    forall c | 0 <= c < n
      ensures a[c] == b[c]
    {
    }
  }

  lemma GeneralProgression(n: nat)
    requires n > 0
    ensures GoodProgression(GeneralScript(n), Unsent(n), n)
    ensures Final(GeneralScript(n), Unsent(n), n) == Rows(Same(n, Bands(0, 0, 0)))
  {
    hide Rows, GoodProgression, Final, EachScan, DcScans, Unsent;
    UnsentRows(n);
    var s1, s2, s3 := DcScans(n, 0, 1), EachScan(0, n, 1, 5, 0, 2), EachScan(0, n, 6, 63, 0, 2);
    var s4, s5, s6 := EachScan(0, n, 1, 63, 2, 1), DcScans(n, 1, 0), EachScan(0, n, 1, 63, 1, 0);
    var bp := Unsent(n);
    DcStep(Same(n, Bands(-1, -1, -1)), 0, 1, Same(n, Bands(1, -1, -1)));
    EachStep(Same(n, Bands(1, -1, -1)), 0, 1, 5, 0, 2, Same(n, Bands(1, 2, -1)));
    Append(s1, s2, bp, n);
    EachStep(Same(n, Bands(1, 2, -1)), 0, 6, 63, 0, 2, Same(n, Bands(1, 2, 2)));
    Append(s1 + s2, s3, bp, n);
    EachStep(Same(n, Bands(1, 2, 2)), 0, 1, 63, 2, 1, Same(n, Bands(1, 1, 1)));
    Append(s1 + s2 + s3, s4, bp, n);
    DcStep(Same(n, Bands(1, 1, 1)), 1, 0, Same(n, Bands(0, 1, 1)));
    Append(s1 + s2 + s3 + s4, s5, bp, n);
    EachStep(Same(n, Bands(0, 1, 1)), 0, 1, 63, 1, 0, Same(n, Bands(0, 0, 0)));
    Append(s1 + s2 + s3 + s4 + s5, s6, bp, n);
  }

  /** One more scan of one component. */
  lemma Then(scans: seq<Scan>, t: seq<Bands>, c: nat, ss: nat, se: nat, ah: nat, al: nat, t': seq<Bands>)
    requires GoodProgression(scans, Unsent(|t|), |t|) && Final(scans, Unsent(|t|), |t|) == Rows(t)
    requires c < |t| && Allowed(t[c], ss, se, ah, al) && t' == t[c := Sent(t[c], ss, se, al)]
    ensures var all := scans + [OneScan(c, ss, se, ah, al)];
            GoodProgression(all, Unsent(|t|), |t|) && Final(all, Unsent(|t|), |t|) == Rows(t')
  {
    hide Rows, Unsent, Allowed, Sent, Record, GoodProgressiveScan;
    var s := OneScan(c, ss, se, ah, al);
    OneStep(t, c, ss, se, ah, al);
    Extend(s, [], Rows(t), |t|);
    assert [s] + [] == [s];
    Append(scans, [s], Unsent(|t|), |t|);
  }

  lemma YccProgression()
    ensures GoodProgression(YccScript(), Unsent(3), 3)
    ensures Final(YccScript(), Unsent(3), 3) == Rows(Same(3, Bands(0, 0, 0)))
  {
    hide Rows, GoodProgression, Final, DcScans, Unsent;
    UnsentRows(3);
    var s := DcScans(3, 0, 1);
    DcStep(Same(3, Bands(-1, -1, -1)), 0, 1, Same(3, Bands(1, -1, -1)));
    var u := Bands(1, -1, -1);
    assert Same(3, u) == [u, u, u];
    Then(s, [u, u, u], 0, 1, 5, 0, 2, [Bands(1, 2, -1), u, u]);
    s := s + [OneScan(0, 1, 5, 0, 2)];
    Then(s, [Bands(1, 2, -1), u, u], 2, 1, 63, 0, 1, [Bands(1, 2, -1), u, Bands(1, 1, 1)]);
    s := s + [OneScan(2, 1, 63, 0, 1)];
    var v := Bands(1, 1, 1);
    Then(s, [Bands(1, 2, -1), u, v], 1, 1, 63, 0, 1, [Bands(1, 2, -1), v, v]);
    s := s + [OneScan(1, 1, 63, 0, 1)];
    Then(s, [Bands(1, 2, -1), v, v], 0, 6, 63, 0, 2, [Bands(1, 2, 2), v, v]);
    s := s + [OneScan(0, 6, 63, 0, 2)];
    Then(s, [Bands(1, 2, 2), v, v], 0, 1, 63, 2, 1, [v, v, v]);
    s := s + [OneScan(0, 1, 63, 2, 1)];
    var w := Bands(0, 1, 1);
    DcStep([v, v, v], 1, 0, [w, w, w]);
    Append(s, DcScans(3, 1, 0), Unsent(3), 3);
    s := s + DcScans(3, 1, 0);
    var z := Bands(0, 0, 0);
    Then(s, [w, w, w], 2, 1, 63, 1, 0, [w, w, z]);
    s := s + [OneScan(2, 1, 63, 1, 0)];
    Then(s, [w, w, z], 1, 1, 63, 1, 0, [w, z, z]);
    s := s + [OneScan(1, 1, 63, 1, 0)];
    Then(s, [w, z, z], 0, 1, 63, 1, 0, [z, z, z]);
    assert Same(3, z) == [z, z, z];
  }

  function SimpleScript(n: nat, ycc: bool): seq<Scan> {
    if n == 3 && ycc then YccScript() else GeneralScript(n)
  }

  function ScanCount(n: nat, ycc: bool): nat {
    if n == 3 && ycc then 10 else if n > MAX_COMPS_IN_SCAN then 6 * n else 2 + 4 * n
  }

  lemma {:induction false} EachCount(from: nat, n: nat, ss: nat, se: nat, ah: nat, al: nat)
    requires from <= n
    ensures |EachScan(from, n, ss, se, ah, al)| == n - from
    decreases n - from
  {
    if from < n {
      EachCount(from + 1, n, ss, se, ah, al);
    }
  }

  lemma CountMatches(n: nat, ycc: bool)
    ensures |SimpleScript(n, ycc)| == ScanCount(n, ycc)
  {
    hide EachScan;
    EachCount(0, n, 1, 5, 0, 2);
    EachCount(0, n, 6, 63, 0, 2);
    EachCount(0, n, 1, 63, 2, 1);
    EachCount(0, n, 1, 63, 1, 0);
    EachCount(0, n, 0, 0, 0, 1);
    EachCount(0, n, 0, 0, 1, 0);
  }

  lemma RowsZero(n: nat)
    ensures forall c, k :: 0 <= c < n && 0 <= k < DCTSIZE2 ==> Rows(Same(n, Bands(0, 0, 0)))[c][k] == 0
  {
  }

  /** The generated script is accepted in progressive mode, and sends every coefficient completely. */
  lemma SimpleScriptIsComplete(n: nat, ycc: bool)
    requires n > 0
    ensures ProgressiveScript(SimpleScript(n, ycc), n)
    ensures forall c, k :: 0 <= c < n && 0 <= k < DCTSIZE2 ==> Final(SimpleScript(n, ycc), Unsent(n), n)[c][k] == 0
  {
    hide Rows, GoodProgression, Final, EachScan, Unsent;
    if n == 3 && ycc {
      YccProgression();
    } else {
      GeneralProgression(n);
    }
    RowsZero(n);
    FirstIsDc(n, ycc);
  }

  lemma FirstIsDc(n: nat, ycc: bool)
    requires n > 0
    ensures SimpleScript(n, ycc) != [] && SimpleScript(n, ycc)[0].ss == 0 && SimpleScript(n, ycc)[0].se == 0
  {
  }

  /** The script array being filled through an advancing pointer `p`. */
  ghost predicate Filled(space: array<Scan>, p: nat, script: seq<Scan>)
    reads space
  {
    p == |script| <= space.Length && space[..p] == script
  }

  method FillAScan(space: array<Scan>, p: nat, ci: nat, ss: nat, se: nat, ah: nat, al: nat, ghost script: seq<Scan>)
    returns (p': nat)
    requires Filled(space, p, script) && p < space.Length
    modifies space
    ensures Filled(space, p', script + [OneScan(ci, ss, se, ah, al)])
  {
    space[p] := Scan([ci], ss, se, ah, al);
    p' := p + 1;
    assert space[..p'] == space[..p] + [space[p]];
  }

  method FillScans(space: array<Scan>, p: nat, ncomps: nat, ss: nat, se: nat, ah: nat, al: nat, ghost script: seq<Scan>)
    returns (p': nat)
    requires Filled(space, p, script) && p + ncomps <= space.Length
    modifies space
    ensures Filled(space, p', script + EachScan(0, ncomps, ss, se, ah, al))
  {
    p' := p;
    var ci := 0;
    ghost var done := script;
    ghost var all := EachScan(0, ncomps, ss, se, ah, al);
    while ci < ncomps
      invariant ci <= ncomps && p' == p + ci && Filled(space, p', done)
      invariant done + EachScan(ci, ncomps, ss, se, ah, al) == script + all
    {
      var s := OneScan(ci, ss, se, ah, al);
      MoveOne(done, s, EachScan(ci + 1, ncomps, ss, se, ah, al));
      p' := FillAScan(space, p', ci, ss, se, ah, al, done);
      done := done + [s];
      ci := ci + 1;
    }
    assert done + [] == done;
  }

  lemma MoveOne(l: seq<Scan>, s: Scan, rest: seq<Scan>)
    ensures l + ([s] + rest) == (l + [s]) + rest
  {
  }

  method FillDcScans(space: array<Scan>, p: nat, ncomps: nat, ah: nat, al: nat, ghost script: seq<Scan>)
    returns (p': nat)
    requires Filled(space, p, script) && p + (if ncomps <= MAX_COMPS_IN_SCAN then 1 else ncomps) <= space.Length
    modifies space
    ensures Filled(space, p', script + DcScans(ncomps, ah, al))
  {
    if ncomps <= MAX_COMPS_IN_SCAN {
      space[p] := Scan(seq(ncomps, c => c), 0, 0, ah, al);
      p' := p + 1;
      assert space[..p'] == space[..p] + [space[p]];
    } else {
      p' := FillScans(space, p, ncomps, 0, 0, ah, al, script);
    }
  }

  /** `jpeg_simple_progression`: the space is reused if large enough, and exactly `nscans` scans are written. */
  method Generate(scriptSpace: array?<Scan>, ncomps: nat, ycc: bool) returns (space: array<Scan>, nscans: nat)
    modifies scriptSpace
    ensures nscans == ScanCount(ncomps, ycc) <= space.Length
    ensures space == scriptSpace || fresh(space)
    ensures space[..nscans] == SimpleScript(ncomps, ycc)
  {
    hide EachScan, DcScans;
    CountMatches(ncomps, ycc);
    if ncomps == 3 && ycc {
      nscans := 10;
    } else if ncomps > MAX_COMPS_IN_SCAN {
      nscans := 6 * ncomps;
    } else {
      nscans := 2 + 4 * ncomps;
    }
    if scriptSpace == null || scriptSpace.Length < nscans {
      space := new Scan[if nscans > 10 then nscans else 10](_ => Scan([], 0, 0, 0, 0));
    } else {
      space := scriptSpace;
    }
    var p;
    if ncomps == 3 && ycc {
      p := FillYcc(space);
    } else {
      p := FillGeneral(space, ncomps);
    }
  }

  method FillYcc(space: array<Scan>) returns (p: nat)
    requires space.Length >= 10
    modifies space
    ensures Filled(space, p, YccScript())
  {
    hide EachScan;
    ghost var s: seq<Scan> := [];
    p := FillDcScans(space, 0, 3, 0, 1, s);
    s := DcScans(3, 0, 1);
    assert [] + s == s;
    p := FillAScan(space, p, 0, 1, 5, 0, 2, s);
    s := s + [OneScan(0, 1, 5, 0, 2)];
    p := FillAScan(space, p, 2, 1, 63, 0, 1, s);
    s := s + [OneScan(2, 1, 63, 0, 1)];
    p := FillAScan(space, p, 1, 1, 63, 0, 1, s);
    s := s + [OneScan(1, 1, 63, 0, 1)];
    p := FillAScan(space, p, 0, 6, 63, 0, 2, s);
    s := s + [OneScan(0, 6, 63, 0, 2)];
    p := FillAScan(space, p, 0, 1, 63, 2, 1, s);
    s := s + [OneScan(0, 1, 63, 2, 1)];
    p := FillDcScans(space, p, 3, 1, 0, s);
    s := s + DcScans(3, 1, 0);
    p := FillAScan(space, p, 2, 1, 63, 1, 0, s);
    s := s + [OneScan(2, 1, 63, 1, 0)];
    p := FillAScan(space, p, 1, 1, 63, 1, 0, s);
    s := s + [OneScan(1, 1, 63, 1, 0)];
    p := FillAScan(space, p, 0, 1, 63, 1, 0, s);
  }

  method FillGeneral(space: array<Scan>, n: nat) returns (p: nat)
    requires space.Length >= |GeneralScript(n)|
    modifies space
    ensures Filled(space, p, GeneralScript(n))
  {
    hide EachScan;
    EachCount(0, n, 0, 0, 0, 1);
    EachCount(0, n, 1, 5, 0, 2);
    EachCount(0, n, 6, 63, 0, 2);
    EachCount(0, n, 1, 63, 2, 1);
    EachCount(0, n, 0, 0, 1, 0);
    EachCount(0, n, 1, 63, 1, 0);
    ghost var s: seq<Scan> := [];
    p := FillDcScans(space, 0, n, 0, 1, s);
    s := DcScans(n, 0, 1);
    assert [] + s == s;
    p := FillScans(space, p, n, 1, 5, 0, 2, s);
    s := s + EachScan(0, n, 1, 5, 0, 2);
    p := FillScans(space, p, n, 6, 63, 0, 2, s);
    s := s + EachScan(0, n, 6, 63, 0, 2);
    p := FillScans(space, p, n, 1, 63, 2, 1, s);
    s := s + EachScan(0, n, 1, 63, 2, 1);
    p := FillDcScans(space, p, n, 1, 0, s);
    s := s + DcScans(n, 1, 0);
    p := FillScans(space, p, n, 1, 63, 1, 0, s);
  }
}
