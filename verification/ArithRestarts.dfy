/** What restart intervals are for: each can be decoded by itself, and the markers between them are in their order. */
module ArithRestarts {
  import opened Numbers
  import opened ByteStuffing
  import opened AritTable
  import opened IntervalCoder
  import opened ArithModel
  import opened ArithScan
  import opened ArithWholeScan

  /** Segment `k` begins behind `k` intervals of MCUs; without restarts there is one. */
  lemma {:induction false} IntervalBegins(interval: nat, total: nat, k: nat)
    ensures Begin(interval, total, k)
            == if interval == 0 then (if k == 0 then 0 else total)
               else if k * interval < total then k * interval else total
  {
    if k > 0 {
      IntervalBegins(interval, total, k - 1);
      assert k * interval == (k - 1) * interval + interval;
    }
  }

  /** The restart markers RST0, RST1, ... in turn. */
  function RestartMarkers(n: nat): (s: seq<Byte>)
    ensures |s| == n && forall k :: 0 <= k < n ==> s[k] == 0xD0 + k % 8
  {
    if n == 0 then [] else RestartMarkers(n - 1) + [0xD0 + (n - 1) % 8]
  }

  lemma {:induction false} MarkersFramed(raws: seq<seq<Byte>>, n: nat, rest: seq<Byte>)
    requires n <= |raws|
    ensures Markers(Framed(raws, n) + rest) == RestartMarkers(n) + Markers(rest)
  {
    hide Markers, Stuff;
    if n == 0 {
      assert [] + rest == rest;
    } else {
      var m: Byte := 0xD0 + (n - 1) % 8;
      var tail := [0xFF] + [m] + rest;
      assert Framed(raws, n) + rest == Framed(raws, n - 1) + (Stuff(raws[n - 1]) + tail);
      MarkersFramed(raws, n - 1, Stuff(raws[n - 1]) + tail);
      NoneStuffed(raws[n - 1], tail);
      MarkerComes(m, rest);
    }
  }

  /** The bytes of a scan contain no markers but those between its segments, in turn. */
  lemma MarkersInScan(tab: ProbTable, j: Job, mcus: seq<Mcu>, raws: seq<seq<Byte>>, bytes: seq<Byte>)
    requires GoodMcus(j, mcus) && GoodStats(tab, map[]) && ScanBytes(tab, j, mcus, raws, bytes)
    ensures Markers(bytes) == RestartMarkers(|raws| - 1)
  {
    hide Markers, Stuff, Framed, AllCoded, GoodMcus, GoodStats;
    var last := Stuff(raws[|raws| - 1]);
    assert last + [] == last;
    MarkersFramed(raws, |raws| - 1, last);
    NoneStuffed(raws[|raws| - 1], []);
    NoMarkersInNothing();
  }

  lemma NoMarkersInNothing()
    ensures Markers([]) == []
  {
  }

  /** The decisions use only statistics of the given tables, and `fixed_bin`. */
  ghost predicate UsesOnly(ds: seq<Decision>, dc: set<nat>, ac: set<nat>) {
    forall p :: 0 <= p < |ds| ==> Listed(ds[p].bin, dc, ac)
  }

  predicate Listed(bin: Bin, dc: set<nat>, ac: set<nat>) {
    match bin
    case FixedBin => true
    case DcBin(tbl, _) => tbl in dc
    case AcBin(tbl, _) => tbl in ac
  }

  lemma {:induction false} ClimbUses(ac: bool, tbl: nat, i: nat, n: nat, dcs: set<nat>, acs: set<nat>)
    requires Listed(BinAt(ac, tbl, 0), dcs, acs)
    ensures UsesOnly(Climb(ac, tbl, i, n), dcs, acs)
    decreases n
  {
    if n > 0 {
      ClimbUses(ac, tbl, i + 1, n - 1, dcs, acs);
    }
  }

  lemma {:induction false} PatternUses(ac: bool, tbl: nat, i: nat, w: nat, n: nat, dcs: set<nat>, acs: set<nat>)
    requires Listed(BinAt(ac, tbl, 0), dcs, acs)
    ensures UsesOnly(Pattern(ac, tbl, i, w, n), dcs, acs)
  {
    if n > 0 {
      PatternUses(ac, tbl, i, w, n - 1, dcs, acs);
    }
  }

  lemma CategoryUses(ac: bool, tbl: nat, x: nat, n: nat, w: nat, bits: nat, dcs: set<nat>, acs: set<nat>)
    requires Listed(BinAt(ac, tbl, 0), dcs, acs)
    ensures UsesOnly(Category(ac, tbl, x, n, w, bits), dcs, acs)
  {
    ClimbUses(ac, tbl, x, n, dcs, acs);
    PatternUses(ac, tbl, x + n + 14, w, bits, dcs, acs);
  }

  lemma DcUses(t: DcTable, ctx: nat, diff: int, dcs: set<nat>, acs: set<nat>)
    requires t.tbl in dcs
    ensures UsesOnly(DcDecisions(t, ctx, diff), dcs, acs)
  {
    hide Category, Log2;
    if diff > 1 || diff < -1 {
      var w: nat := (if diff > 0 then diff else -diff) - 1;
      CategoryUses(false, t.tbl, 20, Log2(w), w, Log2(w), dcs, acs);
    }
  }

  lemma MagnitudeUses(tbl: nat, st: nat, x: nat, w: nat, dcs: set<nat>, acs: set<nat>)
    requires tbl in acs
    ensures UsesOnly(AcMagnitude(tbl, st, x, w), dcs, acs)
  {
    hide Category;
    if w > 1 {
      CategoryUses(true, tbl, x, Log2(w) - 1, w, Log2(w), dcs, acs);
    }
  }

  /** Few decisions, each in a bin of the tables, in front of others. */
  lemma Followed(head: seq<Decision>, rest: seq<Decision>, dcs: set<nat>, acs: set<nat>)
    requires forall d :: d in head ==> Listed(d.bin, dcs, acs)
    requires rest == [] || UsesOnly(rest, dcs, acs)
    ensures UsesOnly(head + rest, dcs, acs) && UsesOnly([], dcs, acs)
  {
  }

  lemma Followed2(head: seq<Decision>, mid: seq<Decision>, rest: seq<Decision>, dcs: set<nat>, acs: set<nat>)
    requires forall d :: d in head ==> Listed(d.bin, dcs, acs)
    requires UsesOnly(mid, dcs, acs) && UsesOnly(rest, dcs, acs)
    ensures UsesOnly(head + (mid + rest), dcs, acs)
  {
  }

  lemma {:induction false} AcUses(t: AcTable, b: Block, al: nat, k: nat, ke: nat, se: nat, run: bool, dcs: set<nat>,
                                  acs: set<nat>)
    requires 1 <= k <= 64 && ke <= se < 64 && t.tbl in acs && (run ==> k <= ke)
    ensures UsesOnly(if run then AcRun(t, b, al, k, ke, se) else AcDecisions(t, b, al, k, ke, se), dcs, acs)
    decreases 64 - k, if run then 0 else 1
  {
    hide PointAc, AcMagnitude, UsesOnly;
    var st := 3 * (k - 1);
    if !run {
      if k <= ke {
        AcUses(t, b, al, k, ke, se, true, dcs, acs);
        Followed([Decision(AcBin(t.tbl, st), false)], AcRun(t, b, al, k, ke, se), dcs, acs);
      } else if k <= se {
        Followed([Decision(AcBin(t.tbl, st), true)], [], dcs, acs);
        assert [Decision(AcBin(t.tbl, st), true)] + [] == [Decision(AcBin(t.tbl, st), true)];
      } else {
        Followed([], [], dcs, acs);
      }
    } else if PointAc(b[k], al) != 0 {
      var head := [Decision(AcBin(t.tbl, st + 1), true), Decision(FixedBin, b[k] < 0)];
      var x := if k <= t.kx then 189 else 217;
      AcUses(t, b, al, k + 1, ke, se, false, dcs, acs);
      MagnitudeUses(t.tbl, st + 2, x, PointAc(b[k], al) - 1, dcs, acs);
      Followed2(head, AcMagnitude(t.tbl, st + 2, x, PointAc(b[k], al) - 1), AcDecisions(t, b, al, k + 1, ke, se), dcs,
                acs);
    } else if k < ke {
      AcUses(t, b, al, k + 1, ke, se, true, dcs, acs);
      Followed([Decision(AcBin(t.tbl, st + 1), false)], AcRun(t, b, al, k + 1, ke, se), dcs, acs);
    } else {
      Followed([], [], dcs, acs);
    }
  }

  lemma {:induction false} RefineUses(t: AcTable, b: Block, al: nat, k: nat, kex: nat, ke: nat, se: nat, run: bool,
                                      dcs: set<nat>, acs: set<nat>)
    requires 1 <= k <= 64 && ke <= se < 64 && t.tbl in acs && (run ==> k <= ke)
    ensures UsesOnly(if run then RefineRun(t, b, al, k, kex, ke, se) else RefineDecisions(t, b, al, k, kex, ke, se),
                     dcs, acs)
    decreases 64 - k, if run then 0 else 1
  {
    hide PointAc;
    if !run {
      if k <= ke {
        RefineUses(t, b, al, k, kex, ke, se, true, dcs, acs);
      }
    } else if PointAc(b[k], al) != 0 {
      RefineUses(t, b, al, k + 1, kex, ke, se, false, dcs, acs);
    } else if k < ke {
      RefineUses(t, b, al, k + 1, kex, ke, se, true, dcs, acs);
    }
  }

  lemma {:induction false} BitsUse(mcu: seq<Block>, i: nat, al: nat, dcs: set<nat>, acs: set<nat>)
    requires i <= |mcu|
    ensures UsesOnly(DcBits(mcu, i, al), dcs, acs)
    decreases |mcu| - i
  {
    if i < |mcu| {
      BitsUse(mcu, i + 1, al, dcs, acs);
    }
  }

  lemma {:induction false} McuUses(l: McuLayout, p: Prediction, mcu: seq<Block>, i: nat, al: nat, sequential: bool,
                                   dcs: set<nat>, acs: set<nat>)
    requires GoodLayout(l) && GoodPrediction(l, p) && i <= |mcu| == |l.membership|
    requires forall ci :: 0 <= ci < |l.dc| ==> l.dc[ci].tbl in dcs && (sequential ==> l.ac[ci].tbl in acs)
    ensures UsesOnly(McuDecisions(l, p, mcu, i, al, sequential), dcs, acs)
    decreases |mcu| - i
  {
    hide DcDecisions, AcDecisions, PointDc, DcContext;
    if i < |mcu| {
      var ci := l.membership[i];
      DcUses(l.dc[ci], p.ctx[ci], DcDiff(l, p, i, mcu[i], al), dcs, acs);
      if sequential {
        AcUses(l.ac[ci], mcu[i], 0, 1, LastNonzero(mcu[i], 0, 63), 63, false, dcs, acs);
      }
      McuUses(l, Predict(l, p, i, mcu[i], al), mcu, i + 1, al, sequential, dcs, acs);
    }
  }

  /** An MCU uses only statistics that a restart clears, and `fixed_bin`. */
  lemma CodeUses(j: Job, p: Prediction, mcu: Mcu)
    requires GoodJob(j) && GoodPrediction(j.layout, p) && |mcu| == |j.layout.membership|
    ensures UsesOnly(McuCode(j, p, mcu), ClearedDc(j.layout, j.progressive, j.ss, j.ah),
                     ClearedAc(j.layout, j.progressive, j.se))
  {
    hide McuDecisions, DcBits, AcDecisions, RefineDecisions, UsesOnly, LastNonzero;
    var dcs, acs := ClearedDc(j.layout, j.progressive, j.ss, j.ah), ClearedAc(j.layout, j.progressive, j.se);
    if SendsDc(j) {
      McuUses(j.layout, p, mcu, 0, j.al, !j.progressive, dcs, acs);
    } else if j.ss == 0 {
      BitsUse(mcu, 0, j.al, dcs, acs);
    } else {
      var t, ke := j.layout.ac[0], LastNonzero(mcu[0], j.al, j.se);
      AcUses(t, mcu[0], j.al, j.ss, ke, j.se, false, dcs, acs);
      RefineUses(t, mcu[0], j.al, j.ss, LastNonzero(mcu[0], j.al + 1, ke), ke, j.se, false, dcs, acs);
    }
  }

  lemma {:induction false} SegmentUses(j: Job, p: Prediction, mcus: seq<Mcu>, n: nat, end: nat)
    requires GoodMcus(j, mcus) && GoodPrediction(j.layout, p) && n <= end <= |mcus|
    ensures UsesOnly(SegCode(j, p, mcus, n, end), ClearedDc(j.layout, j.progressive, j.ss, j.ah),
                     ClearedAc(j.layout, j.progressive, j.se))
    decreases end - n
  {
    hide McuCode, After, ClearedDc, ClearedAc, GoodJob;
    if n < end {
      CodeUses(j, p, mcus[n]);
      SegmentUses(j, After(j, p, mcus[n]), mcus, n + 1, end);
    }
  }

  /** The same estimates in all bins of the given tables. */
  ghost predicate Agree(a: Stats, b: Stats, dc: set<nat>, ac: set<nat>) {
    forall bin :: Listed(bin, dc, ac) ==> StatOf(a, bin) == StatOf(b, bin)
  }

  lemma {:induction false} SameRun(tab: ProbTable, c: Coder, c': Coder, ds: seq<Decision>, dc: set<nat>, ac: set<nat>)
    requires GoodCoder(tab, c) && GoodCoder(tab, c') && c.iv == c'.iv && Agree(c.stats, c'.stats, dc, ac)
    requires UsesOnly(ds, dc, ac)
    ensures Run(tab, c, ds).iv == Run(tab, c', ds).iv && Agree(Run(tab, c, ds).stats, Run(tab, c', ds).stats, dc, ac)
  {
    hide GoodCoder, Narrow, NewState, Listed;
    if ds != [] {
      var d := ds[|ds| - 1];
      assert Listed(d.bin, dc, ac);
      SameRun(tab, c, c', ds[..|ds| - 1], dc, ac);
      SameStep(tab, Run(tab, c, ds[..|ds| - 1]), Run(tab, c', ds[..|ds| - 1]), d, dc, ac);
    }
  }

  lemma SameStep(tab: ProbTable, c: Coder, c': Coder, d: Decision, dc: set<nat>, ac: set<nat>)
    requires GoodCoder(tab, c) && GoodCoder(tab, c') && c.iv == c'.iv && Agree(c.stats, c'.stats, dc, ac)
    requires Listed(d.bin, dc, ac)
    ensures Step(tab, c, d).iv == Step(tab, c', d).iv && Agree(Step(tab, c, d).stats, Step(tab, c', d).stats, dc, ac)
  {
    hide Narrow, NewState, Listed;
  }

  /** Restarts make segments independent: each is coded as if it were the first, by a coder that knows nothing of the
      others. */
  lemma SegmentsAreIndependent(j: Job, mcus: seq<Mcu>, k: nat)
    requires GoodMcus(j, mcus)
    ensures |JPEG_ARITAB| == 114 && GoodTable(JPEG_ARITAB) && GoodStats(JPEG_ARITAB, map[])
    ensures Run(JPEG_ARITAB, Coder(UNIT, StatsAt(JPEG_ARITAB, j, mcus, k)), Segment(j, mcus, k)).iv
            == Run(JPEG_ARITAB, Coder(UNIT, map[]), Segment(j, mcus, k)).iv
  {
    hide GoodTable, GoodMcus, SegCode, Begin, ClearedDc, ClearedAc, Run, GoodStats, Agree, UsesOnly;
    FixedInScan(j, mcus, k, []);
    var dc, ac := ClearedDc(j.layout, j.progressive, j.ss, j.ah), ClearedAc(j.layout, j.progressive, j.se);
    BeginGrows(j.interval, |mcus|, k);
    SegmentUses(j, Fresh(j), mcus, Begin(j.interval, |mcus|, k), Begin(j.interval, |mcus|, k + 1));
    StartsAgree(j, mcus, k);
    var c := Coder(UNIT, StatsAt(JPEG_ARITAB, j, mcus, k));
    SameRun(JPEG_ARITAB, c, Coder(UNIT, map[]), Segment(j, mcus, k), dc, ac);
  }

  lemma StartsAgree(j: Job, mcus: seq<Mcu>, k: nat)
    requires GoodMcus(j, mcus) && |JPEG_ARITAB| == 114 && GoodTable(JPEG_ARITAB) && GoodStats(JPEG_ARITAB, map[])
    ensures Agree(StatsAt(JPEG_ARITAB, j, mcus, k), map[], ClearedDc(j.layout, j.progressive, j.ss, j.ah),
                  ClearedAc(j.layout, j.progressive, j.se))
  {
    hide GoodTable, GoodMcus, Segment, ClearedDc, ClearedAc, Run, GoodStats, StatsThrough;
    StartingEstimates();
    StatsAreThrough(JPEG_ARITAB, j, mcus, k);
    FixedThrough(JPEG_ARITAB, Stretches(j, mcus, k));
  }
}
