/** The pass machinery of `jcmaster.c`, and the calls that drive it (`jcapistd.c`, `jcapimin.c`, `jctrans.c`). */
module PassSchedule {
  import opened ScanScript

  const C_MAX_BLOCKS_IN_MCU := 10
  const MAX_SAMP_FACTOR := 4

  datatype PassType = MainPass | HuffOptPass | OutputPass

  /** What happens to the outside: a marker is written, or the MCUs of a scan are counted or coded. */
  datatype Event = FrameHeader | ScanHeader(scan: Scan) | Statistics(scan: Scan) | Data(scan: Scan)

  datatype GlobalState = Start | Scanning | WrCoefs | Finished | Failed

  datatype Sampling = Sampling(h: int, v: int)

  function WholeImage(n: nat): Scan {
    Scan(seq(n, i => i), 0, DCTSIZE2 - 1, 0, 0)
  }

  function SumBlocks(samp: seq<Sampling>, comps: seq<int>, k: nat): int
    requires k <= |comps| && forall i :: 0 <= i < |comps| ==> 0 <= comps[i] < |samp|
  {
    if k == 0 then 0 else SumBlocks(samp, comps, k - 1) + samp[comps[k - 1]].h * samp[comps[k - 1]].v
  }

  ghost predicate GoodSampling(samp: seq<Sampling>) {
    forall i :: 0 <= i < |samp| ==> 1 <= samp[i].h <= MAX_SAMP_FACTOR && 1 <= samp[i].v <= MAX_SAMP_FACTOR
  }

  /** An interleaved MCU may have at most ten blocks. */
  ghost predicate McuFits(samp: seq<Sampling>, s: Scan) {
    && GoodCount(s) && (forall i :: 0 <= i < |s.comps| ==> 0 <= s.comps[i] < |samp|)
    && (|s.comps| == 1 || SumBlocks(samp, s.comps, |s.comps|) <= C_MAX_BLOCKS_IN_MCU)
  }

  predicate DcRefinement(s: Scan) {
    s.ss == 0 && s.ah != 0
  }

  /** The events of scan `i`. Huffman DC refinement scans need no table, so no statistics. */
  function Prelude(scans: seq<Scan>, i: nat, optimize: bool): seq<Event>
    requires i < |scans|
  {
    if optimize && !DcRefinement(scans[i]) then [Statistics(scans[i])] else []
  }

  function Headers(scans: seq<Scan>, i: nat): seq<Event>
    requires i < |scans|
  {
    (if i == 0 then [FrameHeader] else []) + [ScanHeader(scans[i])]
  }

  /** The events of the first `n` scans, in order. */
  function EventsTo(scans: seq<Scan>, n: nat, optimize: bool): seq<Event>
    requires n <= |scans|
  {
    if n == 0 then []
    else
      EventsTo(scans, n - 1, optimize) + Prelude(scans, n - 1, optimize) + Headers(scans, n - 1) + [Data(scans[n - 1])]
  }

  class Compressor {
    const scanInfo: seq<Scan>
    const hasScript: bool
    const samp: seq<Sampling>
    const imageHeight: nat
    const arithCode: bool
    var optimizeCoding: bool
    var numScans: nat
    var passType: PassType
    var passNumber: nat
    var totalPasses: nat
    var scanNumber: nat
    var isLastPass: bool
    var callPassStartup: bool
    /** The scan parameters now in force, and whether the entropy coder gathers statistics. */
    var current: Scan
    var gather: bool
    var nextScanline: nat
    var state: GlobalState
    var log: seq<Event>

    constructor (scanInfo: seq<Scan>, hasScript: bool, samp: seq<Sampling>, imageHeight: nat, arithCode: bool,
                 optimizeCoding: bool)
      ensures this.scanInfo == scanInfo && this.hasScript == hasScript && this.samp == samp
      ensures this.imageHeight == imageHeight && this.arithCode == arithCode && this.optimizeCoding == optimizeCoding
      ensures state == Start && log == []
    {
      this.scanInfo, this.hasScript, this.samp, this.imageHeight := scanInfo, hasScript, samp, imageHeight;
      this.arithCode, this.optimizeCoding := arithCode, optimizeCoding;
      numScans, passType, passNumber, totalPasses, scanNumber := 0, MainPass, 0, 0, 0;
      isLastPass, callPassStartup, gather, nextScanline, state, log := false, false, false, 0, Start, [];
      current := WholeImage(0);
    }

    /** The script in force. */
    ghost function Scans(): (s: seq<Scan>)
      ensures s == if hasScript then scanInfo else [WholeImage(|samp|)]
    {
      if hasScript then scanInfo else [WholeImage(|samp|)]
    }

    /** What `jinit_c_master_control` accepts. */
    ghost predicate Acceptable() {
      && imageHeight > 0 && 1 <= |samp| <= MAX_COMPONENTS && GoodSampling(samp)
      && (hasScript ==> ProgressiveScript(scanInfo, |samp|) || SequentialScript(scanInfo, |samp|))
    }

    /** What is fixed for the whole run. */
    ghost predicate Prepared()
      reads this
    {
      && Acceptable() && Scans() != [] && !DcRefinement(Scans()[0])
      && numScans == |Scans()| && totalPasses == (if optimizeCoding then 2 * numScans else numScans)
    }

    /** Between two passes. */
    ghost predicate Between()
      reads this
    {
      && Prepared() && scanNumber <= numScans && (isLastPass <==> passNumber == totalPasses)
      && match passType
         case MainPass => scanNumber == passNumber == 0 && log == []
         case HuffOptPass => optimizeCoding && passNumber == 2 * scanNumber
           && log == EventsTo(Scans(), scanNumber, true)
         case OutputPass =>
           if optimizeCoding then
             && scanNumber < numScans && passNumber == 2 * scanNumber + 1 && current == Scans()[scanNumber]
             && log == EventsTo(Scans(), scanNumber, true) + [Statistics(current)] && !DcRefinement(current)
           else passNumber == scanNumber && log == EventsTo(Scans(), scanNumber, false)
    }

    /** In a pass, its headers written unless `callPassStartup`. */
    ghost predicate InPass()
      reads this
    {
      && Prepared() && scanNumber < numScans && current == Scans()[scanNumber]
      && passNumber < totalPasses && (isLastPass <==> passNumber == totalPasses - 1)
      && (gather ==> !callPassStartup)
      && (if gather then
            && optimizeCoding && !arithCode && passNumber == 2 * scanNumber && passType != OutputPass
            && (passType == MainPass ==> scanNumber == 0) && !DcRefinement(current)
            && log == EventsTo(Scans(), scanNumber, true)
          else
            && passNumber == (if optimizeCoding then 2 * scanNumber + 1 else scanNumber) && passType != HuffOptPass
            && (passType == MainPass ==> !optimizeCoding && scanNumber == 0)
            && (passType == OutputPass ==> !callPassStartup)
            && log == EventsTo(Scans(), scanNumber, optimizeCoding) + Prelude(Scans(), scanNumber, optimizeCoding)
                      + if callPassStartup then [] else Headers(Scans(), scanNumber))
    }

    /** `jinit_c_master_control`. */
    method InitMaster(transcodeOnly: bool) returns (ok: bool)
      requires log == []
      modifies this
      ensures ok <==> Acceptable()
      ensures ok ==> Between() && passNumber == 0 && (passType == MainPass <==> !transcodeOnly)
      ensures ok ==> optimizeCoding == (old(optimizeCoding) || (Progresses() && !arithCode))
      ensures log == [] && state == old(state) && nextScanline == old(nextScanline)
    {
      hide ProgressiveScript, SequentialScript;
      ok := InitialSetup();
      if !ok {
        return;
      }
      var progressive := false;
      if hasScript {
        var v := ValidateScript(scanInfo, |samp|);
        if v == Rejected {
          return false;
        }
        numScans := |scanInfo|;
        progressive := v == Progressive;
        FirstIsNoRefinement(scanInfo, |samp|);
      } else {
        numScans := 1;
      }
      if progressive && !arithCode {
        optimizeCoding := true;
      }
      passType := if transcodeOnly then (if optimizeCoding then HuffOptPass else OutputPass) else MainPass;
      scanNumber, passNumber, isLastPass := 0, 0, false;
      totalPasses := if optimizeCoding then numScans * 2 else numScans;
    }

    /** The script is a progressive one. */
    ghost predicate Progresses() {
      hasScript && ProgressiveScript(scanInfo, |samp|)
    }

    /** The checks of `initial_setup` that concern components. */
    method InitialSetup() returns (ok: bool)
      ensures ok <==> imageHeight > 0 && 1 <= |samp| <= MAX_COMPONENTS && GoodSampling(samp)
    {
      if imageHeight <= 0 || |samp| <= 0 || |samp| > MAX_COMPONENTS {
        return false;
      }
      var ci := 0;
      while ci < |samp|
        invariant ci <= |samp| && GoodSampling(samp[..ci])
      {
        if samp[ci].h <= 0 || samp[ci].h > MAX_SAMP_FACTOR || samp[ci].v <= 0 || samp[ci].v > MAX_SAMP_FACTOR {
          return false;
        }
        ci := ci + 1;
      }
      assert samp[..ci] == samp;
      return true;
    }

    /** `select_scan_parameters` and `per_scan_setup`. */
    method SelectScan() returns (ok: bool)
      requires Prepared() && scanNumber < numScans
      modifies `current
      ensures current == Scans()[scanNumber]
      ensures ok <==> McuFits(samp, Scans()[scanNumber])
    {
      hide ProgressiveScript, SequentialScript;
      if hasScript {
        current := scanInfo[scanNumber];
        ComponentsExist(scanInfo, |samp|, scanNumber);
      } else {
        current := WholeImage(|samp|);
        if |samp| > MAX_COMPS_IN_SCAN {
          return false;
        }
      }
      if |current.comps| == 1 {
        return true;
      }
      var ci, blocks := 0, 0;
      ghost var scan := current;
      while ci < |current.comps|
        invariant current == scan
        invariant ci <= |current.comps| && blocks == SumBlocks(samp, current.comps, ci) <= C_MAX_BLOCKS_IN_MCU
      {
        var c := samp[current.comps[ci]];
        BlocksGrow(samp, current.comps, ci + 1, |current.comps|);
        if blocks + c.h * c.v > C_MAX_BLOCKS_IN_MCU {
          return false;
        }
        blocks := blocks + c.h * c.v;
        ci := ci + 1;
      }
      return true;
    }

    /** The main-pass case of `prepare_for_pass`. */
    method PrepareMain() returns (ok: bool)
      requires Between() && passNumber < totalPasses && passType == MainPass
      modifies `current, `gather, `callPassStartup
      ensures ok <==> McuFits(samp, Scans()[0]) && !(arithCode && optimizeCoding)
      ensures ok ==> current == Scans()[0] && gather == optimizeCoding && callPassStartup == !optimizeCoding
    {
      hide Acceptable, McuFits;
      ok := SelectScan();
      if ok && arithCode && optimizeCoding {
        ok := false;
      }
      gather, callPassStartup := optimizeCoding, !optimizeCoding;
    }

    /** The Huffman-optimisation case: either statistics are gathered, or the pass is skipped. */
    method PrepareStatistics() returns (ok: bool)
      requires Between() && passNumber < totalPasses && passType == HuffOptPass
      modifies `current, `gather, `callPassStartup, `passType, `passNumber
      ensures ok ==> current == Scans()[scanNumber]
      ensures ok <==> McuFits(samp, Scans()[scanNumber]) && !(arithCode && passType == HuffOptPass)
      ensures !arithCode ==> (passType == OutputPass
                              <==> McuFits(samp, Scans()[scanNumber]) && DcRefinement(Scans()[scanNumber]))
      ensures arithCode ==> passType == HuffOptPass
      ensures if passType == HuffOptPass then passNumber == old(passNumber) && (ok ==> gather && !callPassStartup)
              else passType == OutputPass && passNumber == old(passNumber) + 1
    {
      hide Acceptable, McuFits;
      ok := SelectScan();
      if !ok {
        return;
      }
      if current.ss != 0 || current.ah == 0 || arithCode {
        if arithCode {
          return false;
        }
        gather, callPassStartup := true, false;
      } else {
        passType := OutputPass;
        passNumber := passNumber + 1;
      }
    }

    /** The output case: the headers are written now. */
    method PrepareOutput() returns (ok: bool)
      requires Prepared() && scanNumber < numScans && (optimizeCoding ==> current == Scans()[scanNumber])
      modifies `current, `gather, `callPassStartup, `log
      ensures ok <==> optimizeCoding || McuFits(samp, Scans()[scanNumber])
      ensures ok ==> current == Scans()[scanNumber] && !gather && !callPassStartup
      ensures ok ==> log == old(log) + Headers(Scans(), scanNumber)
    {
      hide Acceptable, McuFits;
      if !optimizeCoding {
        ok := SelectScan();
        if !ok {
          return;
        }
      }
      gather := false;
      if scanNumber == 0 {
        log := log + [FrameHeader];
      }
      log := log + [ScanHeader(current)];
      callPassStartup := false;
      return true;
    }

    /** `prepare_for_pass`. It fails if the MCU is too big, or if an arithmetic coder is asked for statistics. */
    method PrepareForPass() returns (ok: bool)
      requires Between() && passNumber < totalPasses
      modifies this
      ensures ok ==> InPass() && scanNumber == old(scanNumber) && passNumber >= old(passNumber)
      ensures ok ==> (callPassStartup <==> passType == MainPass && !optimizeCoding)
      ensures ok ==> (passType == MainPass <==> old(passType) == MainPass)
      ensures ok <==> (McuFits(samp, Scans()[old(scanNumber)]) || old(passType == OutputPass && optimizeCoding))
                      && !(arithCode && StatisticsDue(old(passType), old(optimizeCoding)))
      ensures unchanged(`state, `nextScanline, `optimizeCoding, `numScans, `totalPasses, `scanNumber)
    {
      hide Acceptable, McuFits, EventsTo;
      NothingYet(Scans());
      if passType == MainPass {
        ok := PrepareMain();
        if !ok {
          return;
        }
      } else {
        if passType == HuffOptPass {
          ok := PrepareStatistics();
          if !ok {
            return;
          }
        }
        if passType == OutputPass {
          ok := PrepareOutput();
          if !ok {
            return;
          }
        }
      }
      isLastPass := passNumber == totalPasses - 1;
      return true;
    }

    /** A statistics pass comes next, as far as the arithmetic coder is concerned. */
    ghost predicate StatisticsDue(p: PassType, optimize: bool) {
      p == HuffOptPass || (p == MainPass && optimize)
    }

    /** `pass_startup`. */
    method PassStartup()
      requires InPass() && callPassStartup
      modifies `callPassStartup, `log
      ensures InPass() && !callPassStartup
    {
      hide Acceptable, EventsTo;
      ghost var before := EventsTo(Scans(), scanNumber, optimizeCoding) + Prelude(Scans(), scanNumber, optimizeCoding);
      callPassStartup := false;
      log := log + [FrameHeader];
      log := log + [ScanHeader(current)];
      assert log == before + Headers(Scans(), scanNumber);
    }

    /** `finish_pass_master`, after all MCUs of the pass went to the entropy coder. */
    method FinishPass()
      requires InPass() && !callPassStartup
      modifies this
      ensures Between() && passNumber == old(passNumber) + 1 && passType != MainPass
      ensures scanNumber == old(scanNumber) + if old(gather) then 0 else 1
      ensures unchanged(`state, `nextScanline, `optimizeCoding, `numScans, `totalPasses)
    {
      hide Acceptable;
      log := log + [if gather then Statistics(current) else Data(current)];
      match passType {
        case MainPass =>
          passType := OutputPass;
          if !optimizeCoding {
            scanNumber := scanNumber + 1;
          }
        case HuffOptPass =>
          passType := OutputPass;
        case OutputPass =>
          if optimizeCoding {
            passType := HuffOptPass;
          }
          scanNumber := scanNumber + 1;
      }
      passNumber := passNumber + 1;
    }

    ghost predicate AllFit() {
      forall i :: 0 <= i < |Scans()| ==> McuFits(samp, Scans()[i])
    }

    /** The run as the application sees it. */
    ghost predicate Valid()
      reads this
    {
      match state
      case Start => log == []
      case Scanning =>
        && InPass() && passType == MainPass && McuFits(samp, Scans()[0]) && !(arithCode && optimizeCoding)
        && (nextScanline > 0 ==> !callPassStartup)
      case WrCoefs => Between() && passType != MainPass && passNumber == 0
      case Finished => Prepared() && log == EventsTo(Scans(), numScans, optimizeCoding)
      case Failed => true
    }

    /** `jpeg_start_compress`. */
    method StartCompress() returns (ok: bool)
      requires Valid() && state == Start && nextScanline == 0
      modifies this
      ensures Valid() && state == (if ok then Scanning else Failed) && nextScanline == 0
      ensures ok <==> Acceptable() && McuFits(samp, Scans()[0]) && !(arithCode && optimizeCoding)
      ensures Acceptable() ==> optimizeCoding == (old(optimizeCoding) || (Progresses() && !arithCode))
    {
      hide Acceptable, McuFits, EventsTo, Progresses;
      HasScans();
      ok := InitMaster(false);
      if ok {
        ok := PrepareForPass();
      }
      state := if ok then Scanning else Failed;
    }

    lemma HasScans()
      ensures Acceptable() ==> Scans() != []
    {
    }

    /** `jpeg_write_scanlines`: the main controller takes `taken` lines at most. */
    method WriteScanlines(numLines: nat, taken: nat) returns (done: nat)
      requires Valid() && state == Scanning
      modifies `callPassStartup, `log, `nextScanline
      ensures Valid() && !callPassStartup && nextScanline == old(nextScanline) + done && done <= numLines
      ensures done <= taken
      ensures done == numLines || done == taken || nextScanline >= imageHeight
      ensures old(nextScanline) <= imageHeight ==> nextScanline <= imageHeight
    {
      hide Acceptable, EventsTo, McuFits;
      if callPassStartup {
        PassStartup();
      }
      var rowsLeft := if imageHeight > nextScanline then imageHeight - nextScanline else 0;
      var n := if numLines > rowsLeft then rowsLeft else numLines;
      done := if taken < n then taken else n;
      nextScanline := nextScanline + done;
    }

    /** `jpeg_write_coefficients`: transcoding has no main pass. */
    method WriteCoefficients() returns (ok: bool)
      requires Valid() && state == Start
      modifies this
      ensures Valid() && state == if ok then WrCoefs else Failed
      ensures ok <==> Acceptable()
      ensures ok ==> optimizeCoding == (old(optimizeCoding) || (Progresses() && !arithCode))
    {
      hide Acceptable, EventsTo, Progresses;
      ok := InitMaster(true);
      state := if ok then WrCoefs else Failed;
    }

    /** `jpeg_finish_compress`: all remaining passes. It reaches the last pass and stops, with every scan out. */
    method FinishCompress() returns (ok: bool)
      requires Valid() && (state == Scanning || state == WrCoefs)
      modifies this
      ensures Valid() && state == if ok then Finished else Failed
      ensures ok <==>
                && (old(state) == WrCoefs || old(nextScanline) >= imageHeight)
                && AllFit() && !(arithCode && optimizeCoding)
      ensures optimizeCoding == old(optimizeCoding)
    {
      hide Acceptable, McuFits, EventsTo;
      if state == Scanning {
        if nextScanline < imageHeight {
          state := Failed;
          return false;
        }
        PositiveHeight();
        FinishPass();
      }
      while !isLastPass
        invariant Ahead() && optimizeCoding == old(optimizeCoding)
        decreases totalPasses - passNumber
      {
        ok := NextPass();
        if !ok {
          state := Failed;
          return;
        }
      }
      state := Finished;
      return true;
    }

    /** The rest of the run is as it should be: the scans up to here fit, and no statistics pass of the arithmetic coder
        has gone by. */
    ghost predicate Ahead()
      reads this
    {
      && Between() && passNumber <= totalPasses && passType != MainPass
      && (forall i :: 0 <= i < scanNumber ==> McuFits(samp, Scans()[i]))
      && (passType == OutputPass && optimizeCoding ==> McuFits(samp, Scans()[scanNumber]))
      && (arithCode && optimizeCoding ==> passType == HuffOptPass && passNumber == 0)
    }

    /** One round of the loop of `jpeg_finish_compress`. */
    method NextPass() returns (ok: bool)
      requires Ahead() && !isLastPass
      modifies this
      ensures ok ==> Ahead() && passNumber > old(passNumber)
      ensures !ok ==> !(AllFit() && !(arithCode && optimizeCoding))
      ensures unchanged(`state, `nextScanline, `optimizeCoding, `totalPasses)
    {
      hide Acceptable, McuFits, EventsTo;
      ok := PrepareForPass();
      if ok {
        FinishPass();
      }
    }

    lemma PositiveHeight()
      requires InPass()
      ensures imageHeight > 0
    {
    }
  }

  lemma NothingYet(scans: seq<Scan>)
    ensures EventsTo(scans, 0, true) == EventsTo(scans, 0, false) == []
  {
  }

  /** The first scan of an accepted script sends its coefficients for the first time. */
  lemma FirstIsNoRefinement(scans: seq<Scan>, n: nat)
    requires ProgressiveScript(scans, n) || SequentialScript(scans, n)
    ensures scans != [] && !DcRefinement(scans[0])
  {
    if ProgressiveScript(scans, n) {
      assert GoodProgressiveScan(scans[0], Unsent(n), n);
      assert GoodComponentBand(scans[0], Unsent(n)[scans[0].comps[0]]);
      assert Continues(scans[0], Unsent(n)[scans[0].comps[0]][scans[0].ss]);
    }
  }

  lemma {:induction false} ProgressionComponents(scans: seq<Scan>, bp: BitPos, n: nat, i: nat)
    requires Shaped(bp, n) && GoodProgression(scans, bp, n) && i < |scans|
    ensures GoodCount(scans[i]) && GoodComponents(scans[i], n)
  {
    if i > 0 {
      ProgressionComponents(scans[1..], Record(bp, scans[0], n), n, i - 1);
    }
  }

  lemma {:induction false} SequenceComponents(scans: seq<Scan>, sent: set<int>, n: nat, i: nat)
    requires GoodSequence(scans, sent, n) && i < |scans|
    ensures GoodCount(scans[i]) && GoodComponents(scans[i], n)
  {
    if i > 0 {
      SequenceComponents(scans[1..], sent + (set c | c in scans[0].comps), n, i - 1);
    }
  }

  lemma ComponentsExist(scans: seq<Scan>, n: nat, i: nat)
    requires (ProgressiveScript(scans, n) || SequentialScript(scans, n)) && i < |scans|
    ensures GoodCount(scans[i]) && GoodComponents(scans[i], n)
  {
    if ProgressiveScript(scans, n) {
      ProgressionComponents(scans, Unsent(n), n, i);
    } else {
      SequenceComponents(scans, {}, n, i);
    }
  }

  lemma {:induction false} BlocksGrow(samp: seq<Sampling>, comps: seq<int>, j: nat, k: nat)
    requires j <= k <= |comps| && GoodSampling(samp) && forall i :: 0 <= i < |comps| ==> 0 <= comps[i] < |samp|
    ensures SumBlocks(samp, comps, j) <= SumBlocks(samp, comps, k)
  {
    if j < k {
      BlocksGrow(samp, comps, j, k - 1);
      var c := samp[comps[k - 1]];
      assert c.h * c.v >= 0;
    }
  }

  /** The scans whose data comes out, and the scan headers, in order. */
  function Coded(log: seq<Event>): seq<Scan> {
    if log == [] then []
    else Coded(log[..|log| - 1]) + if log[|log| - 1].Data? then [log[|log| - 1].scan] else []
  }

  function Announced(log: seq<Event>): seq<Scan> {
    if log == [] then []
    else Announced(log[..|log| - 1]) + if log[|log| - 1].ScanHeader? then [log[|log| - 1].scan] else []
  }

  function FrameHeaders(log: seq<Event>): nat {
    if log == [] then 0
    else FrameHeaders(log[..|log| - 1]) + if log[|log| - 1].FrameHeader? then 1 else 0
  }

  lemma OneMore(log: seq<Event>, e: Event)
    ensures Coded(log + [e]) == Coded(log) + if e.Data? then [e.scan] else []
    ensures Announced(log + [e]) == Announced(log) + if e.ScanHeader? then [e.scan] else []
    ensures FrameHeaders(log + [e]) == FrameHeaders(log) + if e.FrameHeader? then 1 else 0
  {
  }

  lemma NoEvents()
    ensures Coded([]) == Announced([]) == [] && FrameHeaders([]) == 0
  {
  }

  lemma LastEvents(scans: seq<Scan>, n: nat, optimize: bool)
    requires n <= |scans|
    ensures if n == 0 then EventsTo(scans, n, optimize) == []
            else
              var a, s := EventsTo(scans, n - 1, optimize), scans[n - 1];
              var b := if optimize && !DcRefinement(s) then a + [Statistics(s)] else a;
              var c := if n == 1 then b + [FrameHeader] else b;
              EventsTo(scans, n, optimize) == c + [ScanHeader(s)] + [Data(s)]
  {
    hide DcRefinement;
  }

  /** Every scan is announced once and coded once, in order, after a single frame header. */
  lemma {:induction false} EachScanOnce(scans: seq<Scan>, n: nat, optimize: bool)
    requires n <= |scans|
    ensures var log := EventsTo(scans, n, optimize);
            && Coded(log) == Announced(log) == scans[..n]
            && FrameHeaders(log) == (if n > 0 then 1 else 0)
  {
    hide Coded, Announced, FrameHeaders, DcRefinement, EventsTo;
    NoEvents();
    LastEvents(scans, n, optimize);
    if n > 0 {
      EachScanOnce(scans, n - 1, optimize);
      var a := EventsTo(scans, n - 1, optimize);
      var s := scans[n - 1];
      var b := if optimize && !DcRefinement(s) then a + [Statistics(s)] else a;
      var c := if n == 1 then b + [FrameHeader] else b;
      OneMore(a, Statistics(s));
      OneMore(b, FrameHeader);
      OneMore(c, ScanHeader(s));
      OneMore(c + [ScanHeader(s)], Data(s));
      assert scans[..n] == scans[..n - 1] + [s];
    }
  }

  /** The data of a scan come directly behind its header; the frame header is directly in front of the first scan
      header; statistics are those of the scan whose header comes next. */
  ghost predicate InPlace(log: seq<Event>, j: nat, optimize: bool)
    requires j < |log|
  {
    && (log[j].Data? ==> j > 0 && log[j - 1] == ScanHeader(log[j].scan))
    && (log[j].FrameHeader? ==>
          j + 1 < |log| && log[j + 1].ScanHeader? && forall k :: 0 <= k < j ==> !log[k].ScanHeader?)
    && (log[j].Statistics? ==> optimize && exists k :: j < k <= j + 2 && k < |log| && log[k] == ScanHeader(log[j].scan))
  }

  /** When a scan is coded, its own header is the last marker written before it; when statistics were gathered at all,
      they were those of the same scan, just before its headers. */
  lemma {:induction false} HeaderPrecedesData(scans: seq<Scan>, n: nat, optimize: bool, j: nat)
    requires n <= |scans| && j < |EventsTo(scans, n, optimize)|
    ensures InPlace(EventsTo(scans, n, optimize), j, optimize)
  {
    hide InPlace, Prelude, Headers;
    var a := EventsTo(scans, n - 1, optimize);
    if j < |a| {
      HeaderPrecedesData(scans, n - 1, optimize, j);
      StaysInPlace(a, EventsTo(scans, n, optimize), j, optimize);
    } else {
      LastInPlace(scans, n, optimize, j);
    }
  }

  lemma StaysInPlace(a: seq<Event>, log: seq<Event>, j: nat, optimize: bool)
    requires j < |a| && a <= log && InPlace(a, j, optimize)
    ensures InPlace(log, j, optimize)
  {
    assert forall k :: 0 <= k < |a| ==> log[k] == a[k];
  }

  lemma LastInPlace(scans: seq<Scan>, n: nat, optimize: bool, j: nat)
    requires 0 < n <= |scans| && |EventsTo(scans, n - 1, optimize)| <= j < |EventsTo(scans, n, optimize)|
    ensures InPlace(EventsTo(scans, n, optimize), j, optimize)
  {
    var a := EventsTo(scans, n - 1, optimize);
    var s := scans[n - 1];
    var p, h := Prelude(scans, n - 1, optimize), Headers(scans, n - 1);
    var log := EventsTo(scans, n, optimize);
    assert log == a + p + h + [Data(s)];
    var k := |a| + |p| + |h| - 1;
    assert log[k] == ScanHeader(s);
    assert log[k + 1] == Data(s);
    assert p != [] ==> log[|a|] == Statistics(s);
  }

  /** The scan header at `h` comes behind statistics of its own scan, with at most the frame header between. */
  ghost predicate Counted(log: seq<Event>, h: nat, s: Scan)
    requires h < |log|
  {
    exists j :: h - 2 <= j < h && 0 <= j && log[j] == Statistics(s)
  }

  /** In an optimised run, statistics are gathered in front of the header of every scan that codes AC coefficients or
      codes DC values for the first time, and of no other. */
  lemma {:induction false} StatisticsPrecedeHeader(scans: seq<Scan>, n: nat, h: nat)
    requires n <= |scans| && h < |EventsTo(scans, n, true)| && EventsTo(scans, n, true)[h].ScanHeader?
    ensures var s := EventsTo(scans, n, true)[h].scan;
            Counted(EventsTo(scans, n, true), h, s) <==> s.ss != 0 || s.ah == 0
  {
    var a := EventsTo(scans, n - 1, true);
    var log, s := EventsTo(scans, n, true), scans[n - 1];
    var p, q := Prelude(scans, n - 1, true), Headers(scans, n - 1);
    assert log == a + p + q + [Data(s)];
    if h < |a| {
      StatisticsPrecedeHeader(scans, n - 1, h);
      SameCount(a, log, h);
    } else {
      assert h == |a| + |p| + |q| - 1 && log[h] == ScanHeader(s);
      if p != [] {
        assert log[|a|] == Statistics(s);
      } else if n > 1 {
        EndsInData(scans, n - 1);
        assert log[h - 1] == a[|a| - 1] && log[h - 2] == a[|a| - 2];
      }
    }
  }

  lemma SameCount(a: seq<Event>, log: seq<Event>, h: nat)
    requires a <= log && h < |a| && a[h].ScanHeader?
    ensures log[h] == a[h] && (Counted(log, h, a[h].scan) <==> Counted(a, h, a[h].scan))
  {
    assert forall j :: 0 <= j < |a| ==> log[j] == a[j];
  }

  lemma EndsInData(scans: seq<Scan>, n: nat)
    requires 0 < n <= |scans|
    ensures var a := EventsTo(scans, n, true);
            |a| >= 2 && a[|a| - 1].Data? && a[|a| - 2].ScanHeader?
  {
  }

  /** Without optimisation there are none. */
  lemma {:induction false} NoStatistics(scans: seq<Scan>, n: nat, j: nat)
    requires n <= |scans| && j < |EventsTo(scans, n, false)|
    ensures !EventsTo(scans, n, false)[j].Statistics?
  {
    var a := EventsTo(scans, n - 1, false);
    if j < |a| {
      NoStatistics(scans, n - 1, j);
    }
  }

  /** Without a script, the one scan is an acceptable sequential one of the whole image, if its components are not too
      many for one scan. */
  lemma WholeImageIsAccepted(n: nat)
    requires 1 <= n <= MAX_COMPS_IN_SCAN
    ensures SequentialScript([WholeImage(n)], n)
  {
    var s := WholeImage(n);
    forall c | 0 <= c < n
      ensures c in SentBy([s])
    {
      assert s.comps[c] == c;
      assert s in [s];
    }
  }
}
