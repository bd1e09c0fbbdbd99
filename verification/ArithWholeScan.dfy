/** Whole scans through the arithmetic coder: all MCUs of a sequential scan, or of any progressive one, with restart
    intervals. */
module ArithWholeScan {
  import opened Numbers
  import opened ByteStuffing
  import opened AritTable
  import opened IntervalCoder
  import opened ArithModel
  import opened ArithEncoder
  import opened ArithDecoder
  import opened ArithMcuEncoder
  import opened ArithMcuDecoder
  import opened ArithScan

  type Mcu = seq<Block>

  /** What the scan header says, and the restart interval. */
  datatype Job = Job(layout: McuLayout, progressive: bool, ss: nat, se: nat, ah: nat, al: nat, interval: nat)

  ghost predicate GoodJob(j: Job) {
    && GoodLayout(j.layout) && j.ss <= j.se < 64 && j.al <= 15
    && (if !j.progressive then j.ss == 0 && j.se == 63 && j.ah == j.al == 0
        else (j.ah == 0 || j.ah == j.al + 1)
             && (if j.ss == 0 then j.se == 0 else |j.layout.membership| == 1 && |j.layout.ac| > 0))
  }

  ghost predicate GoodMcus(j: Job, mcus: seq<Mcu>) {
    && GoodJob(j)
    && forall n :: 0 <= n < |mcus| ==>
         |mcus[n]| == |j.layout.membership| && forall i :: 0 <= i < |mcus[n]| ==> IsBlock(mcus[n][i])
  }

  predicate SendsDc(j: Job) {
    CodesDc(j.progressive, j.ss, j.ah)
  }

  /** DC predictions and contexts at the start of a segment. */
  function Fresh(j: Job): Prediction {
    Prediction(seq(|j.layout.dc|, _ => 0), seq(|j.layout.dc|, _ => 0))
  }

  /** In front of a segment the prediction is zero: a component's first block is coded by its own value. */
  lemma FirstInSegment(j: Job, i: nat, b: Block)
    requires GoodJob(j) && i < |j.layout.membership|
    ensures GoodPrediction(j.layout, Fresh(j))
    ensures DcDiff(j.layout, Fresh(j), i, b, j.al) == PointDc(b[0], j.al)
    ensures Fresh(j).ctx[j.layout.membership[i]] == DcContext(j.layout.dc[j.layout.membership[i]], 0)
  {
  }

  /** The decisions for one MCU, by the procedure that `start_pass` selects. */
  function McuCode(j: Job, p: Prediction, mcu: Mcu): seq<Decision>
    requires GoodJob(j) && GoodPrediction(j.layout, p) && |mcu| == |j.layout.membership|
  {
    if SendsDc(j) then McuDecisions(j.layout, p, mcu, 0, j.al, !j.progressive)
    else if j.ss == 0 then DcBits(mcu, 0, j.al)
    else AcCode(j, mcu[0])
  }

  function AcCode(j: Job, b: Block): seq<Decision>
    requires GoodJob(j) && j.ss > 0
  {
    var ke := LastNonzero(b, j.al, j.se);
    if j.ah == 0 then AcDecisions(j.layout.ac[0], b, j.al, j.ss, ke, j.se)
    else RefineDecisions(j.layout.ac[0], b, j.al, j.ss, LastNonzero(b, j.al + 1, ke), ke, j.se)
  }

  function After(j: Job, p: Prediction, mcu: Mcu): (r: Prediction)
    requires GoodJob(j) && GoodPrediction(j.layout, p) && |mcu| == |j.layout.membership|
    ensures GoodPrediction(j.layout, r)
  {
    if SendsDc(j) then McuPrediction(j.layout, p, mcu, 0, j.al) else p
  }

  /** The decisions of a segment from MCU `n` to MCU `end`. */
  function SegCode(j: Job, p: Prediction, mcus: seq<Mcu>, n: nat, end: nat): seq<Decision>
    requires GoodMcus(j, mcus) && GoodPrediction(j.layout, p) && n <= end <= |mcus|
    decreases end - n
  {
    if n == end then [] else McuCode(j, p, mcus[n]) + SegCode(j, After(j, p, mcus[n]), mcus, n + 1, end)
  }

  /** Segment `k` begins with this MCU; the one after it where it ends. */
  function Begin(interval: nat, total: nat, k: nat): (b: nat)
    ensures b <= total
  {
    if k == 0 then 0 else if interval == 0 then total
    else
      var b := Begin(interval, total, k - 1) + interval;
      if b < total then b else total
  }

  lemma BeginGrows(interval: nat, total: nat, k: nat)
    ensures Begin(interval, total, k) <= Begin(interval, total, k + 1)
  {
  }

  function Segment(j: Job, mcus: seq<Mcu>, k: nat): seq<Decision>
    requires GoodMcus(j, mcus)
  {
    BeginGrows(j.interval, |mcus|, k);
    SegCode(j, Fresh(j), mcus, Begin(j.interval, |mcus|, k), Begin(j.interval, |mcus|, k + 1))
  }

  lemma SegmentIs(j: Job, mcus: seq<Mcu>, k: nat)
    requires GoodMcus(j, mcus)
    ensures Begin(j.interval, |mcus|, k) <= Begin(j.interval, |mcus|, k + 1)
    ensures [] + SegCode(j, Fresh(j), mcus, Begin(j.interval, |mcus|, k), Begin(j.interval, |mcus|, k + 1))
            == Segment(j, mcus, k)
  {
    BeginGrows(j.interval, |mcus|, k);
  }

  function Cleared(j: Job, stats: Stats): Stats {
    ClearStats(stats, ClearedDc(j.layout, j.progressive, j.ss, j.ah), ClearedAc(j.layout, j.progressive, j.se))
  }

  /** The statistics at the start of segment `k`: those at the end of the one before, with the scan's tables cleared. */
  ghost function StatsAt(tab: ProbTable, j: Job, mcus: seq<Mcu>, k: nat): (s: Stats)
    requires GoodMcus(j, mcus) && GoodStats(tab, map[])
    ensures GoodStats(tab, s)
  {
    if k == 0 then map[]
    else
      var c := Coder(UNIT, StatsAt(tab, j, mcus, k - 1));
      var ds := Segment(j, mcus, k - 1);
      ClearKeepsGood(tab, c, ds, ClearedDc(j.layout, j.progressive, j.ss, j.ah),
                     ClearedAc(j.layout, j.progressive, j.se));
      Cleared(j, Run(tab, c, ds).stats)
  }

  /** The first `k` segments and what is cleared behind each. */
  function Stretches(j: Job, mcus: seq<Mcu>, k: nat): (s: seq<Stretch>)
    requires GoodMcus(j, mcus)
    ensures |s| == k
  {
    if k == 0 then []
    else
      Stretches(j, mcus, k - 1)
      + [Stretch(Segment(j, mcus, k - 1), ClearedDc(j.layout, j.progressive, j.ss, j.ah),
                 ClearedAc(j.layout, j.progressive, j.se))]
  }

  lemma {:induction false} StatsAreThrough(tab: ProbTable, j: Job, mcus: seq<Mcu>, k: nat)
    requires GoodMcus(j, mcus) && GoodStats(tab, map[])
    ensures StatsAt(tab, j, mcus, k) == StatsThrough(tab, Stretches(j, mcus, k))
  {
    hide GoodMcus, GoodStats, Run, Segment, ClearStats, ClearedDc, ClearedAc;
    if k > 0 {
      StatsAreThrough(tab, j, mcus, k - 1);
      assert Stretches(j, mcus, k)[..k - 1] == Stretches(j, mcus, k - 1);
    }
  }

  /** In every segment of every scan, after any decisions, `fixed_bin` has the estimate 0.5 with MPS 0. */
  lemma FixedInScan(j: Job, mcus: seq<Mcu>, k: nat, ds: seq<Decision>)
    requires GoodMcus(j, mcus)
    ensures |JPEG_ARITAB| == 114 && GoodTable(JPEG_ARITAB) && GoodStats(JPEG_ARITAB, map[])
    ensures var sv := StatOf(Run(JPEG_ARITAB, Coder(UNIT, StatsAt(JPEG_ARITAB, j, mcus, k)), ds).stats, FixedBin);
            GoodState(JPEG_ARITAB, sv) && Qe(JPEG_ARITAB, sv) == 0x5a1d && !MpsOf(sv)
  {
    hide GoodMcus, GoodStats, Run, Segment, GoodTable, StatsThrough, StatsAt, Qe;
    FixedEstimate(Stretches(j, mcus, k), ds);
    StatsAreThrough(JPEG_ARITAB, j, mcus, k);
  }

  /** The bytes of segment `k`, before stuffing, lie in the final interval of its decisions. */
  ghost predicate SegmentCoded(tab: ProbTable, j: Job, mcus: seq<Mcu>, k: nat, raw: seq<Byte>)
    requires GoodMcus(j, mcus) && GoodStats(tab, map[])
  {
    Contains(Run(tab, Coder(UNIT, StatsAt(tab, j, mcus, k)), Segment(j, mcus, k)).iv, raw)
  }

  ghost predicate AllCoded(tab: ProbTable, j: Job, mcus: seq<Mcu>, raws: seq<seq<Byte>>)
    requires GoodMcus(j, mcus) && GoodStats(tab, map[])
  {
    forall k :: 0 <= k < |raws| ==> SegmentCoded(tab, j, mcus, k, raws[k])
  }

  /** The first `n` segments, each followed by its restart marker, numbered modulo 8. */
  function Framed(raws: seq<seq<Byte>>, n: nat): seq<Byte>
    requires n <= |raws|
  {
    if n == 0 then [] else Framed(raws, n - 1) + Stuff(raws[n - 1]) + [0xFF] + [0xD0 + (n - 1) % 8]
  }

  lemma {:induction false} FramedPrefix(raws: seq<seq<Byte>>, more: seq<seq<Byte>>, n: nat)
    requires raws <= more && n <= |raws|
    ensures Framed(raws, n) == Framed(more, n)
  {
    if n > 0 {
      FramedPrefix(raws, more, n - 1);
    }
  }

  /** The bytes of a scan: its segments, with restart markers between them. */
  ghost predicate ScanBytes(tab: ProbTable, j: Job, mcus: seq<Mcu>, raws: seq<seq<Byte>>, bytes: seq<Byte>)
    requires GoodMcus(j, mcus) && GoodStats(tab, map[])
  {
    && raws != [] && AllCoded(tab, j, mcus, raws) && Begin(j.interval, |mcus|, |raws|) == |mcus|
    && bytes == Framed(raws, |raws| - 1) + Stuff(raws[|raws| - 1])
  }

  ghost predicate IsScan(tab: ProbTable, j: Job, mcus: seq<Mcu>, bytes: seq<Byte>)
    requires GoodMcus(j, mcus) && GoodStats(tab, map[])
  {
    exists raws :: ScanBytes(tab, j, mcus, raws, bytes)
  }

  lemma McuOf(j: Job, mcus: seq<Mcu>, n: nat)
    requires GoodMcus(j, mcus) && n < |mcus|
    ensures GoodJob(j) && |mcus[n]| == |j.layout.membership| && forall i :: 0 <= i < |mcus[n]| ==> IsBlock(mcus[n][i])
  {
  }

  lemma SegStep(log: seq<Decision>, j: Job, p: Prediction, mcus: seq<Mcu>, n: nat, end: nat)
    requires GoodMcus(j, mcus) && GoodPrediction(j.layout, p) && n < end <= |mcus|
    ensures log + SegCode(j, p, mcus, n, end)
            == (log + McuCode(j, p, mcus[n])) + SegCode(j, After(j, p, mcus[n]), mcus, n + 1, end)
  {
    hide McuCode, After, GoodMcus, GoodJob;
    McuOf(j, mcus, n);
    var a, b := McuCode(j, p, mcus[n]), SegCode(j, After(j, p, mcus[n]), mcus, n + 1, end);
    assert log + (a + b) == (log + a) + b;
  }

  lemma SegEnd(log: seq<Decision>, j: Job, p: Prediction, mcus: seq<Mcu>, n: nat)
    requires GoodMcus(j, mcus) && GoodPrediction(j.layout, p) && n <= |mcus|
    ensures log + SegCode(j, p, mcus, n, n) == log
  {
  }

  lemma Nothing<T>(s: seq<T>)
    ensures [] + s == s && s + [] == s
  {
  }

  /** One MCU by the procedure that `start_pass` selects. */
  method EncodeMcu(enc: ScanEncoder, j: Job, mcu: Mcu)
    requires enc.Valid() && GoodJob(j) && |mcu| == |j.layout.membership| && enc.layout == j.layout
    requires enc.progressive == j.progressive && enc.al == j.al
    modifies enc`lastDcVal, enc`dcContext, enc.e
    ensures enc.Valid() && enc.e.base == old(enc.e.base) && enc.e.stats0 == old(enc.e.stats0)
    ensures enc.e.log == old(enc.e.log) + McuCode(j, old(enc.Now()), mcu)
    ensures enc.Now() == After(j, old(enc.Now()), mcu)
  {
    hide Encoder.Valid, McuDecisions, AcDecisions, RefineDecisions, LastNonzero, McuPrediction, DcBits;
    if SendsDc(j) {
      enc.EncodeDcBlocks(mcu);
    } else if j.ss == 0 {
      enc.EncodeDcRefine(mcu);
    } else if j.ah == 0 {
      EncodeAcFirst(enc.e, enc.layout.ac[0], mcu[0], j.ss, j.se, j.al);
    } else {
      EncodeAcRefine(enc.e, enc.layout.ac[0], mcu[0], j.ss, j.se, j.ah, j.al);
    }
  }

  /** Where the restart counter stands before MCU `n` in segment `k`. */
  ghost predicate Placed(interval: nat, total: nat, k: nat, n: nat, toGo: nat) {
    && Begin(interval, total, k) <= n <= Begin(interval, total, k + 1)
    && (interval > 0 ==> Begin(interval, total, k) + interval == n + toGo && (n < total ==> toGo <= interval))
  }

  lemma AtFirst(interval: nat, total: nat)
    ensures Placed(interval, total, 0, 0, interval) && Begin(interval, total, 0) == 0
  {
  }

  /** A restart is due exactly at the end of a segment. */
  lemma DueAtEnd(interval: nat, total: nat, k: nat, n: nat, toGo: nat)
    requires Placed(interval, total, k, n, toGo) && n < total
    ensures interval > 0 && toGo == 0 ==>
              n == Begin(interval, total, k + 1) < Begin(interval, total, k + 2)
                && Placed(interval, total, k + 1, n, interval)
    ensures !(interval > 0 && toGo == 0) ==> n < Begin(interval, total, k + 1)
  {
  }

  lemma OneDone(interval: nat, total: nat, k: nat, n: nat, toGo: nat)
    requires Placed(interval, total, k, n, toGo) && n < Begin(interval, total, k + 1) && (interval > 0 ==> toGo > 0)
    ensures Placed(interval, total, k, n + 1, if interval > 0 then toGo - 1 else toGo)
  {
  }

  /** The state of the encoder between two MCUs, apart from where it is. */
  ghost predicate Encoding(enc: ScanEncoder, tab: ProbTable, j: Job, mcus: seq<Mcu>, n: nat, fin: seq<seq<Byte>>)
    reads enc, enc.e
    requires GoodMcus(j, mcus) && GoodStats(tab, map[]) && n <= Begin(j.interval, |mcus|, |fin| + 1)
  {
    && enc.Valid() && enc.e.tab == tab && enc.layout == j.layout && AllCoded(tab, j, mcus, fin)
    && enc.e.base == Framed(fin, |fin|) && enc.nextRestartNum == |fin| % 8
    && enc.e.stats0 == StatsAt(tab, j, mcus, |fin|)
    && (!SendsDc(j) ==> enc.Now() == Fresh(j))
    && enc.e.log + SegCode(j, enc.Now(), mcus, n, Begin(j.interval, |mcus|, |fin| + 1)) == Segment(j, mcus, |fin|)
  }

  /** The segment is finished, and its marker sent. */
  lemma SegmentFinished(tab: ProbTable, j: Job, mcus: seq<Mcu>, fin: seq<seq<Byte>>, seg: seq<Byte>, stats: Stats)
    requires GoodMcus(j, mcus) && GoodStats(tab, map[]) && AllCoded(tab, j, mcus, fin)
    requires SegmentCoded(tab, j, mcus, |fin|, seg)
    requires stats == Run(tab, Coder(UNIT, StatsAt(tab, j, mcus, |fin|)), Segment(j, mcus, |fin|)).stats
    ensures AllCoded(tab, j, mcus, fin + [seg])
    ensures Framed(fin + [seg], |fin| + 1) == Framed(fin, |fin|) + Stuff(seg) + [0xFF] + [0xD0 + |fin| % 8]
    ensures StatsAt(tab, j, mcus, |fin| + 1) == Cleared(j, stats)
    ensures (|fin| % 8 + 1) % 8 == |fin + [seg]| % 8
  {
    hide AllCoded, SegmentCoded, Framed, StatsAt, Stuff, Run, Segment, GoodMcus, Cleared;
    var more := fin + [seg];
    MoreCoded(tab, j, mcus, fin, seg);
    FramedPrefix(fin, more, |fin|);
    FramedNext(more, |fin|);
    StatsNext(tab, j, mcus, |fin|);
  }

  lemma MoreCoded(tab: ProbTable, j: Job, mcus: seq<Mcu>, fin: seq<seq<Byte>>, seg: seq<Byte>)
    requires GoodMcus(j, mcus) && GoodStats(tab, map[]) && AllCoded(tab, j, mcus, fin)
    requires SegmentCoded(tab, j, mcus, |fin|, seg)
    ensures AllCoded(tab, j, mcus, fin + [seg])
  {
    hide SegmentCoded, GoodMcus, GoodStats;
    forall k | 0 <= k < |fin + [seg]|
      ensures SegmentCoded(tab, j, mcus, k, (fin + [seg])[k])
    {
      assert k < |fin| ==> (fin + [seg])[k] == fin[k];
    }
  }

  lemma FramedNext(raws: seq<seq<Byte>>, k: nat)
    requires k < |raws|
    ensures Framed(raws, k + 1) == Framed(raws, k) + Stuff(raws[k]) + [0xFF] + [0xD0 + k % 8]
  {
  }

  lemma StatsNext(tab: ProbTable, j: Job, mcus: seq<Mcu>, k: nat)
    requires GoodMcus(j, mcus) && GoodStats(tab, map[])
    ensures StatsAt(tab, j, mcus, k + 1)
            == Cleared(j, Run(tab, Coder(UNIT, StatsAt(tab, j, mcus, k)), Segment(j, mcus, k)).stats)
  {
    hide Run, Segment, Cleared, GoodMcus;
  }

  /** The restart check of the encoder. */
  method EncodeRestart(enc: ScanEncoder, tab: ProbTable, j: Job, ghost mcus: seq<Mcu>, ghost n: nat,
                       ghost fin: seq<seq<Byte>>)
    returns (ghost fin': seq<seq<Byte>>)
    requires GoodMcus(j, mcus) && GoodStats(tab, map[]) && n < |mcus|
    requires Placed(j.interval, |mcus|, |fin|, n, enc.restartsToGo) && Encoding(enc, tab, j, mcus, n, fin)
    requires enc.progressive == j.progressive && enc.ss == j.ss && enc.se == j.se && enc.ah == j.ah
    requires enc.restartInterval == j.interval
    modifies enc, enc.e
    ensures n < Begin(j.interval, |mcus|, |fin'| + 1) && Encoding(enc, tab, j, mcus, n, fin')
    ensures Placed(j.interval, |mcus|, |fin'|, n + 1, enc.restartsToGo)
  {
    hide Encoder.Valid, Begin, Placed, SegCode, Segment, StatsAt, AllCoded, Framed, Run, Contains, Stuff, GoodMcus,
         ClearStats;
    ghost var due, toGo, k := enc.restartInterval > 0 && enc.restartsToGo == 0, enc.restartsToGo, |fin|;
    DueAtEnd(j.interval, |mcus|, k, n, toGo);
    ghost var log, stats, now := enc.e.log, enc.e.stats, enc.Now();
    enc.e.StatsAreRun();
    var seg := enc.CheckRestart();
    if due {
      SegEnd(log, j, now, mcus, n);
      SegmentFinished(tab, j, mcus, fin, seg, stats);
      fin' := fin + [seg];
      SegmentIs(j, mcus, k + 1);
      OneDone(j.interval, |mcus|, k + 1, n, j.interval);
    } else {
      fin' := fin;
      OneDone(j.interval, |mcus|, k, n, toGo);
    }
  }

  lemma NothingCoded(j: Job, mcus: seq<Mcu>, tab: ProbTable)
    requires GoodMcus(j, mcus) && GoodStats(tab, map[])
    ensures Begin(j.interval, |mcus|, 0) == 0 && StatsAt(tab, j, mcus, 0) == map[]
    ensures AllCoded(tab, j, mcus, []) && Framed([], 0) == []
  {
  }

  /** A whole scan, from `start_pass` to `finish_pass`. */
  method EncodeScan(tab: ProbTable, j: Job, mcus: seq<Mcu>) returns (bytes: seq<Byte>)
    requires |tab| == 114 && GoodMcus(j, mcus)
    ensures GoodStats(tab, map[]) && IsScan(tab, j, mcus, bytes)
  {
    hide Encoder.Valid, Begin, Placed, SegCode, StatsAt, AllCoded, Framed, Run, Contains, Stuff, GoodMcus, McuCode,
         McuPrediction, GoodStats, NoMarkers, EndsTight;
    FreshStats(tab);
    JobOf(j, mcus);
    NothingCoded(j, mcus, tab);
    SegmentIs(j, mcus, 0);
    AtFirst(j.interval, |mcus|);
    var enc := new ScanEncoder(tab, j.layout, j.progressive, j.ss, j.se, j.ah, j.al, j.interval);
    ghost var raws: seq<seq<Byte>> := [];
    var n := 0;
    while n < |mcus|
      invariant n <= |mcus| && Placed(j.interval, |mcus|, |raws|, n, enc.restartsToGo)
      invariant n <= Begin(j.interval, |mcus|, |raws| + 1) && Encoding(enc, tab, j, mcus, n, raws)
    {
      McuOf(j, mcus, n);
      raws := EncodeRestart(enc, tab, j, mcus, n, raws);
      SegStep(enc.e.log, j, enc.Now(), mcus, n, Begin(j.interval, |mcus|, |raws| + 1));
      EncodeMcu(enc, j, mcus[n]);
      n := n + 1;
    }
    SegEnd(enc.e.log, j, enc.Now(), mcus, n);
    enc.e.Finish();
    bytes := enc.e.out;
    LastSegment(tab, j, mcus, raws, enc.e.raw);
    raws := raws + [enc.e.raw];
    assert ScanBytes(tab, j, mcus, raws, bytes);
  }

  lemma FreshStats(tab: ProbTable)
    requires |tab| == 114
    ensures GoodStats(tab, map[]) && GoodState(tab, 0) && GoodState(tab, 113)
  {
  }

  lemma JobOf(j: Job, mcus: seq<Mcu>)
    requires GoodMcus(j, mcus)
    ensures GoodJob(j) && GoodLayout(j.layout) && j.ss <= j.se < 64
  {
  }

  lemma LastSegment(tab: ProbTable, j: Job, mcus: seq<Mcu>, fin: seq<seq<Byte>>, seg: seq<Byte>)
    requires GoodMcus(j, mcus) && GoodStats(tab, map[]) && AllCoded(tab, j, mcus, fin)
    requires SegmentCoded(tab, j, mcus, |fin|, seg)
    ensures AllCoded(tab, j, mcus, fin + [seg]) && Framed(fin + [seg], |fin|) == Framed(fin, |fin|)
  {
    hide AllCoded, SegmentCoded, GoodMcus, Framed;
    FramedPrefix(fin, fin + [seg], |fin|);
    MoreCoded(tab, j, mcus, fin, seg);
  }

  /** What the decoder presumes of the blocks that it is given. */
  ghost predicate McuReady(j: Job, blks0: Mcu, mcu: Mcu)
    requires GoodJob(j) && |mcu| == |j.layout.membership|
  {
    && |blks0| == |mcu|
    && (if SendsDc(j) then !j.progressive ==> forall i, k :: 0 <= i < |mcu| && 1 <= k < 64 ==> blks0[i][k] == 0
        else if j.ss == 0 then true
        else if j.ah == 0 then forall k :: j.ss <= k <= j.se ==> blks0[0][k] == 0
        else forall k :: j.ss <= k <= j.se ==> blks0[0][k] == TruncAc(mcu[0][k], j.al + 1))
  }

  /** The scan's coefficients are received down to bit Al, the others are as before. */
  ghost predicate McuReceived(j: Job, blks0: Mcu, blks: Mcu, mcu: Mcu)
    requires GoodJob(j) && |mcu| == |j.layout.membership|
  {
    && |blks0| == |blks| == |mcu|
    && (if SendsDc(j) then
          forall i :: 0 <= i < |mcu| ==> BlockReceived(blks[i], blks0[i], mcu[i], j.al, !j.progressive)
        else if j.ss == 0 then forall i :: 0 <= i < |mcu| ==> DcRefined(blks[i], blks0[i], mcu[i], j.al)
        else Received(blks[0], blks0[0], mcu[0], j.al, j.ss, j.se + 1))
  }

  ghost predicate AllReady(j: Job, blks0: seq<Mcu>, mcus: seq<Mcu>)
    requires GoodMcus(j, mcus)
  {
    |blks0| == |mcus| && forall n :: 0 <= n < |mcus| ==> McuReady(j, blks0[n], mcus[n])
  }

  /** The first MCUs are received. */
  ghost predicate ReceivedTo(j: Job, blks0: seq<Mcu>, blks: seq<Mcu>, mcus: seq<Mcu>)
    requires GoodMcus(j, mcus)
  {
    |blks| <= |mcus| == |blks0| && forall n :: 0 <= n < |blks| ==> McuReceived(j, blks0[n], blks[n], mcus[n])
  }

  lemma OneMoreReceived(j: Job, blks0: seq<Mcu>, blks: seq<Mcu>, mcus: seq<Mcu>, got: Mcu)
    requires GoodMcus(j, mcus) && ReceivedTo(j, blks0, blks, mcus) && |blks| < |mcus|
    requires McuReceived(j, blks0[|blks|], got, mcus[|blks|])
    ensures ReceivedTo(j, blks0, blks + [got], mcus)
  {
    hide McuReceived;
  }

  ghost predicate McuInRange(j: Job, p: Prediction, mcu: Mcu)
    requires GoodJob(j) && GoodPrediction(j.layout, p) && |mcu| == |j.layout.membership|
  {
    SendsDc(j) ==> DcInRange(j.layout, p, mcu, 0, j.al)
  }

  ghost predicate SegInRange(j: Job, p: Prediction, mcus: seq<Mcu>, n: nat, end: nat)
    requires GoodMcus(j, mcus) && GoodPrediction(j.layout, p) && n <= end <= |mcus|
    decreases end - n
  {
    n == end || (McuInRange(j, p, mcus[n]) && SegInRange(j, After(j, p, mcus[n]), mcus, n + 1, end))
  }

  ghost predicate SegmentInRange(j: Job, mcus: seq<Mcu>, k: nat)
    requires GoodMcus(j, mcus)
  {
    BeginGrows(j.interval, |mcus|, k);
    SegInRange(j, Fresh(j), mcus, Begin(j.interval, |mcus|, k), Begin(j.interval, |mcus|, k + 1))
  }

  /** No DC difference in the scan is outside what the decoder accepts. */
  ghost predicate ScanInRange(j: Job, mcus: seq<Mcu>)
    requires GoodMcus(j, mcus)
  {
    forall k: nat :: SegmentInRange(j, mcus, k)
  }

  /** One MCU by the procedure that `start_pass` selects: fails only on a DC difference out of range. */
  method DecodeMcu(dec: ScanDecoder, d: Decoder, j: Job, blks0: Mcu, ghost p: Prediction, ghost mcu: Mcu,
                   ghost rest: seq<Decision>)
    returns (ok: bool, blks: Mcu)
    requires d == dec.d && d.Valid() && GoodJob(j) && |mcu| == |j.layout.membership| && McuReady(j, blks0, mcu)
    requires forall i :: 0 <= i < |mcu| ==> IsBlock(mcu[i])
    requires dec.layout == j.layout && dec.progressive == j.progressive && dec.al == j.al
    requires GoodPrediction(j.layout, p) && dec.Matches(p) && Next(d.script, d.k, McuCode(j, p, mcu) + rest)
    modifies dec`lastDcVal, dec`dcContext, d`pos, d`unreadMarker, d`m, d`c, d`a, d`ct, d`iv, d`stats, d`k
    ensures ok <==> McuInRange(j, p, mcu)
    ensures ok ==> d.Valid() && Next(d.script, d.k, rest) && dec.Matches(After(j, p, mcu))
    ensures ok ==> McuReceived(j, blks0, blks, mcu)
  {
    hide Decoder.Valid, Next, McuDecisions, AcDecisions, RefineDecisions, LastNonzero, McuPrediction, DcBits,
         DcInRange, TruncAc, TruncDc, BlockReceived, Received, DcRefined, IsBlock;
    ok, blks := true, blks0;
    if SendsDc(j) {
      ok, blks := dec.DecodeDcBlocks(blks0, p, mcu, rest);
    } else if j.ss == 0 {
      blks := dec.DecodeDcRefine(blks0, mcu, rest);
    } else {
      var blk;
      if j.ah == 0 {
        ok, blk := DecodeAcFirst(d, dec.layout.ac[0], blks0[0], j.ss, j.se, j.al, mcu[0], rest);
      } else {
        ok, blk := DecodeAcRefine(d, dec.layout.ac[0], blks0[0], j.ss, j.se, j.al, mcu[0], rest);
      }
      blks := [blk];
    }
  }

  /** The marker behind segment `k`; `final` comes after the scan. */
  function MarkerAfter(raws: seq<seq<Byte>>, k: nat, final: Byte): Byte {
    if k + 1 < |raws| then 0xD0 + k % 8 else final
  }

  /** The state of the decoder between two MCUs, in segment `k`. */
  ghost predicate Decoding(dec: ScanDecoder, tab: ProbTable, j: Job, mcus: seq<Mcu>, raws: seq<seq<Byte>>, final: Byte,
                           n: nat, k: nat, p: Prediction)
    reads dec, dec.d
    requires GoodMcus(j, mcus) && GoodStats(tab, map[]) && n <= Begin(j.interval, |mcus|, k + 1)
  {
    && dec.d.Valid() && dec.d.tab == tab && k < |raws| && dec.layout == j.layout
    && dec.d.raw == raws[k] && dec.d.before == Framed(raws, k) && dec.d.fill == 1
       && dec.d.marker == MarkerAfter(raws, k, final)
    && dec.nextRestartNum == k % 8
    && dec.d.stats0 == StatsAt(tab, j, mcus, k) && dec.d.script == Segment(j, mcus, k)
    && GoodPrediction(j.layout, p) && dec.Matches(p) && (!SendsDc(j) ==> p == Fresh(j))
    && Next(dec.d.script, dec.d.k, SegCode(j, p, mcus, n, Begin(j.interval, |mcus|, k + 1)))
  }

  lemma {:induction false} FramedGrows(raws: seq<seq<Byte>>, m: nat, n: nat)
    requires m <= n <= |raws|
    ensures Framed(raws, m) <= Framed(raws, n)
  {
    if m < n {
      FramedGrows(raws, m, n - 1);
    }
  }

  lemma TwoEnds(s: seq<Byte>, b: Byte)
    ensures s + [0xFF, b] == s + [0xFF] + [b]
  {
  }

  /** The segment behind segment `k`, and the marker behind that, in the source. */
  lemma NextInSource(raws: seq<seq<Byte>>, k: nat, final: Byte, data: seq<Byte>)
    requires k + 1 < |raws| && data == Framed(raws, |raws| - 1) + Stuff(raws[|raws| - 1]) + [0xFF, final]
    ensures Framed(raws, k) + Stuff(raws[k]) + Repeat(0xFF, 1) + [MarkerAfter(raws, k, final)] == Framed(raws, k + 1)
    ensures Framed(raws, k + 1) + Stuff(raws[k + 1]) + [0xFF, MarkerAfter(raws, k + 1, final)] <= data
  {
    hide Stuff, Framed, Repeat;
    OneOne();
    FramedNext(raws, k);
    if k + 2 < |raws| {
      FramedNext(raws, k + 1);
      FramedGrows(raws, k + 2, |raws| - 1);
      TwoEnds(Framed(raws, k + 1) + Stuff(raws[k + 1]), MarkerAfter(raws, k + 1, final));
      PrefixLonger(Framed(raws, k + 2), Framed(raws, |raws| - 1), Stuff(raws[|raws| - 1]), [0xFF, final]);
    }
  }

  /** The statistics that the decoder clears are those the encoder cleared. */
  lemma NextStats(tab: ProbTable, j: Job, mcus: seq<Mcu>, raws: seq<seq<Byte>>, k: nat, stats: Stats)
    requires GoodMcus(j, mcus) && GoodStats(tab, map[]) && AllCoded(tab, j, mcus, raws) && k + 1 < |raws|
    requires stats == Run(tab, Coder(UNIT, StatsAt(tab, j, mcus, k)), Segment(j, mcus, k)).stats
    ensures Cleared(j, stats) == StatsAt(tab, j, mcus, k + 1) && GoodStats(tab, Cleared(j, stats))
    ensures Contains(Run(tab, Coder(UNIT, Cleared(j, stats)), Segment(j, mcus, k + 1)).iv, raws[k + 1])
  {
    hide Contains, Run, Segment, GoodMcus, Cleared, StatsAt;
    StatsNext(tab, j, mcus, k);
    assert SegmentCoded(tab, j, mcus, k + 1, raws[k + 1]);
  }

  lemma MoreSegments(interval: nat, total: nat, k: nat, count: nat)
    requires Begin(interval, total, count) == total && Begin(interval, total, k + 1) < total && k < count
    ensures k + 1 < count
  {
  }

  /** The restart check of the decoder; on a stream of the encoder, every marker is the expected one. */
  method DecodeRestart(dec: ScanDecoder, d: Decoder, tab: ProbTable, j: Job, ghost mcus: seq<Mcu>,
                       ghost raws: seq<seq<Byte>>, final: Byte, ghost n: nat, ghost k: nat, ghost p: Prediction)
    returns (ok: bool, ghost k': nat, ghost p': Prediction)
    requires d == dec.d && GoodMcus(j, mcus) && GoodStats(tab, map[]) && n < |mcus| && 0 < final < 0xFF
    requires Placed(j.interval, |mcus|, k, n, dec.restartsToGo) && n <= Begin(j.interval, |mcus|, k + 1)
    requires Decoding(dec, tab, j, mcus, raws, final, n, k, p)
    requires AllCoded(tab, j, mcus, raws) && Begin(j.interval, |mcus|, |raws|) == |mcus|
    requires d.data == Framed(raws, |raws| - 1) + Stuff(raws[|raws| - 1]) + [0xFF, final]
    requires dec.progressive == j.progressive && dec.ss == j.ss && dec.se == j.se && dec.ah == j.ah
    requires dec.restartInterval == j.interval
    modifies dec, d
    ensures ok && n < Begin(j.interval, |mcus|, k' + 1) && Decoding(dec, tab, j, mcus, raws, final, n, k', p')
    ensures Placed(j.interval, |mcus|, k', n + 1, dec.restartsToGo)
    ensures (k' == k && p' == p) || (k' == k + 1 && p' == Fresh(j) && n == Begin(j.interval, |mcus|, k'))
  {
    hide Decoder.Valid, Begin, Placed, SegCode, Segment, StatsAt, AllCoded, Framed, Run, Contains, Stuff, GoodMcus,
         ClearStats, GoodStats, Repeat, Next, MarkerAfter;
    ghost var toGo := dec.restartsToGo;
    DueAtEnd(j.interval, |mcus|, k, n, toGo);
    k', p' := k, p;
    if dec.restartInterval > 0 && dec.restartsToGo == 0 {
      MoreSegments(j.interval, |mcus|, k, |raws|);
      ScriptDone(d.script, d.k, j, p, mcus, n);
      d.StatsAtEnd();
      NextInSource(raws, k, final, d.data);
      NextStats(tab, j, mcus, raws, k, d.stats);
      k', p' := k + 1, Fresh(j);
      SegmentIs(j, mcus, k');
      AllOfScript(Segment(j, mcus, k'));
      OneDone(j.interval, |mcus|, k', n, j.interval);
      Numbered(raws, k, final);
      SameCleared(j, mcus);
      assert d.Reached() == Framed(raws, k');
      ok := dec.CheckRestart(raws[k'], MarkerAfter(raws, k', final), Segment(j, mcus, k'));
    } else {
      OneDone(j.interval, |mcus|, k, n, toGo);
      ok := dec.CheckRestart([], 0, []);
    }
  }

  lemma SameCleared(j: Job, mcus: seq<Mcu>)
    requires GoodMcus(j, mcus)
    ensures ClearedAc(j.layout, j.progressive, j.ss) == ClearedAc(j.layout, j.progressive, j.se)
  {
  }

  lemma Numbered(raws: seq<seq<Byte>>, k: nat, final: Byte)
    requires k + 1 < |raws| && 0 < final < 0xFF
    ensures MarkerAfter(raws, k, final) == 0xD0 + k % 8 && (k % 8 + 1) % 8 == (k + 1) % 8
    ensures 0 < MarkerAfter(raws, k + 1, final) < 0xFF
  {
  }

  lemma ScriptDone(script: seq<Decision>, k: nat, j: Job, p: Prediction, mcus: seq<Mcu>, n: nat)
    requires GoodMcus(j, mcus) && GoodPrediction(j.layout, p) && n <= |mcus|
    requires Next(script, k, SegCode(j, p, mcus, n, n))
    ensures k == |script|
  {
  }

  lemma AllOfScript(script: seq<Decision>)
    ensures Next(script, 0, script)
  {
  }

  /** A whole scan decoded, into the blocks received before it; fails only on a DC difference out of range. */
  method DecodeScan(tab: ProbTable, j: Job, bytes: seq<Byte>, final: Byte, blks0: seq<Mcu>, ghost mcus: seq<Mcu>)
    returns (ok: bool, blks: seq<Mcu>)
    requires GoodMcus(j, mcus) && GoodStats(tab, map[]) && 0 < final < 0xFF && IsScan(tab, j, mcus, bytes)
    requires AllReady(j, blks0, mcus)
    ensures ok <==> ScanInRange(j, mcus)
    ensures ok ==> |blks| == |mcus| && ReceivedTo(j, blks0, blks, mcus)
  {
    hide Decoder.Valid, Begin, Placed, SegCode, Segment, StatsAt, AllCoded, Framed, Run, Contains, Stuff, GoodMcus,
         GoodStats, McuCode, McuPrediction, McuReady, McuReceived, Decoding, RangeSoFar, ScanInRange,
         ScanBytes;
    ghost var raws := SegmentsOf(tab, j, mcus, bytes);
    var d := StartDecoder(tab, j, bytes, final, mcus, raws);
    JobOf(j, mcus);
    var dec := new ScanDecoder(d, j.layout, j.progressive, j.ss, j.se, j.ah, j.al, j.interval);
    ok, blks := true, [];
    ghost var k, p := 0, Fresh(j);
    AtFirst(j.interval, |mcus|);
    NothingDecoded(dec, tab, j, mcus, raws, final);
    while |blks| < |blks0|
      invariant |blks| <= |mcus| && Placed(j.interval, |mcus|, k, |blks|, dec.restartsToGo)
      invariant GoodPrediction(j.layout, p)
      invariant |blks| <= Begin(j.interval, |mcus|, k + 1) && Decoding(dec, tab, j, mcus, raws, final, |blks|, k, p)
      invariant RangeSoFar(j, mcus, k, p, |blks|) && ReceivedTo(j, blks0, blks, mcus)
    {
      ghost var n, k0, p0 := |blks|, k, p;
      ok, k, p := DecodeRestart(dec, d, tab, j, mcus, raws, final, n, k, p);
      RangeRestart(j, mcus, k0, p0, n, k, p);
      var got;
      ok, got := DecodeNext(dec, d, tab, j, blks0[|blks|], mcus, raws, final, n, k, p);
      RangeNext(j, mcus, k, p, n, ok);
      if !ok {
        return;
      }
      OneMoreReceived(j, blks0, blks, mcus, got);
      blks := blks + [got];
      p := After(j, p, mcus[n]);
    }
    AllInRange(j, mcus, k, p);
  }

  lemma SegmentsOf(tab: ProbTable, j: Job, mcus: seq<Mcu>, bytes: seq<Byte>) returns (raws: seq<seq<Byte>>)
    requires GoodMcus(j, mcus) && GoodStats(tab, map[]) && IsScan(tab, j, mcus, bytes)
    ensures ScanBytes(tab, j, mcus, raws, bytes) && raws != [] && AllCoded(tab, j, mcus, raws)
    ensures Begin(j.interval, |mcus|, |raws|) == |mcus|
  {
    raws :| ScanBytes(tab, j, mcus, raws, bytes);
  }

  lemma NothingDecoded(dec: ScanDecoder, tab: ProbTable, j: Job, mcus: seq<Mcu>, raws: seq<seq<Byte>>, final: Byte)
    requires GoodMcus(j, mcus) && GoodStats(tab, map[]) && raws != []
    requires dec.d.Valid() && dec.d.tab == tab && dec.layout == j.layout && dec.nextRestartNum == 0
    requires dec.Matches(Fresh(j))
    requires dec.d.k == 0 && dec.d.script == Segment(j, mcus, 0)
    requires dec.d.raw == raws[0] && dec.d.before == Framed(raws, 0) && dec.d.fill == 1
    requires dec.d.marker == MarkerAfter(raws, 0, final) && dec.d.stats0 == StatsAt(tab, j, mcus, 0)
    ensures Decoding(dec, tab, j, mcus, raws, final, 0, 0, Fresh(j)) && RangeSoFar(j, mcus, 0, Fresh(j), 0)
  {
    hide Decoder.Valid, SegCode, Segment, StatsAt, Framed, Run, Contains, Stuff, GoodMcus, GoodStats, SegInRange,
         SegmentInRange;
    SegmentIs(j, mcus, 0);
    AllOfScript(Segment(j, mcus, 0));
    RangeStart(j, mcus, 0);
  }

  /** The MCU behind the restart check. */
  method DecodeNext(dec: ScanDecoder, d: Decoder, tab: ProbTable, j: Job, blks0: Mcu, ghost mcus: seq<Mcu>,
                    ghost raws: seq<seq<Byte>>, final: Byte, ghost n: nat, ghost k: nat, ghost p: Prediction)
    returns (ok: bool, blks: Mcu)
    requires d == dec.d && GoodMcus(j, mcus) && GoodStats(tab, map[]) && n < |mcus|
    requires n < Begin(j.interval, |mcus|, k + 1)
    requires Decoding(dec, tab, j, mcus, raws, final, n, k, p) && McuReady(j, blks0, mcus[n])
    requires dec.progressive == j.progressive && dec.al == j.al
    modifies dec`lastDcVal, dec`dcContext, d`pos, d`unreadMarker, d`m, d`c, d`a, d`ct, d`iv, d`stats, d`k
    ensures GoodPrediction(j.layout, p) && |mcus[n]| == |j.layout.membership| && (ok <==> McuInRange(j, p, mcus[n]))
    ensures ok ==> McuReceived(j, blks0, blks, mcus[n])
    ensures ok ==> Decoding(dec, tab, j, mcus, raws, final, n + 1, k, After(j, p, mcus[n]))
  {
    hide Decoder.Valid, Begin, SegCode, Segment, StatsAt, Framed, Run, Contains, Stuff, GoodMcus, GoodStats, McuCode,
         McuPrediction, McuReady, McuReceived, McuInRange, Next;
    McuOf(j, mcus, n);
    ghost var end := Begin(j.interval, |mcus|, k + 1);
    SegStep([], j, p, mcus, n, end);
    Nothing(McuCode(j, p, mcus[n]));
    Nothing(SegCode(j, p, mcus, n, end));
    ok, blks := DecodeMcu(dec, d, j, blks0, p, mcus[n], SegCode(j, After(j, p, mcus[n]), mcus, n + 1, end));
  }

  /** All segments in front of segment `k` are in range, and so is this one if the rest of it is. */
  ghost predicate RangeSoFar(j: Job, mcus: seq<Mcu>, k: nat, p: Prediction, n: nat)
    requires GoodMcus(j, mcus) && GoodPrediction(j.layout, p) && n <= Begin(j.interval, |mcus|, k + 1)
  {
    && (forall i: nat :: i < k ==> SegmentInRange(j, mcus, i))
    && (SegmentInRange(j, mcus, k) <==> SegInRange(j, p, mcus, n, Begin(j.interval, |mcus|, k + 1)))
  }

  lemma RangeRestart(j: Job, mcus: seq<Mcu>, k: nat, p: Prediction, n: nat, k': nat, p': Prediction)
    requires GoodMcus(j, mcus) && GoodPrediction(j.layout, p) && n <= Begin(j.interval, |mcus|, k + 1)
    requires RangeSoFar(j, mcus, k, p, n)
    requires (k' == k && p' == p) || (k' == k + 1 && p' == Fresh(j) && n == Begin(j.interval, |mcus|, k'))
    ensures GoodPrediction(j.layout, p') && n <= Begin(j.interval, |mcus|, k' + 1) && RangeSoFar(j, mcus, k', p', n)
  {
    hide SegmentInRange, SegInRange, GoodMcus, Begin;
    if k' != k {
      RangeEnd(j, p, mcus, n);
      RangeStart(j, mcus, k');
    }
  }

  lemma RangeNext(j: Job, mcus: seq<Mcu>, k: nat, p: Prediction, n: nat, ok: bool)
    requires GoodMcus(j, mcus) && GoodPrediction(j.layout, p) && n < Begin(j.interval, |mcus|, k + 1)
    requires RangeSoFar(j, mcus, k, p, n)
    requires ok <==> McuInRange(j, p, mcus[n])
    ensures ok ==> RangeSoFar(j, mcus, k, After(j, p, mcus[n]), n + 1)
    ensures !ok ==> !ScanInRange(j, mcus)
  {
    hide SegmentInRange, SegInRange, GoodMcus, Begin, McuInRange, After;
    McuOf(j, mcus, n);
    RangeStep(j, p, mcus, n, Begin(j.interval, |mcus|, k + 1));
  }

  method StartDecoder(tab: ProbTable, j: Job, bytes: seq<Byte>, final: Byte, ghost mcus: seq<Mcu>,
                      ghost raws: seq<seq<Byte>>)
    returns (d: Decoder)
    requires GoodMcus(j, mcus) && GoodStats(tab, map[]) && 0 < final < 0xFF && ScanBytes(tab, j, mcus, raws, bytes)
    ensures fresh(d) && d.Valid() && d.tab == tab && d.k == 0 && d.script == Segment(j, mcus, 0)
    ensures d.raw == raws[0] && d.before == Framed(raws, 0) && d.fill == 1 && d.marker == MarkerAfter(raws, 0, final)
    ensures d.stats0 == StatsAt(tab, j, mcus, 0)
    ensures d.data == Framed(raws, |raws| - 1) + Stuff(raws[|raws| - 1]) + [0xFF, final]
  {
    hide Decoder.Valid, Begin, Segment, Run, Contains, Stuff, GoodMcus, GoodStats, Repeat;
    var data := bytes + [0xFF, final];
    FirstInSource(raws, final, data);
    NothingCoded(j, mcus, tab);
    assert SegmentCoded(tab, j, mcus, 0, raws[0]);
    assert data[0..] == data && data[..0] == [];
    d := new Decoder(tab, data, 0, map[], raws[0], 1, MarkerAfter(raws, 0, final), Segment(j, mcus, 0));
  }

  lemma FirstInSource(raws: seq<seq<Byte>>, final: Byte, data: seq<Byte>)
    requires raws != [] && data == Framed(raws, |raws| - 1) + Stuff(raws[|raws| - 1]) + [0xFF, final]
    ensures Stuff(raws[0]) + Repeat(0xFF, 1) + [MarkerAfter(raws, 0, final)] <= data
  {
    hide *;
    if |raws| > 1 {
      FirstOfMany(raws, final, |raws| - 1);
    } else {
      OnlyOne(raws, final);
    }
  }

  lemma FirstOfMany(raws: seq<seq<Byte>>, final: Byte, n: nat)
    requires 0 < n < |raws|
    ensures Stuff(raws[0]) + Repeat(0xFF, 1) + [MarkerAfter(raws, 0, final)]
            <= Framed(raws, n) + Stuff(raws[n]) + [0xFF, final]
  {
    hide Stuff, Framed, Repeat;
    OneOne();
    FramedFirst(raws);
    FramedGrows(raws, 1, n);
    PrefixLonger(Framed(raws, 1), Framed(raws, n), Stuff(raws[n]), [0xFF, final]);
  }

  lemma PrefixLonger(a: seq<Byte>, b: seq<Byte>, c: seq<Byte>, d: seq<Byte>)
    requires a <= b
    ensures a <= b + c + d
  {
  }

  lemma OnlyOne(raws: seq<seq<Byte>>, final: Byte)
    requires |raws| == 1
    ensures Stuff(raws[0]) + Repeat(0xFF, 1) + [MarkerAfter(raws, 0, final)]
            == Framed(raws, 0) + Stuff(raws[0]) + [0xFF, final]
  {
    hide Stuff, Repeat;
    OneOne();
    var s := Stuff(raws[0]);
    assert [] + s + [0xFF, final] == s + [0xFF] + [final];
  }

  lemma OneOne()
    ensures Repeat(0xFF, 1) == [0xFF]
  {
    assert Repeat(0xFF, 0) == [];
  }

  lemma FramedFirst(raws: seq<seq<Byte>>)
    requires raws != []
    ensures Framed(raws, 0) == [] && Framed(raws, 1) == Stuff(raws[0]) + [0xFF] + [0xD0]
  {
    hide Stuff;
    assert Framed(raws, 1) == [] + Stuff(raws[0]) + [0xFF] + [0xD0];
  }

  lemma RangeEnd(j: Job, p: Prediction, mcus: seq<Mcu>, n: nat)
    requires GoodMcus(j, mcus) && GoodPrediction(j.layout, p) && n <= |mcus|
    ensures SegInRange(j, p, mcus, n, n)
  {
  }

  lemma RangeStart(j: Job, mcus: seq<Mcu>, k: nat)
    requires GoodMcus(j, mcus)
    ensures Begin(j.interval, |mcus|, k) <= Begin(j.interval, |mcus|, k + 1)
    ensures SegmentInRange(j, mcus, k)
            <==> SegInRange(j, Fresh(j), mcus, Begin(j.interval, |mcus|, k), Begin(j.interval, |mcus|, k + 1))
  {
    BeginGrows(j.interval, |mcus|, k);
  }

  lemma RangeStep(j: Job, p: Prediction, mcus: seq<Mcu>, n: nat, end: nat)
    requires GoodMcus(j, mcus) && GoodPrediction(j.layout, p) && n < end <= |mcus|
    ensures SegInRange(j, p, mcus, n, end)
            <==> McuInRange(j, p, mcus[n]) && SegInRange(j, After(j, p, mcus[n]), mcus, n + 1, end)
  {
  }

  lemma {:induction false} BeginStays(interval: nat, total: nat, k: nat, i: nat)
    requires k <= i && Begin(interval, total, k) == total
    ensures Begin(interval, total, i) == total
  {
    if k < i {
      BeginStays(interval, total, k, i - 1);
    }
  }

  /** There are no MCUs behind the last segment. */
  lemma AllInRange(j: Job, mcus: seq<Mcu>, k: nat, p: Prediction)
    requires GoodMcus(j, mcus) && GoodPrediction(j.layout, p) && Begin(j.interval, |mcus|, k + 1) == |mcus|
    requires RangeSoFar(j, mcus, k, p, |mcus|)
    ensures ScanInRange(j, mcus)
  {
    hide SegmentInRange, Begin, GoodMcus, SegInRange;
    RangeEnd(j, p, mcus, |mcus|);
    forall i: nat | i > k
      ensures SegmentInRange(j, mcus, i)
    {
      BeginStays(j.interval, |mcus|, k + 1, i);
      BeginStays(j.interval, |mcus|, k + 1, i + 1);
      RangeStart(j, mcus, i);
      RangeEnd(j, Fresh(j), mcus, |mcus|);
    }
  }

  /** A whole scan there and back. */
  method RoundTrip(tab: ProbTable, j: Job, blks0: seq<Mcu>, mcus: seq<Mcu>, final: Byte)
    returns (ok: bool, blks: seq<Mcu>)
    requires |tab| == 114 && GoodMcus(j, mcus) && 0 < final < 0xFF && AllReady(j, blks0, mcus)
    ensures ok <==> ScanInRange(j, mcus)
    ensures ok ==> |blks| == |mcus| && ReceivedTo(j, blks0, blks, mcus)
  {
    hide AllReady, ReceivedTo, ScanInRange, IsScan, GoodMcus;
    var bytes := EncodeScan(tab, j, mcus);
    ok, blks := DecodeScan(tab, j, bytes, final, blks0, mcus);
  }

  /** A sequential scan comes back exactly. */
  lemma SequentialIsExact(j: Job, blks0: Mcu, blks: Mcu, mcu: Mcu)
    requires GoodJob(j) && !j.progressive && |mcu| == |j.layout.membership| && McuReceived(j, blks0, blks, mcu)
    ensures blks == mcu
  {
    forall i | 0 <= i < |mcu|
      ensures blks[i] == mcu[i]
    {
      TruncNothing(mcu[i][0]);
    }
  }

  /** A block with nothing but a DC value. */
  function Flat(dc: int): Block {
    seq(64, i => if i == 0 then dc else 0)
  }

  /** A sequential scan of 16-bit coefficients that the encoder codes and the decoder rejects. Such coefficients do not
      come from the forward DCT, but an application may hand them in through `jpeg_write_coefficients`. */
  lemma FullSwingFails(t: DcTable, a: AcTable)
    ensures var j := Job(McuLayout([t], [a], [0]), false, 0, 63, 0, 0, 0);
            var mcus := [[Flat(-0x8000)], [Flat(0x7FFF)]];
            GoodMcus(j, mcus) && !ScanInRange(j, mcus)
  {
    hide DcContext;
    var j := Job(McuLayout([t], [a], [0]), false, 0, 63, 0, 0, 0);
    var mcus := [[Flat(-0x8000)], [Flat(0x7FFF)]];
    assert GoodMcus(j, mcus);
    assert Pow2(0) == 1;
    var p, q := Fresh(j), After(j, Fresh(j), mcus[0]);
    LastAfterFlat(j, p, -0x8000);
    assert DcDiff(j.layout, q, 0, mcus[1][0], 0) == 0xFFFF;
    assert !DcInRange(j.layout, q, mcus[1], 0, 0);
    assert !SegInRange(j, q, mcus, 1, 2);
    assert !SegInRange(j, p, mcus, 0, 2);
    assert Begin(0, 2, 0) == 0 && Begin(0, 2, 1) == 2;
    assert !SegmentInRange(j, mcus, 0);
  }

  lemma LastAfterFlat(j: Job, p: Prediction, dc: int)
    requires GoodJob(j) && GoodPrediction(j.layout, p) && !j.progressive && j.layout.membership == [0]
    ensures After(j, p, [Flat(dc)]).last == p.last[0 := dc]
  {
    hide DcContext;
    var l, mcu := j.layout, [Flat(dc)];
    var q := Predict(l, p, 0, mcu[0], 0);
    assert Pow2(0) == 1;
    assert McuPrediction(l, q, mcu, 1, 0) == q;
  }
}
