/** Whole progressive images through the arithmetic coder: every scan of a script encoded and decoded again. */
module ProgressiveTransmit {
  import opened Numbers
  import opened AritTable
  import opened ArithModel
  import opened ArithMcuDecoder
  import opened ArithScan
  import opened ArithWholeScan
  import opened ScanScript
  import opened ProgressiveReplay

  /** The conditioning of each component. */
  datatype Conditioning = Conditioning(dc: seq<DcTable>, ac: seq<AcTable>)

  /** How a scan is made up: the scan component of each block of an MCU, the place of each block in its component's
      array, and the restart interval. */
  datatype Plan = Plan(membership: seq<nat>, at: seq<seq<nat>>, interval: nat)

  predicate Spot(s: Scan, plan: Plan, n: nat, i: nat) {
    && n < |plan.at| && i < |plan.membership| == |plan.at[n]|
    && plan.membership[i] < |s.comps| && s.comps[plan.membership[i]] >= 0
  }

  /** Component and place of block `i` of MCU `n`. */
  function Where(s: Scan, plan: Plan, n: nat, i: nat): Place
    requires Spot(s, plan, n, i)
  {
    (s.comps[plan.membership[i]], plan.at[n][i])
  }

  predicate Inside(img: Image, w: Place) {
    w.0 < |img| && w.1 < |img[w.0]|
  }

  /** Every block of every MCU has a place of its own. */
  ghost predicate GoodPlan(plan: Plan, s: Scan, img: Image) {
    && (s.ss > 0 ==> |plan.membership| == 1)
    && (forall n, i :: 0 <= n < |plan.at| && 0 <= i < |plan.membership| ==>
          Spot(s, plan, n, i) && Inside(img, Where(s, plan, n, i)))
    && (forall n :: 0 <= n < |plan.at| ==> |plan.at[n]| == |plan.membership|)
    && (forall n, i, m, k ::
          0 <= n < |plan.at| && 0 <= i < |plan.membership| && 0 <= m < |plan.at| && 0 <= k < |plan.membership|
          && Where(s, plan, n, i) == Where(s, plan, m, k) ==>
          n == m && i == k)
    && forall i :: 0 <= i < |plan.membership| ==> plan.membership[i] < |s.comps|
  }

  /** The scan sends every block of its components that belongs to the image. Only interleaved scans, which are DC
      scans, have dummy blocks besides. */
  ghost predicate Complete(plan: Plan, s: Scan, img: Image, places: set<Place>) {
    && (forall c, b :: 0 <= c < |img| && c in s.comps && 0 <= b < |img[c]| && (c, b) in places ==>
          Covered(plan, s, c, b))
    && (s.ss > 0 ==> forall n, i :: 0 <= n < |plan.at| && 0 <= i < |plan.membership| && Spot(s, plan, n, i) ==>
          Where(s, plan, n, i) in places)
  }

  ghost predicate Covered(plan: Plan, s: Scan, c: nat, b: nat) {
    exists n, i :: 0 <= n < |plan.at| && 0 <= i < |plan.membership| && Spot(s, plan, n, i)
      && Where(s, plan, n, i) == (c, b)
  }

  lemma OtherShape(plan: Plan, s: Scan, img: Image, rec: Image)
    requires GoodPlan(plan, s, img) && SameShape(rec, img)
    ensures GoodPlan(plan, s, rec)
  {
    hide Where, Spot;
    forall n, i | 0 <= n < |plan.at| && 0 <= i < |plan.membership|
      ensures Spot(s, plan, n, i) && Inside(rec, Where(s, plan, n, i))
    {
      assert Inside(img, Where(s, plan, n, i));
    }
  }

  lemma SpotOf(plan: Plan, s: Scan, img: Image, n: nat, i: nat)
    requires GoodPlan(plan, s, img) && n < |plan.at| && i < |plan.membership|
    ensures Spot(s, plan, n, i) && Inside(img, Where(s, plan, n, i)) && |plan.at[n]| == |plan.membership|
    ensures Where(s, plan, n, i).0 in s.comps
  {
  }

  /** The MCUs of a scan. */
  function Gather(img: Image, s: Scan, plan: Plan): (mcus: seq<Mcu>)
    requires GoodPlan(plan, s, img)
    ensures |mcus| == |plan.at| && forall n :: 0 <= n < |mcus| ==> mcus[n] == GatherMcu(img, s, plan, n)
  {
    seq(|plan.at|, n requires 0 <= n < |plan.at| => GatherMcu(img, s, plan, n))
  }

  function GatherMcu(img: Image, s: Scan, plan: Plan, n: nat): (mcu: Mcu)
    requires GoodPlan(plan, s, img) && n < |plan.at|
    ensures |mcu| == |plan.membership| && forall i :: 0 <= i < |mcu| ==> mcu[i] == BlockAt(img, s, plan, n, i)
  {
    seq<Block>(|plan.membership|, i requires 0 <= i < |plan.membership| => BlockAt(img, s, plan, n, i))
  }

  function BlockAt(img: Image, s: Scan, plan: Plan, n: nat, i: nat): Block
    requires GoodPlan(plan, s, img) && n < |plan.at| && i < |plan.membership|
  {
    SpotOf(plan, s, img, n, i);
    var w := Where(s, plan, n, i);
    img[w.0][w.1]
  }

  /** Block `i` of MCU `n` has been stored. */
  ghost predicate Stored(rec: Image, s: Scan, plan: Plan, blks: seq<Mcu>, n: nat, i: nat)
    requires GoodPlan(plan, s, rec) && n < |plan.at| == |blks| && i < |plan.membership| == |blks[n]|
  {
    BlockAt(rec, s, plan, n, i) == blks[n][i]
  }

  ghost predicate SameSizes(plan: Plan, blks: seq<Mcu>) {
    |blks| == |plan.at| && forall n :: 0 <= n < |blks| ==> |blks[n]| == |plan.membership|
  }

  /** Blocks in front of block `i` of MCU `n` have been stored. */
  ghost predicate StoredTo(rec: Image, s: Scan, plan: Plan, blks: seq<Mcu>, n: nat, i: nat)
    requires GoodPlan(plan, s, rec) && SameSizes(plan, blks)
  {
    forall m, k :: 0 <= m < |plan.at| && 0 <= k < |plan.membership| && (m < n || (m == n && k < i)) ==>
      Stored(rec, s, plan, blks, m, k)
  }

  ghost predicate OthersKept(rec: Image, rec': Image, s: Scan) {
    SameShape(rec', rec) && forall c :: 0 <= c < |rec| && c !in s.comps ==> rec'[c] == rec[c]
  }

  /** One block goes to its place; no other block of the scan is there. */
  lemma StoreOne(rec0: Image, rec: Image, s: Scan, plan: Plan, blks: seq<Mcu>, n: nat, i: nat) returns (rec': Image)
    requires GoodPlan(plan, s, rec) && SameSizes(plan, blks) && n < |plan.at| && i < |plan.membership|
    requires StoredTo(rec, s, plan, blks, n, i) && OthersKept(rec0, rec, s)
    ensures Spot(s, plan, n, i) && Inside(rec, Where(s, plan, n, i))
    ensures var w := Where(s, plan, n, i); rec' == rec[w.0 := rec[w.0][w.1 := blks[n][i]]]
    ensures GoodPlan(plan, s, rec') && StoredTo(rec', s, plan, blks, n, i + 1) && OthersKept(rec0, rec', s)
  {
    hide Where, Spot, GoodPlan;
    SpotOf(plan, s, rec, n, i);
    var w := Where(s, plan, n, i);
    rec' := rec[w.0 := rec[w.0][w.1 := blks[n][i]]];
    OtherShape(plan, s, rec, rec');
    forall m, k | 0 <= m < |plan.at| && 0 <= k < |plan.membership| && (m < n || (m == n && k < i + 1))
      ensures Stored(rec', s, plan, blks, m, k)
    {
      SpotOf(plan, s, rec, m, k);
      if m != n || k != i {
        assert Stored(rec, s, plan, blks, m, k);
        Apart(plan, s, rec, n, i, m, k);
      }
    }
  }

  lemma Apart(plan: Plan, s: Scan, img: Image, n: nat, i: nat, m: nat, k: nat)
    requires GoodPlan(plan, s, img) && n < |plan.at| && i < |plan.membership| && m < |plan.at| && k < |plan.membership|
    requires n != m || i != k
    ensures Spot(s, plan, n, i) && Spot(s, plan, m, k) && Where(s, plan, n, i) != Where(s, plan, m, k)
  {
    hide Where;
  }

  lemma NextMcu(rec: Image, s: Scan, plan: Plan, blks: seq<Mcu>, n: nat)
    requires GoodPlan(plan, s, rec) && SameSizes(plan, blks) && StoredTo(rec, s, plan, blks, n, |plan.membership|)
    ensures StoredTo(rec, s, plan, blks, n + 1, 0)
  {
    hide GoodPlan, Stored;
  }

  /** The decoded blocks go where they belong. */
  method Scatter(rec: Image, s: Scan, plan: Plan, blks: seq<Mcu>) returns (rec': Image)
    requires GoodPlan(plan, s, rec) && SameSizes(plan, blks)
    ensures GoodPlan(plan, s, rec') && StoredTo(rec', s, plan, blks, |blks|, 0) && OthersKept(rec, rec', s)
  {
    hide GoodPlan, StoredTo, Where, Spot, OthersKept;
    rec' := rec;
    NoneStored(rec, s, plan, blks);
    var n := 0;
    while n < |blks|
      invariant n <= |blks| && GoodPlan(plan, s, rec') && StoredTo(rec', s, plan, blks, n, 0)
      invariant OthersKept(rec, rec', s)
    {
      var i := 0;
      while i < |blks[n]|
        invariant i <= |blks[n]| && GoodPlan(plan, s, rec') && StoredTo(rec', s, plan, blks, n, i)
        invariant OthersKept(rec, rec', s)
      {
        ghost var next := StoreOne(rec, rec', s, plan, blks, n, i);
        var w := Where(s, plan, n, i);
        rec' := rec'[w.0 := rec'[w.0][w.1 := blks[n][i]]];
        i := i + 1;
      }
      NextMcu(rec', s, plan, blks, n);
      n := n + 1;
    }
  }

  lemma NoneStored(rec: Image, s: Scan, plan: Plan, blks: seq<Mcu>)
    requires GoodPlan(plan, s, rec) && SameSizes(plan, blks)
    ensures StoredTo(rec, s, plan, blks, 0, 0) && OthersKept(rec, rec, s)
  {
  }

  ghost predicate GoodImage(img: Image, n: nat) {
    |img| == n && forall c, b :: 0 <= c < n && 0 <= b < |img[c]| ==> IsBlock(img[c][b])
  }

  ghost predicate Sendable(u: Conditioning, s: Scan, plan: Plan, n: nat) {
    && |u.dc| == |u.ac| == n && GoodCount(s) && GoodComponents(s, n) && GoodBand(s) && (s.ah == 0 || s.al == s.ah - 1)
    && (s.ss > 0 ==> |plan.membership| == 1)
    && forall i :: 0 <= i < |plan.membership| ==> plan.membership[i] < |s.comps|
  }

  /** What the headers of the scan say to both sides. */
  function JobFor(u: Conditioning, s: Scan, plan: Plan, n: nat): (j: Job)
    requires Sendable(u, s, plan, n)
    ensures GoodJob(j) && j.layout.membership == plan.membership && j.progressive && j.ss == s.ss && j.se == s.se
    ensures j.ah == s.ah && j.al == s.al && j.interval == plan.interval && |j.layout.dc| == |j.layout.ac| == |s.comps|
    ensures forall i :: 0 <= i < |s.comps| ==>
              j.layout.dc[i] == u.dc[s.comps[i]] && j.layout.ac[i] == u.ac[s.comps[i]]
  {
    Job(McuLayout(seq(|s.comps|, i requires 0 <= i < |s.comps| => u.dc[s.comps[i]]),
                  seq(|s.comps|, i requires 0 <= i < |s.comps| => u.ac[s.comps[i]]), plan.membership),
        true, s.ss, s.se, s.ah, s.al, plan.interval)
  }

  lemma ScanIsSendable(u: Conditioning, s: Scan, plan: Plan, img: Image, bp: BitPos, n: nat)
    requires |u.dc| == |u.ac| == n && Shaped(bp, n) && GoodProgressiveScan(s, bp, n) && GoodPlan(plan, s, img)
    ensures Sendable(u, s, plan, n)
  {
    assert GoodComponentBand(s, bp[s.comps[0]]);
    assert Continues(s, bp[s.comps[0]][s.ss]);
  }

  lemma GatheredIsGood(u: Conditioning, s: Scan, plan: Plan, img: Image, n: nat)
    requires Sendable(u, s, plan, n) && GoodPlan(plan, s, img) && GoodImage(img, n)
    ensures GoodMcus(JobFor(u, s, plan, n), Gather(img, s, plan))
  {
    hide JobFor, Gather, GatherMcu, GoodPlan, IsBlock, GoodJob, Where, Spot;
    var mcus := Gather(img, s, plan);
    forall m, i | 0 <= m < |mcus| && 0 <= i < |mcus[m]|
      ensures IsBlock(mcus[m][i])
    {
      SpotOf(plan, s, img, m, i);
    }
  }

  /** No DC difference in the scan is out of range. */
  ghost predicate ScanFits(u: Conditioning, s: Scan, plan: Plan, n: nat, img: Image)
    requires GoodPlan(plan, s, img)
  {
    && Sendable(u, s, plan, n)
    && var j, mcus := JobFor(u, s, plan, n), Gather(img, s, plan); GoodMcus(j, mcus) && ScanInRange(j, mcus)
  }

  /** A decoder that has every block as the scan's decoder presumes has every MCU so. */
  lemma McusAreReady(u: Conditioning, s: Scan, plan: Plan, n: nat, rec: Image, img: Image, places: set<Place>)
    requires Sendable(u, s, plan, n) && GoodPlan(plan, s, img) && GoodPlan(plan, s, rec)
    requires GoodMcus(JobFor(u, s, plan, n), Gather(img, s, plan))
    requires ScanFinds(s, rec, img, places) && Complete(plan, s, img, places)
    ensures AllReady(JobFor(u, s, plan, n), Gather(rec, s, plan), Gather(img, s, plan))
  {
    hide JobFor, Gather, GatherMcu, GoodPlan, GoodMcus, GoodJob, Where, Spot, McuReady;
    var j, mcus := JobFor(u, s, plan, n), Gather(img, s, plan);
    forall m | 0 <= m < |mcus|
      ensures |mcus[m]| == |j.layout.membership| && McuReady(j, Gather(rec, s, plan)[m], mcus[m])
    {
      McuIsReady(u, s, plan, n, rec, img, places, m);
    }
  }

  lemma McuIsReady(u: Conditioning, s: Scan, plan: Plan, n: nat, rec: Image, img: Image, places: set<Place>, m: nat)
    requires Sendable(u, s, plan, n) && GoodPlan(plan, s, img) && GoodPlan(plan, s, rec)
    requires ScanFinds(s, rec, img, places) && Complete(plan, s, img, places) && m < |plan.at|
    ensures McuReady(JobFor(u, s, plan, n), GatherMcu(rec, s, plan, m), GatherMcu(img, s, plan, m))
  {
    hide JobFor, Gather, GatherMcu, GoodPlan, GoodJob, Where, Spot, Covered, TruncDc, TruncAc, BlockFinds;
    var blks0, mcu := GatherMcu(rec, s, plan, m), GatherMcu(img, s, plan, m);
    if s.ss > 0 {
      SpotOf(plan, s, img, m, 0);
      assert BlockFinds(s, blks0[0], mcu[0]);
      FindsAc(s, blks0[0], mcu[0]);
    }
  }

  lemma FindsDc(s: Scan, rec: Block, sent: Block)
    requires GoodBand(s) && BlockFinds(s, rec, sent) && s.ss == 0 && s.ah > 0
    ensures rec[0] == TruncDc(sent[0], s.al + 1)
  {
  }

  lemma FindsAc(s: Scan, rec: Block, sent: Block)
    requires GoodBand(s) && BlockFinds(s, rec, sent) && s.ss > 0
    ensures forall k :: s.ss <= k <= s.se ==> rec[k] == if s.ah == 0 then 0 else TruncAc(sent[k], s.al + 1)
  {
  }

  /** Decoded and stored, the blocks are as the scan leaves them. */
  lemma ImageIsLeft(u: Conditioning, s: Scan, plan: Plan, n: nat, rec: Image, rec': Image, img: Image,
                    places: set<Place>, blks: seq<Mcu>)
    requires Sendable(u, s, plan, n) && GoodPlan(plan, s, img) && GoodPlan(plan, s, rec) && GoodPlan(plan, s, rec')
    requires ScanFinds(s, rec, img, places) && Complete(plan, s, img, places) && SameSizes(plan, blks)
    requires StoredTo(rec', s, plan, blks, |blks|, 0) && OthersKept(rec, rec', s)
    requires GoodMcus(JobFor(u, s, plan, n), Gather(img, s, plan))
    requires ReceivedTo(JobFor(u, s, plan, n), Gather(rec, s, plan), blks, Gather(img, s, plan))
    ensures ScanLeaves(s, rec, rec', img, places)
  {
    hide JobFor, Gather, GatherMcu, GoodPlan, GoodMcus, GoodJob, Where, Spot, Covered, BlockFinds, BlockLeaves,
         McuReceived;
    forall c, b | 0 <= c < |rec| && c in s.comps && 0 <= b < |rec[c]| && (c, b) in places
      ensures BlockLeaves(s, rec[c][b], rec'[c][b], img[c][b])
    {
      assert Covered(plan, s, c, b);
      var m, i := SpotAt(plan, s, c, b);
      assert Stored(rec', s, plan, blks, m, i);
      BlockIsLeft(u, s, plan, n, rec, img, blks[m], m, i);
    }
  }

  lemma SpotAt(plan: Plan, s: Scan, c: nat, b: nat) returns (m: nat, i: nat)
    requires Covered(plan, s, c, b)
    ensures m < |plan.at| && i < |plan.membership| && Spot(s, plan, m, i) && Where(s, plan, m, i) == (c, b)
  {
    hide Where, Spot;
    m, i :| 0 <= m < |plan.at| && 0 <= i < |plan.membership| && Spot(s, plan, m, i) && Where(s, plan, m, i) == (c, b);
  }

  lemma BlockIsLeft(u: Conditioning, s: Scan, plan: Plan, n: nat, rec: Image, img: Image, blks: Mcu, m: nat, i: nat)
    requires Sendable(u, s, plan, n) && GoodPlan(plan, s, img) && GoodPlan(plan, s, rec) && m < |plan.at|
    requires i < |plan.membership| && BlockFinds(s, BlockAt(rec, s, plan, m, i), BlockAt(img, s, plan, m, i))
    requires McuReceived(JobFor(u, s, plan, n), GatherMcu(rec, s, plan, m), blks, GatherMcu(img, s, plan, m))
    ensures BlockLeaves(s, BlockAt(rec, s, plan, m, i), blks[i], BlockAt(img, s, plan, m, i))
  {
    hide JobFor, GatherMcu, BlockAt, GoodPlan, GoodJob, TruncDc, TruncAc, BlockFinds;
    if s.ss == 0 && s.ah > 0 {
      FindsDc(s, BlockAt(rec, s, plan, m, i), BlockAt(img, s, plan, m, i));
    }
  }

  /** DC values in half the range of a JCOEF. */
  ghost predicate SmallDc(img: Image) {
    forall c, b :: 0 <= c < |img| && 0 <= b < |img[c]| ==> -0x4000 <= img[c][b][0] < 0x4000
  }

  lemma SmallPoint(x: int, al: nat)
    requires -0x4000 <= x < 0x4000
    ensures -0x4000 <= PointDc(x, al) < 0x4000
  {
  }

  ghost predicate SmallLast(p: Prediction) {
    forall c :: 0 <= c < |p.last| ==> -0x4000 <= p.last[c] < 0x4000
  }

  ghost predicate SmallMcus(mcus: seq<Mcu>) {
    forall m, i :: 0 <= m < |mcus| && 0 <= i < |mcus[m]| ==> -0x4000 <= mcus[m][i][0] < 0x4000
  }

  lemma {:induction false} SmallMcu(l: McuLayout, p: Prediction, mcu: Mcu, i: nat, al: nat)
    requires GoodLayout(l) && GoodPrediction(l, p) && i <= |mcu| == |l.membership|
    requires forall j :: 0 <= j < |mcu| ==> -0x4000 <= mcu[j][0] < 0x4000
    requires SmallLast(p)
    ensures DcInRange(l, p, mcu, i, al) && SmallLast(McuPrediction(l, p, mcu, i, al))
    decreases |mcu| - i
  {
    hide PointDc, DcContext;
    if i < |mcu| {
      SmallPoint(mcu[i][0], al);
      SmallMcu(l, Predict(l, p, i, mcu[i], al), mcu, i + 1, al);
    }
  }

  lemma {:induction false} SmallSegment(j: Job, p: Prediction, mcus: seq<Mcu>, n: nat, end: nat)
    requires GoodMcus(j, mcus) && GoodPrediction(j.layout, p) && n <= end <= |mcus| && SmallMcus(mcus) && SmallLast(p)
    ensures SegInRange(j, p, mcus, n, end)
    decreases end - n
  {
    hide DcInRange, McuPrediction, SmallLast;
    if n < end {
      if SendsDc(j) {
        SmallMcu(j.layout, p, mcus[n], 0, j.al);
      }
      SmallSegment(j, After(j, p, mcus[n]), mcus, n + 1, end);
    }
  }

  /** Then every difference is in range. */
  lemma SmallFits(u: Conditioning, s: Scan, plan: Plan, n: nat, img: Image)
    requires Sendable(u, s, plan, n) && GoodPlan(plan, s, img) && GoodImage(img, n) && SmallDc(img)
    ensures ScanFits(u, s, plan, n, img)
  {
    hide JobFor, Gather, GatherMcu, GoodPlan, GoodMcus, IsBlock, GoodJob, Where, Spot, SegInRange, SegmentInRange;
    GatheredIsGood(u, s, plan, img, n);
    var j, mcus := JobFor(u, s, plan, n), Gather(img, s, plan);
    forall m, i | 0 <= m < |mcus| && 0 <= i < |mcus[m]|
      ensures -0x4000 <= mcus[m][i][0] < 0x4000
    {
      SpotOf(plan, s, img, m, i);
    }
    forall k: nat
      ensures SegmentInRange(j, mcus, k)
    {
      RangeStart(j, mcus, k);
      SmallSegment(j, Fresh(j), mcus, Begin(j.interval, |mcus|, k), Begin(j.interval, |mcus|, k + 1));
    }
  }

  /** One scan, sent and received. */
  method TransmitScan(tab: ProbTable, u: Conditioning, s: Scan, plan: Plan, n: nat, img: Image, final: Byte, rec: Image,
                      ghost places: set<Place>, ghost bp: BitPos)
    returns (ok: bool, rec': Image)
    requires |tab| == 114 && |u.dc| == |u.ac| == n && GoodImage(img, n) && 0 < final < 0xFF && GoodPlan(plan, s, img)
    requires Complete(plan, s, img, places)
    requires Shaped(bp, n) && GoodProgressiveScan(s, bp, n) && UpToDate(rec, img, places, bp, n)
    ensures ok <==> ScanFits(u, s, plan, n, img)
    ensures ok ==> UpToDate(rec', img, places, Record(bp, s, n), n)
  {
    hide JobFor, Gather, GatherMcu, GoodPlan, Complete, GoodMcus, AllReady, ReceivedTo, ScanInRange, StoredTo,
         OthersKept, ScanFinds, ScanLeaves, Record, GoodProgressiveScan, BlockUpToDate;
    ScanIsSendable(u, s, plan, img, bp, n);
    GatheredIsGood(u, s, plan, img, n);
    OtherShape(plan, s, img, rec);
    ScanIsDecodable(s, bp, rec, img, places, n);
    McusAreReady(u, s, plan, n, rec, img, places);
    var j := JobFor(u, s, plan, n);
    var blks;
    ok, blks := ArithWholeScan.RoundTrip(tab, j, Gather(rec, s, plan), Gather(img, s, plan), final);
    rec' := rec;
    if ok {
      SizesReceived(j, s, plan, rec, img, blks);
      rec' := Scatter(rec, s, plan, blks);
      ImageIsLeft(u, s, plan, n, rec, rec', img, places, blks);
      ScanIsRecorded(s, bp, rec, rec', img, places, n);
    }
  }

  lemma SizesReceived(j: Job, s: Scan, plan: Plan, rec: Image, img: Image, blks: seq<Mcu>)
    requires GoodPlan(plan, s, img) && GoodPlan(plan, s, rec) && GoodMcus(j, Gather(img, s, plan))
    requires ReceivedTo(j, Gather(rec, s, plan), blks, Gather(img, s, plan)) && |blks| == |plan.at|
    ensures SameSizes(plan, blks)
  {
    hide GoodPlan, Gather, GatherMcu, BlockReceived, Received;
  }

  /** The Al that each coefficient was last sent with. */
  function LastPositions(scans: seq<Scan>, n: nat): (bp: BitPos)
    ensures Shaped(bp, n)
  {
    Final(scans, Unsent(n), n)
  }

  /** A whole progressive image: every scan that an accepted script asks for is encoded, and decoded into the blocks
      received so far. Each coefficient of the image's blocks ends as what was sent without the bits below its last Al;
      the dummy blocks in the arrays may hold anything. */
  method TransmitScript(tab: ProbTable, u: Conditioning, scans: seq<Scan>, plans: seq<Plan>, n: nat, img: Image,
                        final: Byte, ghost places: set<Place>)
    returns (ok: bool, rec: Image)
    requires |tab| == 114 && |u.dc| == |u.ac| == n && GoodImage(img, n) && 0 < final < 0xFF
    requires ProgressiveScript(scans, n) && |plans| == |scans|
    requires forall i :: 0 <= i < |scans| ==>
             GoodPlan(plans[i], scans[i], img) && Complete(plans[i], scans[i], img, places)
    ensures ok <==> forall i :: 0 <= i < |scans| ==> ScanFits(u, scans[i], plans[i], n, img)
    ensures ok ==> UpToDate(rec, img, places, LastPositions(scans, n), n)
  {
    hide UpToDate, Record, IsBlock, GoodPlan, Complete, ScanFits, GoodProgressiveScan;
    rec := NewArrays(img);
    NothingSent(rec, img, places, n);
    ok := true;
    ghost var bp := Unsent(n);
    var i := 0;
    assert scans[0..] == scans;
    while i < |scans|
      invariant i <= |scans| && ok && Shaped(bp, n) && GoodProgression(scans[i..], bp, n)
      invariant UpToDate(rec, img, places, bp, n)
      invariant Final(scans[i..], bp, n) == Final(scans, Unsent(n), n)
      invariant forall k :: 0 <= k < i ==> ScanFits(u, scans[k], plans[k], n, img)
    {
      assert scans[i..][1..] == scans[i + 1..];
      ok, rec := TransmitScan(tab, u, scans[i], plans[i], n, img, final, rec, places, bp);
      if !ok {
        return;
      }
      bp := Record(bp, scans[i], n);
      i := i + 1;
    }
  }

  /** The block arrays of the decoder, cleared. */
  function NewArrays(img: Image): (rec: Image)
    ensures SameShape(rec, img) && forall c, b :: 0 <= c < |rec| && 0 <= b < |rec[c]| ==> rec[c][b] == ZeroBlock()
  {
    seq(|img|, c requires 0 <= c < |img| => seq(|img[c]|, _ => ZeroBlock()))
  }

  /** Half the range of a JCOEF is enough for every accepted script. */
  lemma {:induction false} SmallScriptFits(u: Conditioning, scans: seq<Scan>, plans: seq<Plan>, n: nat, img: Image,
                                           bp: BitPos, i: nat)
    requires |u.dc| == |u.ac| == n && GoodImage(img, n) && SmallDc(img) && |plans| == |scans| && i <= |scans|
    requires Shaped(bp, n) && GoodProgression(scans[i..], bp, n)
    requires forall k :: 0 <= k < |scans| ==> GoodPlan(plans[k], scans[k], img)
    ensures forall k :: i <= k < |scans| ==> ScanFits(u, scans[k], plans[k], n, img)
    decreases |scans| - i
  {
    hide IsBlock, GoodPlan, ScanFits, GoodProgressiveScan, Record, SmallDc;
    if i < |scans| {
      assert scans[i..][1..] == scans[i + 1..];
      ScanIsSendable(u, scans[i], plans[i], img, bp, n);
      SmallFits(u, scans[i], plans[i], n, img);
      SmallScriptFits(u, scans, plans, n, img, Record(bp, scans[i], n), i + 1);
    }
  }
}
