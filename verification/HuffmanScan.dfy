/** The Huffman entropy encoder of `jchuff.c`: whole MCUs, DC prediction, restart intervals and suspension. */
module HuffmanScan {
  import opened Numbers
  import opened ByteStuffing
  import opened ArithModel
  import opened DerivedTable
  import opened HuffmanBits
  import opened HuffmanBlock
  import opened HuffmanWriter

  /** The component of each block of an MCU, and the table numbers of each component. */
  datatype Assignment = Assignment(membership: seq<nat>, dcTbl: seq<nat>, acTbl: seq<nat>)

  ghost predicate GoodAssignment(l: Assignment) {
    && |l.dcTbl| == |l.acTbl|
    && (forall ci :: 0 <= ci < |l.dcTbl| ==> l.dcTbl[ci] < 4 && l.acTbl[ci] < 4)
    && forall i :: 0 <= i < |l.membership| ==> l.membership[i] < |l.dcTbl|
  }

  type Mcu = seq<Block>

  function Zeros(l: Assignment): seq<int> {
    seq(|l.dcTbl|, _ => 0)
  }

  /** DC values after the first `i` blocks of an MCU. */
  function LastTo(l: Assignment, last: seq<int>, mcu: Mcu, i: nat): (r: seq<int>)
    requires GoodAssignment(l) && |last| == |l.dcTbl| && i <= |mcu| == |l.membership|
    ensures |r| == |last|
  {
    if i == 0 then last else LastTo(l, last, mcu, i - 1)[l.membership[i - 1] := mcu[i - 1][0]]
  }

  /** The DC difference of block `i`. */
  function BlockDiff(l: Assignment, last: seq<int>, mcu: Mcu, i: nat): int
    requires GoodAssignment(l) && |last| == |l.dcTbl| && i < |mcu| == |l.membership|
  {
    mcu[i][0] - LastTo(l, last, mcu, i)[l.membership[i]]
  }

  /** The last of the first `i` blocks that belongs to component `ci`; -1 if none does. */
  function BlockBefore(l: Assignment, i: nat, ci: nat): (m: int)
    requires i <= |l.membership|
    ensures m == -1 || (0 <= m < i && l.membership[m] == ci)
    ensures forall j :: 0 <= j < i && l.membership[j] == ci ==> j <= m
  {
    if i == 0 then -1 else if l.membership[i - 1] == ci then i - 1 else BlockBefore(l, i - 1, ci)
  }

  /** A block is predicted by the block of its component before it in the MCU, the first one by what was last. */
  lemma {:induction false} PredictedBy(l: Assignment, last: seq<int>, mcu: Mcu, i: nat, ci: nat)
    requires GoodAssignment(l) && |last| == |l.dcTbl| && i <= |mcu| == |l.membership| && ci < |last|
    ensures var m := BlockBefore(l, i, ci);
            LastTo(l, last, mcu, i)[ci] == if m < 0 then last[ci] else mcu[m][0]
  {
    if i > 0 {
      PredictedBy(l, last, mcu, i - 1, ci);
    }
  }

  /** MCU `n` follows a restart marker. */
  predicate Restarts(interval: nat, n: nat) {
    interval > 0 && n > 0 && n % interval == 0
  }

  ghost predicate GoodScan(l: Assignment, scan: seq<Mcu>) {
    GoodAssignment(l) && forall n :: 0 <= n < |scan| ==> |scan[n]| == |l.membership|
  }

  /** DC values that MCU `n` is predicted from, and those that it leaves. */
  function DcBefore(l: Assignment, interval: nat, scan: seq<Mcu>, n: nat): (r: seq<int>)
    requires GoodScan(l, scan) && n <= |scan|
    ensures |r| == |l.dcTbl|
    decreases n, 1
  {
    if Restarts(interval, n) then Zeros(l) else DcLeft(l, interval, scan, n)
  }

  function DcLeft(l: Assignment, interval: nat, scan: seq<Mcu>, n: nat): (r: seq<int>)
    requires GoodScan(l, scan) && n <= |scan|
    ensures |r| == |l.dcTbl|
    decreases n, 0
  {
    if n == 0 then Zeros(l)
    else LastTo(l, DcBefore(l, interval, scan, n - 1), scan[n - 1], |l.membership|)
  }

  /** Encoding tables by number. */
  /** At the start of the scan and of every restart interval the predictions are zero; otherwise they are what the MCU
      before leaves. */
  lemma IntervalStartsFresh(l: Assignment, interval: nat, scan: seq<Mcu>, n: nat, ci: nat)
    requires GoodScan(l, scan) && n <= |scan| && ci < |l.dcTbl|
    ensures n == 0 || (interval > 0 && n % interval == 0) ==> DcBefore(l, interval, scan, n)[ci] == 0
    ensures n > 0 && !(interval > 0 && n % interval == 0) ==>
              var m := BlockBefore(l, |l.membership|, ci);
              DcBefore(l, interval, scan, n)[ci]
              == if m < 0 then DcBefore(l, interval, scan, n - 1)[ci] else scan[n - 1][m][0]
  {
    if n > 0 {
      PredictedBy(l, DcBefore(l, interval, scan, n - 1), scan[n - 1], |l.membership|, ci);
    }
  }

  datatype Tables = Tables(dc: seq<Table>, ac: seq<Table>)

  ghost predicate GoodTables(l: Assignment, t: Tables) {
    && |t.dc| == |t.ac| == 4 && |l.dcTbl| == |l.acTbl|
    && forall ci :: 0 <= ci < |l.dcTbl| && l.dcTbl[ci] < 4 && l.acTbl[ci] < 4 ==>
         GoodTable(t.dc[l.dcTbl[ci]], true) && GoodTable(t.ac[l.acTbl[ci]], false)
  }

  /** The bits of the first `i` blocks of an MCU. */
  function McuBits(l: Assignment, t: Tables, last: seq<int>, mcu: Mcu, i: nat): seq<Bit>
    requires GoodAssignment(l) && |last| == |l.dcTbl| && i <= |mcu| == |l.membership| && |t.dc| == |t.ac| == 4
  {
    if i == 0 then []
    else
      var ci := l.membership[i - 1];
      McuBits(l, t, last, mcu, i - 1)
      + BlockBits(t.dc[l.dcTbl[ci]], t.ac[l.acTbl[ci]], mcu[i - 1], BlockDiff(l, last, mcu, i - 1))
  }

  /** Every symbol of block `i` has a code. */
  ghost predicate BlockCoded(l: Assignment, t: Tables, last: seq<int>, mcu: Mcu, i: nat)
    requires GoodAssignment(l) && |last| == |l.dcTbl| && i < |mcu| == |l.membership| && |t.dc| == |t.ac| == 4
  {
    var ci := l.membership[i];
    && CodableAc(mcu[i])
    && Coded(t.dc[l.dcTbl[ci]], DcItem(BlockDiff(l, last, mcu, i)))
    && AllCoded(t.ac[l.acTbl[ci]], AcItems(mcu[i], 1, 0))
  }

  ghost predicate McuCoded(l: Assignment, t: Tables, last: seq<int>, mcu: Mcu)
    requires GoodAssignment(l) && |last| == |l.dcTbl| && |mcu| == |l.membership| && |t.dc| == |t.ac| == 4
  {
    forall i :: 0 <= i < |mcu| ==> BlockCoded(l, t, last, mcu, i)
  }

  /** The bits of MCUs `m` to `n - 1`. */
  function SegmentBits(l: Assignment, t: Tables, interval: nat, scan: seq<Mcu>, m: nat, n: nat): seq<Bit>
    requires GoodScan(l, scan) && m <= n <= |scan| && |t.dc| == |t.ac| == 4
    decreases n
  {
    if n == m then []
    else SegmentBits(l, t, interval, scan, m, n - 1)
         + McuBits(l, t, DcBefore(l, interval, scan, n - 1), scan[n - 1], |l.membership|)
  }

  /** Bytes that hold a bit string, the last one filled up with ones. */
  ghost predicate Padded(raw: seq<Byte>, bits: seq<Bit>) {
    exists pad: nat :: pad < 8 && BytesBits(raw) == bits + Ones(pad)
  }

  /** A finished segment: its bytes before stuffing, and which MCUs it holds. */
  datatype Segment = Segment(raw: seq<Byte>, first: nat, end: nat)

  ghost predicate GoodSegment(l: Assignment, t: Tables, interval: nat, scan: seq<Mcu>, s: Segment) {
    && GoodScan(l, scan) && |t.dc| == |t.ac| == 4 && s.first <= s.end <= |scan|
    && (s.first == 0 || Restarts(interval, s.first))
    && (forall n :: s.first < n < s.end ==> !Restarts(interval, n))
    && Padded(s.raw, SegmentBits(l, t, interval, scan, s.first, s.end))
  }

  /** Segments that follow each other without gap, up to MCU `n`. */
  ghost predicate Consecutive(segs: seq<Segment>, n: nat) {
    && (if segs == [] then n == 0 else segs[0].first == 0 && segs[|segs| - 1].end == n)
    && forall j :: 0 <= j < |segs| - 1 ==> segs[j].end == segs[j + 1].first
  }

  /** Finished segments, each followed by its restart marker, numbered modulo 8. */
  function Framed(segs: seq<Segment>, n: nat): seq<Byte>
    requires n <= |segs|
  {
    if n == 0 then [] else Framed(segs, n - 1) + Stuff(segs[n - 1].raw) + [0xFF] + [0xD0 + (n - 1) % 8]
  }

  lemma {:induction false} FramedPrefix(segs: seq<Segment>, more: seq<Segment>, n: nat)
    requires segs <= more && n <= |segs|
    ensures Framed(segs, n) == Framed(more, n)
  {
    if n > 0 {
      FramedPrefix(segs, more, n - 1);
    }
  }

  /** MCUs left in the restart interval before MCU `n`. */
  function ToGo(interval: nat, n: nat): nat {
    if interval == 0 then 0 else if n == 0 then interval else interval - 1 - (n - 1) % interval
  }

  lemma ToGoStep(interval: nat, n: nat)
    ensures interval > 0 ==> (ToGo(interval, n) == 0 <==> Restarts(interval, n))
    ensures interval > 0 ==>
              ToGo(interval, n + 1) == (if ToGo(interval, n) == 0 then interval else ToGo(interval, n)) - 1
  {
    if interval > 0 && n > 0 {
      NextRemainder(n - 1, interval);
    }
  }

  lemma NextRemainder(x: nat, d: nat)
    requires d > 0
    ensures (x + 1) % d == if x % d == d - 1 then 0 else x % d + 1
  {
    var q, r := x / d, x % d;
    assert x == d * q + r;
    if r == d - 1 {
      assert x + 1 == d * (q + 1) + 0;
      DivUnique(x + 1, d, q + 1, 0);
    } else {
      DivUnique(x + 1, d, q, r + 1);
    }
  }

  /** How often an MCU hands bytes to the destination. */
  function Stores(restart: bool, blocks: nat): nat {
    blocks + if restart then 3 else 0
  }

  /** All of the encoder's state: the bits of the open segment, the DC values, the restart counters, the bytes out,
      how many MCUs are done, where the open segment starts, the finished segments, and how `out` is made up. */
  datatype State = State(sent: seq<Bit>, last: seq<int>, toGo: nat, restartNum: nat, out: seq<Byte>, done: nat,
                         first: nat, finished: seq<Segment>, raw: seq<Byte>, base: seq<Byte>)

  ghost predicate AllGood(l: Assignment, t: Tables, interval: nat, scan: seq<Mcu>, segs: seq<Segment>) {
    forall j :: 0 <= j < |segs| ==> GoodSegment(l, t, interval, scan, segs[j])
  }

  /** The state holds the first `done` MCUs, apart from what is in `last` and `toGo`. */
  ghost predicate Holds(l: Assignment, t: Tables, interval: nat, scan: seq<Mcu>, st: State) {
    && GoodScan(l, scan) && GoodTables(l, t) && st.first <= st.done <= |scan|
    && st.out == st.base + Stuff(st.raw) && st.base == Framed(st.finished, |st.finished|)
    && st.restartNum == |st.finished| % 8
    && Consecutive(st.finished, st.first) && AllGood(l, t, interval, scan, st.finished)
    && (st.first == 0 || Restarts(interval, st.first))
       && (forall n :: st.first < n < st.done ==> !Restarts(interval, n))
    && st.sent == SegmentBits(l, t, interval, scan, st.first, st.done)
  }

  /** The state between two MCUs. */
  ghost predicate Consistent(l: Assignment, t: Tables, interval: nat, scan: seq<Mcu>, st: State) {
    && Holds(l, t, interval, scan, st)
    && st.last == DcLeft(l, interval, scan, st.done) && st.toGo == ToGo(interval, st.done)
  }

  /** The state after the restart check. */
  ghost predicate Ready(l: Assignment, t: Tables, interval: nat, scan: seq<Mcu>, st: State) {
    && Holds(l, t, interval, scan, st) && (st.first == st.done || !Restarts(interval, st.done))
    && st.last == DcBefore(l, interval, scan, st.done)
    && (interval > 0 ==> st.toGo == ToGo(interval, st.done + 1) + 1)
  }

  lemma NoRestart(l: Assignment, t: Tables, interval: nat, scan: seq<Mcu>, st: State)
    requires Consistent(l, t, interval, scan, st) && !Restarts(interval, st.done)
    ensures Ready(l, t, interval, scan, st)
  {
    hide Holds, LastTo;
    HoldsScan(l, t, interval, scan, st);
    ToGoStep(interval, st.done);
  }

  lemma HoldsScan(l: Assignment, t: Tables, interval: nat, scan: seq<Mcu>, st: State)
    requires Holds(l, t, interval, scan, st)
    ensures GoodScan(l, scan) && GoodTables(l, t) && st.first <= st.done <= |scan|
  {
  }

  function AfterRestart(l: Assignment, interval: nat, st: State, body: seq<Byte>): State {
    var out := st.base + Stuff(body) + [0xFF] + [0xD0 + st.restartNum % 8];
    State([], Zeros(l), interval, (st.restartNum + 1) % 8, out, st.done, st.done,
          st.finished + [Segment(body, st.first, st.done)], [], out)
  }

  /** A restart finishes the open segment. */
  lemma RestartFinishes(l: Assignment, t: Tables, interval: nat, scan: seq<Mcu>, st: State, body: seq<Byte>)
    requires Consistent(l, t, interval, scan, st) && Restarts(interval, st.done) && Padded(body, st.sent)
    ensures Ready(l, t, interval, scan, AfterRestart(l, interval, st, body))
  {
    hide Holds, Stuff, SegmentBits, GoodTables, GoodTable, DcLeft, Padded, Consecutive, AllGood, GoodScan, Framed, ToGo;
    HoldsScan(l, t, interval, scan, st);
    ToGoStep(interval, st.done);
    RestartHolds(l, t, interval, scan, st, body);
  }

  lemma RestartHolds(l: Assignment, t: Tables, interval: nat, scan: seq<Mcu>, st: State, body: seq<Byte>)
    requires Holds(l, t, interval, scan, st) && Restarts(interval, st.done) && Padded(body, st.sent)
    ensures Holds(l, t, interval, scan, AfterRestart(l, interval, st, body))
  {
    hide Stuff, SegmentBits, GoodTables, GoodTable, DcLeft, Padded, Consecutive, AllGood, GoodScan, Restarts;
    var segs := st.finished + [Segment(body, st.first, st.done)];
    FramedPrefix(st.finished, segs, |st.finished|);
    OneMoreSegment(l, t, interval, scan, st.finished, Segment(body, st.first, st.done));
    EmptySegment(l, t, interval, scan, st.done);
    NothingStuffed(AfterRestart(l, interval, st, body).base);
  }

  lemma NothingStuffed(base: seq<Byte>)
    ensures base + Stuff([]) == base
  {
  }

  lemma EmptySegment(l: Assignment, t: Tables, interval: nat, scan: seq<Mcu>, n: nat)
    requires GoodScan(l, scan) && GoodTables(l, t) && n <= |scan|
    ensures SegmentBits(l, t, interval, scan, n, n) == []
  {
  }

  lemma OneMoreSegment(l: Assignment, t: Tables, interval: nat, scan: seq<Mcu>, segs: seq<Segment>, s: Segment)
    requires AllGood(l, t, interval, scan, segs) && Consecutive(segs, s.first) && s.first <= s.end <= |scan|
    requires GoodScan(l, scan) && GoodTables(l, t) && (s.first == 0 || Restarts(interval, s.first))
    requires forall n :: s.first < n < s.end ==> !Restarts(interval, n)
    requires Padded(s.raw, SegmentBits(l, t, interval, scan, s.first, s.end))
    ensures AllGood(l, t, interval, scan, segs + [s]) && Consecutive(segs + [s], s.end)
    ensures |segs + [s]| % 8 == (|segs| % 8 + 1) % 8
  {
    hide Padded, SegmentBits, GoodScan, GoodSegment;
    var more := segs + [s];
    SegmentIsGood(l, t, interval, scan, s);
    assert forall j :: 0 <= j < |segs| ==> more[j] == segs[j];
    assert more[|segs|] == s;
    NextRemainder(|segs|, 8);
  }

  lemma SegmentIsGood(l: Assignment, t: Tables, interval: nat, scan: seq<Mcu>, s: Segment)
    requires s.first <= s.end <= |scan| && GoodScan(l, scan) && GoodTables(l, t)
    requires (s.first == 0 || Restarts(interval, s.first))
    requires forall n :: s.first < n < s.end ==> !Restarts(interval, n)
    requires Padded(s.raw, SegmentBits(l, t, interval, scan, s.first, s.end))
    ensures GoodSegment(l, t, interval, scan, s)
  {
    hide Padded, SegmentBits, GoodScan, GoodTable;
  }

  /** One more MCU in the open segment. */
  function AfterMcu(st: State, bits: seq<Bit>, last: seq<int>, toGo: nat, raw: seq<Byte>): State {
    st.(sent := st.sent + bits, last := last, toGo := toGo, out := st.base + Stuff(raw), raw := raw,
        done := st.done + 1)
  }

  lemma McuAdded(l: Assignment, t: Tables, interval: nat, scan: seq<Mcu>, st: State, raw: seq<Byte>)
    requires Ready(l, t, interval, scan, st) && st.done < |scan|
    ensures GoodScan(l, scan) && GoodTables(l, t) && |st.last| == |l.dcTbl|
    ensures interval > 0 ==> st.toGo > 0
    ensures var mcu := scan[st.done];
            Consistent(l, t, interval, scan, AfterMcu(st, McuBits(l, t, st.last, mcu, |mcu|),
                       LastTo(l, st.last, mcu, |mcu|), if interval > 0 then st.toGo - 1 else 0, raw))
  {
    hide Stuff, GoodTable, BlockBits, Consecutive, AllGood, Framed, McuBits, LastTo;
  }

  class HuffEncoder {
    const w: nat
    const layout: Assignment
    const tables: Tables
    const interval: nat
    var putBuffer: nat
    var freeBits: int
    var lastDcVal: seq<int>
    var restartsToGo: nat
    var nextRestartNum: nat
    var out: seq<Byte>
    /** The MCUs of the scan, how many are encoded, where the open segment starts, and the finished ones. */
    ghost const scan: seq<Mcu>
    ghost var done: nat
    ghost var first: nat
    ghost var finished: seq<Segment>
    ghost var raw: seq<Byte>
    ghost var base: seq<Byte>

    ghost function Now(): State
      reads this
    {
      State(Sent(), lastDcVal, restartsToGo, nextRestartNum, out, done, first, finished, raw, base)
    }

    ghost function Sent(): seq<Bit>
      reads this
    {
      BytesBits(raw) + Bits(putBuffer, if freeBits <= w then w - freeBits else 0)
    }

    ghost predicate Valid()
      reads this
    {
      && (w == 32 || w == 64) && putBuffer < Pow2(w) && 0 <= freeBits <= w
      && (interval == 0 ==> restartsToGo == 0)
      && Consistent(layout, tables, interval, scan, Now())
    }

    /** `start_pass_huff` for output. */
    constructor (w: nat, layout: Assignment, tables: Tables, interval: nat, ghost scan: seq<Mcu>)
      requires (w == 32 || w == 64) && GoodScan(layout, scan) && GoodTables(layout, tables)
      ensures Valid() && done == 0 && this.w == w && this.layout == layout && this.tables == tables
      ensures this.interval == interval && this.scan == scan
    {
      hide Pow2, GoodTable;
      this.w, this.layout, this.tables, this.interval, this.scan := w, layout, tables, interval, scan;
      putBuffer, freeBits, lastDcVal := 0, w, Zeros(layout);
      restartsToGo, nextRestartNum, out := interval, 0, [];
      done, first, finished, raw, base := 0, 0, [], [], [];
    }

    /** "Emit restart marker if needed". The destination may refuse any of three stores. */
    method EmitRestart(s: Writer, accept: nat) returns (ok: bool, left: nat, ghost body: seq<Byte>)
      requires s.Valid() && s.next == 0 && s.raw == raw && s.base == base && s.Sent() == Sent() && s.out == out
      requires nextRestartNum < 8
      modifies s, s.buffer
      ensures s.Valid() && s.next == 0
      ensures ok <==> accept >= 3
      ensures ok ==> left == accept - 3 && s.raw == [] && s.Sent() == [] && Padded(body, Sent())
      ensures ok ==> s.out == s.base == base + Stuff(body) + [0xFF] + [0xD0 + nextRestartNum]
    {
      hide Pow2, Stuff, BytesBits, Bits;
      ok, left := accept >= 3, 0;
      body := [];
      if accept >= 1 {
        s.FlushBits();
      }
      if accept >= 3 {
        body := s.raw;
        left := accept - 3;
        s.StartSegment(nextRestartNum);
      }
    }

    /** Everything up to the update of the permanent state, in a working state. */
    method TryMcu(mcu: Mcu, accept: nat) returns (ok: bool, s: Writer, last: seq<int>, due: bool, ghost st: State)
      requires Valid() && done < |scan| && mcu == scan[done]
      requires GoodScan(layout, scan) && GoodTables(layout, tables)
      requires McuCoded(layout, tables, DcBefore(layout, interval, scan, done), mcu)
      ensures ok <==> accept >= Stores(Restarts(interval, done), |mcu|)
      ensures due <==> interval > 0 && restartsToGo == 0
      ensures s.Valid() && s.w == w && st.done == done + 1
      ensures ok ==> Consistent(layout, tables, interval, scan, st)
      ensures ok ==> st == State(s.Sent(), last,
                                 if interval == 0 then 0 else (if due then interval else restartsToGo) - 1,
                                 if due then (nextRestartNum + 1) % 8 else nextRestartNum, s.out, done + 1,
                                 st.first, st.finished, s.raw, s.base)
    {
      hide Pow2, Stuff, BytesBits, Bits, Consistent, Ready, Padded, GoodTables, McuCoded, Writer.Valid, McuBits,
           LastTo, DcBefore, DcLeft, ToGo, GoodScan, Framed;
      st := Now();
      CountersOf(layout, tables, interval, scan, st);
      ToGoStep(interval, done);
      SavedState();
      s := new Writer(w, putBuffer, freeBits, out, raw, base);
      var left := accept;
      last, due := lastDcVal, interval > 0 && restartsToGo == 0;
      if due {
        ghost var body;
        ok, left, body := EmitRestart(s, accept);
        if !ok {
          st := st.(done := done + 1);
          return;
        }
        RestartFinishes(layout, tables, interval, scan, st, body);
        st := AfterRestart(layout, interval, st, body);
        last := Zeros(layout);
      } else {
        NoRestart(layout, tables, interval, scan, st);
      }
      ReadyShape(layout, tables, interval, scan, st);
      ok, last := EncodeBlocks(s, layout, tables, mcu, last, left);
      McuAdded(layout, tables, interval, scan, st, s.raw);
      st := AfterMcu(st, McuBits(layout, tables, st.last, mcu, |mcu|), LastTo(layout, st.last, mcu, |mcu|),
                     if interval > 0 then st.toGo - 1 else 0, s.raw);
    }

    lemma SavedState()
      requires Valid()
      ensures (w == 32 || w == 64) && putBuffer < Pow2(w) && 0 <= freeBits <= w && (interval == 0 ==> restartsToGo == 0)
      ensures Consistent(layout, tables, interval, scan, Now())
    {
    }

    /** `encode_mcu_huff`. Either the MCU is encoded, after a restart marker where one is due, or the destination
        suspends and nothing has changed. */
    method EncodeMcu(mcu: Mcu, accept: nat) returns (ok: bool)
      requires Valid() && done < |scan| && mcu == scan[done]
      requires GoodScan(layout, scan) && GoodTables(layout, tables)
      requires McuCoded(layout, tables, DcBefore(layout, interval, scan, done), mcu)
      modifies this
      ensures Valid() && done == old(done) + if ok then 1 else 0
      ensures ok <==> accept >= Stores(Restarts(interval, old(done)), |mcu|)
      ensures !ok ==> unchanged(this)
    {
      hide Stuff, BytesBits, Bits, Consistent, GoodTables, McuCoded, GoodScan, Stores, ToGo, Pow2;
      ghost var st0 := Now();
      CountersOf(layout, tables, interval, scan, st0);
      var s, last, due;
      ghost var st;
      ok, s, last, due, st := TryMcu(mcu, accept);
      if ok {
        SavedOf(s);
        Commit(s, last, due, st);
        assert Now() == st;
      }
    }

    /** `finish_pass_huff`, to a destination that does not suspend. */
    method FinishPass() returns (ghost segs: seq<Segment>)
      requires Valid()
      modifies this
      ensures segs != [] && Consecutive(segs, done) && AllGood(layout, tables, interval, scan, segs)
      ensures out == Framed(segs, |segs| - 1) + Stuff(segs[|segs| - 1].raw)
      ensures done == old(done)
    {
      hide Stuff, BytesBits, Bits, Pow2, GoodTables, GoodScan, Framed, SegmentBits, Consecutive, AllGood, Padded;
      ghost var st := Now();
      var s := new Writer(w, putBuffer, freeBits, out, raw, base);
      s.FlushBits();
      FlushedIsPadded(s.raw, st.sent);
      OneMoreSegment(layout, tables, interval, scan, finished, Segment(s.raw, first, done));
      segs := finished + [Segment(s.raw, first, done)];
      FramedPrefix(finished, segs, |finished|);
      putBuffer, freeBits, out := s.putBuffer, s.freeBits, s.out;
    }

    /** "Completed MCU, so update state" */
    method Commit(s: Writer, last: seq<int>, due: bool, ghost st: State)
      requires due ==> interval > 0
      requires interval == 0 ==> restartsToGo == 0
      requires interval > 0 && !due ==> restartsToGo > 0
      modifies this
      ensures putBuffer == s.putBuffer && freeBits == s.freeBits && lastDcVal == last && out == s.out
      ensures restartsToGo == if interval == 0 then 0 else (if due then interval else old(restartsToGo)) - 1
      ensures nextRestartNum == if due then (old(nextRestartNum) + 1) % 8 else old(nextRestartNum)
      ensures raw == s.raw && base == s.base && done == st.done && first == st.first && finished == st.finished
    {
      hide *;
      putBuffer, freeBits, lastDcVal, out := s.putBuffer, s.freeBits, last, s.out;
      raw, base, done, first, finished := s.raw, s.base, st.done, st.first, st.finished;
      if interval > 0 {
        if due {
          restartsToGo := interval;
          nextRestartNum := (nextRestartNum + 1) % 8;
        }
        restartsToGo := restartsToGo - 1;
      }
    }
  }

  lemma FlushedIsPadded(raw: seq<Byte>, bits: seq<Bit>)
    requires exists pad: nat :: pad < 8 && BytesBits(raw) == bits + Ones(pad)
    ensures Padded(raw, bits)
  {
  }

  lemma SavedOf(s: Writer)
    requires s.Valid()
    ensures s.putBuffer < Pow2(s.w) && 0 <= s.freeBits <= s.w
  {
  }

  lemma CountersOf(l: Assignment, t: Tables, interval: nat, scan: seq<Mcu>, st: State)
    requires Consistent(l, t, interval, scan, st)
    ensures st.restartNum < 8 && st.toGo == ToGo(interval, st.done) && st.out == st.base + Stuff(st.raw)
  {
  }

  lemma ReadyShape(l: Assignment, t: Tables, interval: nat, scan: seq<Mcu>, st: State)
    requires Ready(l, t, interval, scan, st) && st.done < |scan|
    ensures GoodAssignment(l) && GoodTables(l, t) && |scan[st.done]| == |l.membership| && |st.last| == |l.dcTbl|
    ensures st.last == DcBefore(l, interval, scan, st.done) && st.out == st.base + Stuff(st.raw)
  {
  }

  /** "Encode the MCU data blocks". The destination refuses the store after `accept` of them. */
  method EncodeBlocks(s: Writer, l: Assignment, t: Tables, mcu: Mcu, last0: seq<int>, accept: nat)
    returns (ok: bool, last: seq<int>)
    requires s.Valid() && s.next == 0 && s.out == s.base + Stuff(s.raw)
    requires GoodAssignment(l) && |mcu| == |l.membership| && |last0| == |l.dcTbl| && GoodTables(l, t)
    requires McuCoded(l, t, last0, mcu)
    modifies s, s.buffer
    ensures s.Valid() && s.next == 0 && s.out == s.base + Stuff(s.raw) && s.base == old(s.base)
    ensures ok <==> accept >= |mcu|
    ensures ok ==> last == LastTo(l, last0, mcu, |mcu|)
    ensures ok ==> s.Sent() == old(s.Sent()) + McuBits(l, t, last0, mcu, |mcu|)
  {
    hide Pow2, Stuff, BytesBits, Bits, GoodTable, BlockBits, Coded, AllCoded, Writer.Valid, Writer.Sent, GoodTables,
         McuCoded, McuBits, LastTo, CodableAc;
    last := last0;
    ghost var before := s.Sent();
    NoBlocks(l, t, last0, mcu, before);
    var blkn := 0;
    while blkn < |mcu|
      invariant blkn <= |mcu| && blkn <= accept && last == LastTo(l, last0, mcu, blkn) && |last| == |l.dcTbl|
      invariant s.Valid() && s.next == 0 && s.out == s.base + Stuff(s.raw) && s.base == old(s.base)
      invariant s.Sent() == before + McuBits(l, t, last0, mcu, blkn)
    {
      var ci := l.membership[blkn];
      AtBlock(l, t, last0, mcu, blkn, before);
      s.EncodeOneBlock(mcu[blkn], last[ci], t.dc[l.dcTbl[ci]], t.ac[l.acTbl[ci]]);
      if accept == blkn {
        return false, last;
      }
      last := last[ci := mcu[blkn][0]];
      blkn := blkn + 1;
    }
    return true, last;
  }

  lemma NoBlocks(l: Assignment, t: Tables, last: seq<int>, mcu: Mcu, before: seq<Bit>)
    requires GoodAssignment(l) && |mcu| == |l.membership| && |last| == |l.dcTbl| && GoodTables(l, t)
    ensures before == before + McuBits(l, t, last, mcu, 0) && LastTo(l, last, mcu, 0) == last
    ensures |t.dc| == |t.ac| == 4
  {
  }

  /** What encoding block `i` needs, and what it adds. */
  lemma AtBlock(l: Assignment, t: Tables, last: seq<int>, mcu: Mcu, i: nat, before: seq<Bit>)
    requires GoodAssignment(l) && i < |mcu| == |l.membership| && |last| == |l.dcTbl| && GoodTables(l, t)
    requires McuCoded(l, t, last, mcu)
    ensures var ci := l.membership[i];
            && GoodTable(t.dc[l.dcTbl[ci]], true) && GoodTable(t.ac[l.acTbl[ci]], false)
            && CodableAc(mcu[i]) && Coded(t.dc[l.dcTbl[ci]], DcItem(mcu[i][0] - LastTo(l, last, mcu, i)[ci]))
            && AllCoded(t.ac[l.acTbl[ci]], AcItems(mcu[i], 1, 0))
            && LastTo(l, last, mcu, i + 1) == LastTo(l, last, mcu, i)[ci := mcu[i][0]]
            && before + McuBits(l, t, last, mcu, i + 1)
               == before + McuBits(l, t, last, mcu, i)
                  + BlockBits(t.dc[l.dcTbl[ci]], t.ac[l.acTbl[ci]], mcu[i], mcu[i][0] - LastTo(l, last, mcu, i)[ci])
  {
    hide Pow2, BlockBits, GoodTable, GoodTables, Coded, AllCoded, AcItems, CodableAc, LastTo;
    NextLast(l, last, mcu, i);
    var ci := l.membership[i];
    TablesOf(l, t, ci);
    assert BlockCoded(l, t, last, mcu, i);
    ConcatAssoc(before, McuBits(l, t, last, mcu, i),
                BlockBits(t.dc[l.dcTbl[ci]], t.ac[l.acTbl[ci]], mcu[i], BlockDiff(l, last, mcu, i)));
  }

  lemma TablesOf(l: Assignment, t: Tables, ci: nat)
    requires GoodAssignment(l) && GoodTables(l, t) && ci < |l.dcTbl|
    ensures |t.dc| == |t.ac| == 4 && GoodTable(t.dc[l.dcTbl[ci]], true) && GoodTable(t.ac[l.acTbl[ci]], false)
  {
  }

  lemma NextLast(l: Assignment, last: seq<int>, mcu: Mcu, i: nat)
    requires GoodAssignment(l) && i < |mcu| == |l.membership| && |last| == |l.dcTbl|
    ensures LastTo(l, last, mcu, i + 1) == LastTo(l, last, mcu, i)[l.membership[i] := mcu[i][0]]
  {
  }

  /** The finished segments contain no markers but those behind each, RST0, RST1, ... in turn. */
  lemma {:induction false} MarkersBetween(segs: seq<Segment>, n: nat, rest: seq<Byte>)
    requires n <= |segs|
    ensures |Markers(Framed(segs, n) + rest)| == n + |Markers(rest)|
    ensures forall k :: 0 <= k < n ==> Markers(Framed(segs, n) + rest)[k] == 0xD0 + k % 8
    ensures Markers(Framed(segs, n) + rest)[n..] == Markers(rest)
  {
    hide Markers, Stuff;
    if n == 0 {
      assert [] + rest == rest;
    } else {
      var m: Byte := 0xD0 + (n - 1) % 8;
      var body, tail := segs[n - 1].raw, [0xFF] + [m] + rest;
      assert Framed(segs, n) + rest == Framed(segs, n - 1) + (Stuff(body) + tail);
      MarkersBetween(segs, n - 1, Stuff(body) + tail);
      NoneStuffed(body, tail);
      MarkerComes(m, rest);
      assert Markers(tail)[1..] == Markers(rest);
    }
  }
}
