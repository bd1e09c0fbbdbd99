/** The statistics pass of `jchuff.c`: `encode_mcu_gather` counts the symbols that `encode_mcu_huff` will emit. */
module HuffmanStatistics {
  import opened ArithModel
  import opened HuffmanBlock
  import opened HuffmanScan

  /** How often a symbol occurs in a list of items. */
  function CountItems(items: seq<Item>, sym: nat): nat {
    if items == [] then 0 else (if items[0].sym == sym then 1 else 0) + CountItems(items[1..], sym)
  }

  /** How often block `i` of an MCU uses a symbol of DC or AC table `tbl`. */
  function BlockUses(l: Assignment, last: seq<int>, mcu: Mcu, i: nat, ac: bool, tbl: nat, sym: nat): nat
    requires GoodAssignment(l) && |last| == |l.dcTbl| && i < |mcu| == |l.membership|
  {
    var ci := l.membership[i];
    if ac then (if l.acTbl[ci] == tbl then CountItems(AcItems(mcu[i], 1, 0), sym) else 0)
    else if l.dcTbl[ci] == tbl && DcItem(BlockDiff(l, last, mcu, i)).sym == sym then 1 else 0
  }

  function McuUses(l: Assignment, last: seq<int>, mcu: Mcu, i: nat, ac: bool, tbl: nat, sym: nat): nat
    requires GoodAssignment(l) && |last| == |l.dcTbl| && i <= |mcu| == |l.membership|
  {
    if i == 0 then 0 else McuUses(l, last, mcu, i - 1, ac, tbl, sym) + BlockUses(l, last, mcu, i - 1, ac, tbl, sym)
  }

  /** How often the first `n` MCUs of a scan use a symbol. */
  function ScanUses(l: Assignment, interval: nat, scan: seq<Mcu>, n: nat, ac: bool, tbl: nat, sym: nat): nat
    requires GoodScan(l, scan) && n <= |scan|
  {
    if n == 0 then 0
    else ScanUses(l, interval, scan, n - 1, ac, tbl, sym)
         + McuUses(l, DcBefore(l, interval, scan, n - 1), scan[n - 1], |l.membership|, ac, tbl, sym)
  }

  /** Within MAX_COEF_BITS: what the statistics pass accepts. */
  ghost predicate InRange(b: Block, diff: int) {
    Nbits(Abs(diff)) <= 11 && forall j :: 1 <= j < 64 ==> Nbits(Abs(b[j])) <= 10
  }

  /** The number of bits in a magnitude, by shifting. */
  method CountBits(temp: nat) returns (nbits: nat)
    ensures nbits == Nbits(temp)
  {
    nbits := 0;
    var t := temp;
    while t != 0
      invariant nbits + Nbits(t) == Nbits(temp)
      decreases t
    {
      nbits := nbits + 1;
      t := t / 2;
    }
  }

  /** The array holds the given rows. */
  ghost predicate Counted(counts: array2<int>, rows: seq<seq<int>>)
    reads counts
  {
    && counts.Length0 == |rows| == 4 && counts.Length1 == 257
    && (forall t :: 0 <= t < 4 ==> |rows[t]| == 257)
    && forall t, s :: 0 <= t < 4 && 0 <= s < 257 ==> counts[t, s] == rows[t][s]
  }

  /** Row `tbl` raised by `extra`. */
  function RaisedRow(rows: seq<seq<int>>, tbl: nat, extra: seq<int>): (r: seq<seq<int>>)
    requires tbl < |rows| && |extra| == |rows[tbl]|
  {
    rows[tbl := seq(|extra|, s requires 0 <= s < |extra| => rows[tbl][s] + extra[s])]
  }

  function ItemRow(items: seq<Item>): (r: seq<int>)
    ensures |r| == 257
  {
    seq(257, s requires 0 <= s < 257 => CountItems(items, s))
  }

  function OneRow(sym: nat): (r: seq<int>)
    ensures |r| == 257
  {
    seq(257, s requires 0 <= s < 257 => if s == sym then 1 else 0)
  }

  /** The AC half of `htest_one_block`. */
  method CountAc(counts: array2<int>, tbl: nat, block: Block, ghost rows: seq<seq<int>>) returns (ok: bool)
    requires Counted(counts, rows) && tbl < 4
    modifies counts
    ensures ok <==> forall j :: 1 <= j < 64 ==> Nbits(Abs(block[j])) <= 10
    ensures ok ==> Counted(counts, RaisedRow(rows, tbl, ItemRow(AcItems(block, 1, 0))))
  {
    hide AcItems, Nbits, CountItems;
    var r := 0;
    var k := 1;
    while k < 64
      invariant 1 <= k <= 64 && forall j :: 1 <= j < k ==> Nbits(Abs(block[j])) <= 10
      invariant forall t, s :: 0 <= t < 4 && 0 <= s < 257 ==>
                  counts[t, s] + (if t == tbl then CountItems(AcItems(block, k, r), s) else 0)
                  == old(counts[t, s]) + if t == tbl then CountItems(AcItems(block, 1, 0), s) else 0
    {
      var temp := block[k];
      if temp == 0 {
        ZeroCounts(block, k, r);
        NoBits();
        r := r + 1;
      } else {
        while r > 15
          invariant forall t, s :: 0 <= t < 4 && 0 <= s < 257 ==>
                      counts[t, s] + (if t == tbl then CountItems(AcItems(block, k, r), s) else 0)
                      == old(counts[t, s]) + if t == tbl then CountItems(AcItems(block, 1, 0), s) else 0
        {
          NonzeroCounts(block, k, r);
          counts[tbl, 0xF0] := counts[tbl, 0xF0] + 1;
          r := r - 16;
        }
        temp := if temp < 0 then -temp else temp;
        var nbits := CountBits(temp);
        if nbits > 10 {
          return false;
        }
        NonzeroCounts(block, k, r);
        counts[tbl, 16 * r + nbits] := counts[tbl, 16 * r + nbits] + 1;
        r := 0;
      }
      k := k + 1;
    }
    EndCounts(block, r);
    if r > 0 {
      counts[tbl, 0] := counts[tbl, 0] + 1;
    }
    return true;
  }

  lemma NoBits()
    ensures Nbits(0) == 0
  {
  }

  lemma ZeroCounts(b: Block, k: nat, r: nat)
    requires k < 64 && b[k] == 0
    ensures forall s: nat :: CountItems(AcItems(b, k, r), s) == CountItems(AcItems(b, k + 1, r + 1), s)
  {
  }

  lemma NonzeroCounts(b: Block, k: nat, r: nat)
    requires k < 64 && b[k] != 0
    ensures r > 15 ==>
              forall s: nat :: CountItems(AcItems(b, k, r), s)
                               == CountItems(AcItems(b, k, r - 16), s) + if s == 0xF0 then 1 else 0
    ensures r <= 15 ==>
              forall s: nat :: CountItems(AcItems(b, k, r), s)
                               == CountItems(AcItems(b, k + 1, 0), s) + if s == 16 * r + Nbits(Abs(b[k])) then 1 else 0
  {
  }

  lemma EndCounts(b: Block, r: nat)
    ensures forall s: nat :: CountItems(AcItems(b, 64, r), s) == if r > 0 && s == 0 then 1 else 0
  {
  }

  /** `htest_one_block`. */
  method HtestOneBlock(dcCounts: array2<int>, acCounts: array2<int>, dcTbl: nat, acTbl: nat, block: Block,
                       lastDcVal: int, ghost dcRows: seq<seq<int>>, ghost acRows: seq<seq<int>>)
    returns (ok: bool)
    requires Counted(dcCounts, dcRows) && Counted(acCounts, acRows) && dcCounts != acCounts && dcTbl < 4 && acTbl < 4
    modifies dcCounts, acCounts
    ensures ok <==> InRange(block, block[0] - lastDcVal)
    ensures ok ==> Counted(dcCounts, RaisedRow(dcRows, dcTbl, OneRow(DcItem(block[0] - lastDcVal).sym)))
    ensures ok ==> Counted(acCounts, RaisedRow(acRows, acTbl, ItemRow(AcItems(block, 1, 0))))
  {
    hide AcItems, Nbits, ItemRow;
    var temp := block[0] - lastDcVal;
    temp := if temp < 0 then -temp else temp;
    var nbits := CountBits(temp);
    if nbits > 11 {
      return false;
    }
    dcCounts[dcTbl, nbits] := dcCounts[dcTbl, nbits] + 1;
    ok := CountAc(acCounts, acTbl, block, acRows);
  }

  /** The counts of one table after `n` MCUs; entry 256 belongs to the pseudo-symbol. */
  function UsesRow(l: Assignment, interval: nat, scan: seq<Mcu>, n: nat, ac: bool, tbl: nat): (r: seq<int>)
    requires GoodScan(l, scan) && n <= |scan|
    ensures |r| == 257 && forall s :: 0 <= s < 257 ==> r[s] >= 0
  {
    seq(257, s requires 0 <= s < 257 => ScanUses(l, interval, scan, n, ac, tbl, s))
  }

  /** The same after some blocks of MCU `n`. */
  function PartRow(l: Assignment, interval: nat, scan: seq<Mcu>, n: nat, i: nat, ac: bool, tbl: nat): (r: seq<int>)
    requires GoodScan(l, scan) && n < |scan| && i <= |l.membership|
    ensures |r| == 257 && forall s :: 0 <= s < 257 ==> r[s] >= 0
  {
    seq(257, s requires 0 <= s < 257 =>
      ScanUses(l, interval, scan, n, ac, tbl, s) + McuUses(l, DcBefore(l, interval, scan, n), scan[n], i, ac, tbl, s))
  }

  function Rows(l: Assignment, interval: nat, scan: seq<Mcu>, n: nat, ac: bool): (r: seq<seq<int>>)
    requires GoodScan(l, scan) && n <= |scan|
    ensures |r| == 4
  {
    seq(4, t requires 0 <= t < 4 => UsesRow(l, interval, scan, n, ac, t))
  }

  function PartRows(l: Assignment, interval: nat, scan: seq<Mcu>, n: nat, i: nat, ac: bool): (r: seq<seq<int>>)
    requires GoodScan(l, scan) && n < |scan| && i <= |l.membership|
    ensures |r| == 4
  {
    seq(4, t requires 0 <= t < 4 => PartRow(l, interval, scan, n, i, ac, t))
  }

  lemma PartStart(l: Assignment, interval: nat, scan: seq<Mcu>, n: nat, ac: bool)
    requires GoodScan(l, scan) && n < |scan|
    ensures PartRows(l, interval, scan, n, 0, ac) == Rows(l, interval, scan, n, ac)
    ensures PartRows(l, interval, scan, n, |l.membership|, ac) == Rows(l, interval, scan, n + 1, ac)
  {
    hide BlockUses, DcBefore;
    forall t | 0 <= t < 4
      ensures PartRow(l, interval, scan, n, 0, ac, t) == UsesRow(l, interval, scan, n, ac, t)
      ensures PartRow(l, interval, scan, n, |l.membership|, ac, t) == UsesRow(l, interval, scan, n + 1, ac, t)
    {
    }
  }

  lemma PartNext(l: Assignment, interval: nat, scan: seq<Mcu>, n: nat, i: nat, ac: bool, tbl: nat, extra: seq<int>)
    requires GoodScan(l, scan) && n < |scan| && i < |l.membership|
    requires tbl == if ac then l.acTbl[l.membership[i]] else l.dcTbl[l.membership[i]]
    requires extra == if ac then ItemRow(AcItems(scan[n][i], 1, 0))
                      else OneRow(DcItem(BlockDiff(l, DcBefore(l, interval, scan, n), scan[n], i)).sym)
    ensures tbl < 4
    ensures RaisedRow(PartRows(l, interval, scan, n, i, ac), tbl, extra) == PartRows(l, interval, scan, n, i + 1, ac)
  {
    hide DcBefore, AcItems, CountItems, BlockDiff, DcItem, ScanUses;
    var rows, rows' := PartRows(l, interval, scan, n, i, ac), PartRows(l, interval, scan, n, i + 1, ac);
    forall t | 0 <= t < 4
      ensures RaisedRow(rows, tbl, extra)[t] == rows'[t]
    {
      forall s | 0 <= s < 257
        ensures rows'[t][s] == rows[t][s] + if t == tbl then extra[s] else 0
      {
        OneCount(l, DcBefore(l, interval, scan, n), scan[n], i, ac, t, s);
      }
    }
  }

  /** One block raises the counts of its own table by its own symbols. */
  lemma OneCount(l: Assignment, last: seq<int>, mcu: Mcu, i: nat, ac: bool, t: nat, s: nat)
    requires GoodAssignment(l) && |last| == |l.dcTbl| && i < |mcu| == |l.membership| && s < 257
    ensures McuUses(l, last, mcu, i + 1, ac, t, s)
            == McuUses(l, last, mcu, i, ac, t, s)
               + if t != (if ac then l.acTbl[l.membership[i]] else l.dcTbl[l.membership[i]]) then 0
                 else if ac then ItemRow(AcItems(mcu[i], 1, 0))[s]
                   else OneRow(DcItem(BlockDiff(l, last, mcu, i)).sym)[s]
  {
  }

  /** The entropy encoder of a statistics pass. */
  class Gatherer {
    const layout: Assignment
    const interval: nat
    const dcCounts: array2<int>
    const acCounts: array2<int>
    var lastDcVal: seq<int>
    var restartsToGo: nat
    ghost const scan: seq<Mcu>
    ghost var done: nat

    ghost predicate Valid()
      reads this, dcCounts, acCounts
    {
      && GoodScan(layout, scan) && done <= |scan| && dcCounts != acCounts
      && Counted(dcCounts, Rows(layout, interval, scan, done, false))
      && Counted(acCounts, Rows(layout, interval, scan, done, true))
      && lastDcVal == DcLeft(layout, interval, scan, done) && restartsToGo == ToGo(interval, done)
    }

    /** `start_pass_huff` for statistics. */
    constructor (layout: Assignment, interval: nat, ghost scan: seq<Mcu>)
      requires GoodScan(layout, scan)
      ensures Valid() && fresh(dcCounts) && fresh(acCounts) && done == 0
      ensures this.layout == layout && this.interval == interval && this.scan == scan
    {
      this.layout, this.interval, this.scan := layout, interval, scan;
      dcCounts := new int[4, 257]((t, s) => 0);
      acCounts := new int[4, 257]((t, s) => 0);
      lastDcVal, restartsToGo, done := Zeros(layout), interval, 0;
    }

    /** One block of MCU `n`. */
    method CountBlock(mcu: Mcu, blkn: nat, ghost n: nat) returns (ok: bool)
      requires GoodScan(layout, scan) && n < |scan| && mcu == scan[n] && blkn < |mcu| && dcCounts != acCounts
      requires lastDcVal == LastTo(layout, DcBefore(layout, interval, scan, n), mcu, blkn)
      requires Counted(dcCounts, PartRows(layout, interval, scan, n, blkn, false))
      requires Counted(acCounts, PartRows(layout, interval, scan, n, blkn, true))
      modifies dcCounts, acCounts
      ensures ok <==> BlockInRange(layout, DcBefore(layout, interval, scan, n), mcu, blkn)
      ensures ok ==> Counted(dcCounts, PartRows(layout, interval, scan, n, blkn + 1, false))
      ensures ok ==> Counted(acCounts, PartRows(layout, interval, scan, n, blkn + 1, true))
    {
      hide DcBefore, DcLeft, Counted, PartRows, RaisedRow, AcItems, ItemRow, OneRow, DcItem, InRange, BlockDiff, LastTo;
      var ci := layout.membership[blkn];
      ghost var last0 := DcBefore(layout, interval, scan, n);
      DiffIs(layout, last0, mcu, blkn);
      PartNext(layout, interval, scan, n, blkn, false, layout.dcTbl[ci],
               OneRow(DcItem(BlockDiff(layout, last0, mcu, blkn)).sym));
      PartNext(layout, interval, scan, n, blkn, true, layout.acTbl[ci], ItemRow(AcItems(mcu[blkn], 1, 0)));
      ok := HtestOneBlock(dcCounts, acCounts, layout.dcTbl[ci], layout.acTbl[ci], mcu[blkn], lastDcVal[ci],
                          PartRows(layout, interval, scan, n, blkn, false),
                            PartRows(layout, interval, scan, n, blkn, true));
    }

    /** `encode_mcu_gather`. Fails exactly when some coefficient is out of range. */
    method EncodeMcu(mcu: Mcu) returns (ok: bool)
      requires Valid() && done < |scan| && mcu == scan[done]
      modifies this, dcCounts, acCounts
      ensures ok <==> McuInRange(layout, DcBefore(layout, interval, scan, old(done)), mcu)
      ensures ok ==> Valid() && done == old(done) + 1
    {
      hide DcBefore, DcLeft, Counted, Rows, PartRows, RaisedRow, AcItems, ItemRow, OneRow, DcItem, InRange, BlockDiff,
           LastTo;
      ghost var n := done;
      ghost var last0 := DcBefore(layout, interval, scan, n);
      StateBefore(layout, interval, scan, n);
      if interval > 0 {
        if restartsToGo == 0 {
          lastDcVal := seq(|lastDcVal|, _ => 0);
          restartsToGo := interval;
        }
        restartsToGo := restartsToGo - 1;
      }
      PartStart(layout, interval, scan, n, false);
      PartStart(layout, interval, scan, n, true);
      NoneLast(layout, last0, mcu);
      var blkn := 0;
      while blkn < |mcu|
        invariant blkn <= |mcu| && lastDcVal == LastTo(layout, last0, mcu, blkn) && done == n
        invariant restartsToGo == ToGo(interval, n + 1)
        invariant forall j :: 0 <= j < blkn ==> BlockInRange(layout, last0, mcu, j)
        invariant Counted(dcCounts, PartRows(layout, interval, scan, n, blkn, false))
        invariant Counted(acCounts, PartRows(layout, interval, scan, n, blkn, true))
      {
        var ci := layout.membership[blkn];
        DiffIs(layout, last0, mcu, blkn);
        var ok' := CountBlock(mcu, blkn, n);
        if !ok' {
          return false;
        }
        lastDcVal := lastDcVal[ci := mcu[blkn][0]];
        blkn := blkn + 1;
      }
      done := done + 1;
      return true;
    }
  }

  lemma StateBefore(l: Assignment, interval: nat, scan: seq<Mcu>, n: nat)
    requires GoodScan(l, scan) && n < |scan|
    ensures |DcLeft(l, interval, scan, n)| == |l.dcTbl|
    ensures DcBefore(l, interval, scan, n)
            == if interval > 0 && ToGo(interval, n) == 0 then seq(|l.dcTbl|, _ => 0) else DcLeft(l, interval, scan, n)
    ensures ToGo(interval, n + 1)
            == if interval == 0 then 0 else (if ToGo(interval, n) == 0 then interval else ToGo(interval, n)) - 1
    ensures DcLeft(l, interval, scan, n + 1) == LastTo(l, DcBefore(l, interval, scan, n), scan[n], |scan[n]|)
  {
    hide LastTo;
    ToGoStep(interval, n);
  }

  lemma NoneLast(l: Assignment, last: seq<int>, mcu: Mcu)
    requires GoodAssignment(l) && |mcu| == |l.membership| && |last| == |l.dcTbl|
    ensures LastTo(l, last, mcu, 0) == last
  {
  }

  lemma DiffIs(l: Assignment, last: seq<int>, mcu: Mcu, i: nat)
    requires GoodAssignment(l) && i < |mcu| == |l.membership| && |last| == |l.dcTbl|
    ensures BlockDiff(l, last, mcu, i) == mcu[i][0] - LastTo(l, last, mcu, i)[l.membership[i]]
    ensures LastTo(l, last, mcu, i + 1) == LastTo(l, last, mcu, i)[l.membership[i] := mcu[i][0]]
  {
  }

  ghost predicate BlockInRange(l: Assignment, last: seq<int>, mcu: Mcu, i: nat)
    requires GoodAssignment(l) && |last| == |l.dcTbl| && i < |mcu| == |l.membership|
  {
    InRange(mcu[i], BlockDiff(l, last, mcu, i))
  }

  ghost predicate McuInRange(l: Assignment, last: seq<int>, mcu: Mcu)
    requires GoodAssignment(l) && |last| == |l.dcTbl| && |mcu| == |l.membership|
  {
    forall i :: 0 <= i < |mcu| ==> BlockInRange(l, last, mcu, i)
  }
}
