/** Two-pass Huffman coding of a scan: gather statistics, generate tables (`finish_pass_gather`), encode. */
module HuffmanOptimize {
  import opened Numbers
  import opened ByteStuffing
  import opened Sums
  import opened ArithModel
  import opened HuffmanOptimal
  import opened HuffmanTree
  import opened HuffmanLimit
  import opened DerivedTable
  import opened HuffmanBits
  import opened HuffmanBlock
  import opened HuffmanWriter
  import opened HuffmanScan
  import opened HuffmanRead
  import opened HuffmanStatistics

  /** A Huffman table definition, JHUFF_TBL. */
  datatype TableDef = TableDef(bits: Bits16, huffval: seq<Byte>)

  /** The definition is acceptable, and gives codes to exactly the symbols counted in `row`. */
  ghost predicate Serves(def: TableDef, row: seq<int>, isDC: bool) {
    && |def.huffval| == 256 && |row| == 257 && Acceptable(def.bits, def.huffval, isDC)
    && forall t: Table :: Derives(SizesOf(def.bits), def.huffval, t) ==> CodesExactly(t, row)
  }

  /** The symbols with codes are those counted. */
  ghost predicate CodesExactly(t: Table, row: seq<int>) {
    |t.si| == 256 <= |row| && forall i: Byte :: row[i] > 0 <==> t.si[i] > 0
  }

  /** What the statistics pass can have counted. */
  ghost predicate PlausibleRow(row: seq<int>, isDC: bool) {
    && |row| == 257 && row[256] == 0 && (forall i :: 0 <= i < 257 ==> row[i] >= 0)
    && (forall i :: 0 <= i < 256 && (i % 16 > 11 || (isDC && i >= 16)) ==> row[i] == 0)
    && (exists i :: 0 <= i < 256 && row[i] > 0)
    && Sum(row) < MAX_COUNT
  }

  /** How many of the first `n` symbols have a low digit of at most 11. */
  function LowDigits(n: nat): nat {
    12 * (n / 16) + if n % 16 > 12 then 12 else n % 16
  }

  lemma LowDigitsStep(n: nat)
    ensures LowDigits(n + 1) == LowDigits(n) + if n % 16 > 11 then 0 else 1
  {
  }

  /** At most 12 of every 16 symbols occur. */
  lemma {:induction false} FewActive(w: Counts, n: nat)
    requires n <= 256 <= |w| && forall i :: 0 <= i < 256 && i % 16 > 11 ==> w[i] == 0
    ensures Active(w, n) <= LowDigits(n)
  {
    hide LowDigits;
    if n > 0 {
      FewActive(w, n - 1);
      LowDigitsStep(n - 1);
    }
  }

  lemma {:induction false} SomeoneActive(w: Counts, n: nat, i: nat)
    requires i < n <= |w| && w[i] > 0
    ensures Active(w, n) >= 1
  {
    if i < n - 1 {
      SomeoneActive(w, n - 1, i);
    }
  }

  lemma PlausibleFits(row: Counts, isDC: bool)
    requires PlausibleRow(row, isDC)
    ensures Sum(row[256 := 1]) <= MAX_COUNT && 1 <= Active(row, 256) <= 254
    ensures isDC ==> forall i :: 16 <= i < 256 ==> row[i] == 0
  {
    hide Active;
    SumUpdate(row, 256, 1);
    FewActive(row, 256);
    var i :| 0 <= i < 256 && row[i] > 0;
    SomeoneActive(row, 256, i);
  }

  /** With the pseudo-symbol, these counts give some symbol a code of more than 32 bits. */
  ghost predicate LongCode(row: seq<int>) {
    |row| == 257 && (forall i :: 0 <= i < 257 ==> row[i] >= 0) && TooLong(CodeLengths(row[256 := 1]))
  }

  ghost predicate TooLong(l: Lengths) {
    exists i :: 0 <= i < |l| && l[i] > MAX_CLEN
  }

  /** `jpeg_gen_optimal_table` on the counts of one table; it takes at least Fib(35) symbols to make it fail. */
  method GenerateTable(counts: array2<int>, tbl: nat, isDC: bool, ghost rows: seq<seq<int>>)
    returns (ok: bool, def: TableDef)
    requires Counted(counts, rows) && tbl < 4 && PlausibleRow(rows[tbl], isDC)
    ensures ok <==> !LongCode(rows[tbl])
    ensures ok ==> Serves(def, rows[tbl], isDC)
    ensures !ok ==> Sum(rows[tbl]) + 1 >= Fib(35)
  {
    hide Sum, Active, Optimal, CodeLengths, Fib, PlausibleRow, Acceptable, Derives, Pow2;
    PlausibleCounts(rows[tbl], isDC);
    ghost var row: Counts := rows[tbl];
    PlausibleFits(row, isDC);
    var freq := new int[257](s requires 0 <= s < 257 reads counts requires counts.Length0 == 4 && counts.Length1 == 257
                               => counts[tbl, s]);
    assert freq[..] == row;
    var r;
    ghost var l;
    r, l := GenOptimalTable(freq);
    match r {
      case ClenOverflow =>
        SumUpdate(row, 256, 1);
        PseudoUncounted(row, isDC);
        return false, TableDef(seq(17, _ => 0), []);
      case Made(bits, v) =>
        GoodListed(bits, v, row[256 := 1], l);
        var huffval: seq<Byte> := seq(256, i requires 0 <= i < 256 => if i < |v| then v[i] % 256 else 0);
        assert huffval[..|v|] == v;
        GeneratedIsAcceptable(bits, v, row[256 := 1], l, huffval, isDC);
        def := TableDef(bits, huffval);
        forall t: Table | Derives(SizesOf(bits), huffval, t)
          ensures CodesExactly(t, row)
        {
          MadeCodesExactly(bits, v, row, l, huffval, t);
        }
        return true, def;
    }
  }

  lemma PlausibleCounts(row: seq<int>, isDC: bool)
    requires PlausibleRow(row, isDC)
    ensures |row| == 257 && forall i :: 0 <= i < 257 ==> row[i] >= 0
  {
  }

  lemma MadeCodesExactly(bits: Bits16, v: seq<nat>, row: Counts, l: Lengths, huffval: seq<Byte>, t: Table)
    requires |row| == 257 && GoodForCounts(bits, v, row[256 := 1], l) && |v| <= |huffval| == 256 && huffval[..|v|] == v
    requires |SizesOf(bits)| == |v| && Derives(SizesOf(bits), huffval, t)
    ensures CodesExactly(t, row)
  {
    hide GoodForCounts, Pow2, Left, Canonical, SizesOf;
    forall i: Byte | true
      ensures row[i] > 0 <==> t.si[i] > 0
    {
      CountedIsCoded(bits, v, row[256 := 1], l, huffval, t, i);
    }
  }

  lemma PseudoUncounted(row: Counts, isDC: bool)
    requires PlausibleRow(row, isDC)
    ensures row[256] == 0
  {
  }

  lemma GoodListed(bits: Bits16, v: seq<nat>, orig: Counts, l: Lengths)
    requires GoodForCounts(bits, v, orig, l)
    ensures |v| <= 256 && forall p :: 0 <= p < |v| ==> v[p] < 256
  {
    hide Sum, Space16;
    if |v| > 256 {
      FewerThanAll(v[..256], v[256]);
      assert false;
    }
  }

  /** Every symbol that a block uses is counted in the row of its table. */
  lemma {:induction false} ItemCounted(items: seq<Item>, j: nat)
    requires j < |items|
    ensures CountItems(items, items[j].sym) > 0
  {
    if j > 0 {
      ItemCounted(items[1..], j - 1);
    }
  }

  lemma {:induction false} McuUsesGrow(l: Assignment, last: seq<int>, mcu: Mcu, i: nat, n: nat, ac: bool, tbl: nat,
                                       sym: nat)
    requires GoodAssignment(l) && |last| == |l.dcTbl| && i < n <= |mcu| == |l.membership|
    ensures McuUses(l, last, mcu, n, ac, tbl, sym) >= BlockUses(l, last, mcu, i, ac, tbl, sym)
  {
    hide BlockUses;
    if i < n - 1 {
      McuUsesGrow(l, last, mcu, i, n - 1, ac, tbl, sym);
    }
  }

  lemma {:induction false} ScanUsesGrow(l: Assignment, interval: nat, scan: seq<Mcu>, m: nat, n: nat, ac: bool,
                                        tbl: nat, sym: nat)
    requires GoodScan(l, scan) && m < n <= |scan|
    ensures ScanUses(l, interval, scan, n, ac, tbl, sym)
            >= McuUses(l, DcBefore(l, interval, scan, m), scan[m], |l.membership|, ac, tbl, sym)
  {
    hide McuUses, DcBefore;
    if m < n - 1 {
      ScanUsesGrow(l, interval, scan, m, n - 1, ac, tbl, sym);
    }
  }

  lemma BlockCounted(l: Assignment, interval: nat, scan: seq<Mcu>, m: nat, i: nat, ac: bool, tbl: nat, sym: nat)
    requires GoodScan(l, scan) && m < |scan| && i < |l.membership| && sym < 257
    requires BlockUses(l, DcBefore(l, interval, scan, m), scan[m], i, ac, tbl, sym) > 0
    ensures UsesRow(l, interval, scan, |scan|, ac, tbl)[sym] > 0
  {
    hide BlockUses, DcBefore, ScanUses, McuUses;
    McuUsesGrow(l, DcBefore(l, interval, scan, m), scan[m], i, |l.membership|, ac, tbl, sym);
    ScanUsesGrow(l, interval, scan, m, |scan|, ac, tbl, sym);
  }

  lemma InRangeCodable(b: Block, diff: int)
    requires InRange(b, diff)
    ensures CodableAc(b)
  {
    hide Pow2;
    Pow2Values();
    Pow2Monotone(10, 15);
    forall j | 1 <= j < 64
      ensures -0x8000 < b[j] < 0x8000
    {
      NbitsBounds(Abs(b[j]));
      Pow2Monotone(Nbits(Abs(b[j])), 10);
    }
  }

  /** AC symbols of an in-range block, at most one for each coefficient. */
  lemma {:induction false} InRangeSymbols(b: Block, k: nat, r: nat)
    requires 1 <= k <= 64 && r < k && forall j :: 1 <= j < 64 ==> Nbits(Abs(b[j])) <= 10
    ensures forall j :: 0 <= j < |AcItems(b, k, r)| ==> LegalSymbol(AcItems(b, k, r)[j].sym)
    ensures |AcItems(b, k, r)| + k <= 64 + r
    decreases 64 - k, r
  {
    hide Nbits, LegalSymbol, RunItem;
    FixedSymbols();
    if k < 64 {
      if b[k] == 0 {
        InRangeSymbols(b, k + 1, r + 1);
      } else if r > 15 {
        InRangeSymbols(b, k, r - 16);
      } else {
        InRangeSymbols(b, k + 1, 0);
        RunSymbol(r, b[k]);
      }
    }
  }

  lemma FixedSymbols()
    ensures LegalSymbol(EOB.sym) && LegalSymbol(ZRL.sym)
  {
  }

  lemma RunSymbol(r: nat, v: int)
    requires r <= 15 && Nbits(Abs(v)) <= 10
    ensures LegalSymbol(RunItem(r, v).sym)
  {
    hide Nbits;
  }

  predicate LegalSymbol(sym: nat) {
    sym < 256 && sym % 16 <= 11
  }

  /** Each table codes the symbols counted for it, and each block is in range: so every symbol has a code. */
  lemma CountedBlocksAreCoded(l: Assignment, t: Tables, interval: nat, scan: seq<Mcu>, m: nat, i: nat)
    requires GoodScan(l, scan) && m < |scan| && i < |l.membership| && GoodTables(l, t)
    requires BlockInRange(l, DcBefore(l, interval, scan, m), scan[m], i)
    requires CodesExactly(t.dc[l.dcTbl[l.membership[i]]],
                          UsesRow(l, interval, scan, |scan|, false, l.dcTbl[l.membership[i]]))
    requires CodesExactly(t.ac[l.acTbl[l.membership[i]]],
                          UsesRow(l, interval, scan, |scan|, true, l.acTbl[l.membership[i]]))
    ensures BlockCoded(l, t, DcBefore(l, interval, scan, m), scan[m], i)
  {
    hide Pow2, GoodTable, DcBefore, UsesRow, AcItems, Nbits;
    var ci, last := l.membership[i], DcBefore(l, interval, scan, m);
    TablesOf(l, t, ci);
    TableShape(t.dc[l.dcTbl[ci]], true);
    TableShape(t.ac[l.acTbl[ci]], false);
    var b, diff := scan[m][i], BlockDiff(l, last, scan[m], i);
    InRangeCodable(b, diff);
    BlockCounted(l, interval, scan, m, i, false, l.dcTbl[ci], DcItem(diff).sym);
    InRangeSymbols(b, 1, 0);
    var items := AcItems(b, 1, 0);
    forall j | 0 <= j < |items|
      ensures Coded(t.ac[l.acTbl[ci]], items[j])
    {
      ItemCounted(items, j);
      BlockCounted(l, interval, scan, m, i, true, l.acTbl[ci], items[j].sym);
    }
  }

  lemma TableShape(t: Table, isDC: bool)
    requires GoodTable(t, isDC)
    ensures |t.co| == |t.si| == 256
  {
  }

  /** Pointwise sum. */
  lemma {:induction false} SumPointwise(a: seq<int>, b: seq<int>, c: seq<int>, n: nat)
    requires |a| == |b| == |c| && n <= |a| && forall i :: 0 <= i < |a| ==> c[i] == a[i] + b[i]
    ensures SumTo(c, n) == SumTo(a, n) + SumTo(b, n)
  {
    if n > 0 {
      SumPointwise(a, b, c, n - 1);
    }
  }

  lemma OneRowSum(sym: nat)
    ensures Sum(OneRow(sym)) <= 1
  {
    var zeros := seq(257, _ => 0);
    SumToZero(zeros, 257);
    if sym < 257 {
      SumUpdate(zeros, sym, 1);
      assert OneRow(sym) == zeros[sym := 1];
    } else {
      assert OneRow(sym) == zeros;
    }
  }

  lemma {:induction false} ItemRowSum(items: seq<Item>)
    ensures Sum(ItemRow(items)) <= |items|
  {
    hide OneRow;
    if items == [] {
      SumToZero(ItemRow(items), 257);
    } else {
      ItemRowSum(items[1..]);
      OneRowSum(items[0].sym);
      OneRowAt(items[0].sym);
      SumPointwise(OneRow(items[0].sym), ItemRow(items[1..]), ItemRow(items), 257);
    }
  }

  lemma OneRowAt(sym: nat)
    ensures forall s :: 0 <= s < 257 ==> OneRow(sym)[s] == if s == sym then 1 else 0
  {
  }

  function BlockRow(l: Assignment, last: seq<int>, mcu: Mcu, i: nat, ac: bool, tbl: nat): (r: seq<int>)
    requires GoodAssignment(l) && |last| == |l.dcTbl| && i < |mcu| == |l.membership|
    ensures |r| == 257
  {
    seq(257, s requires 0 <= s < 257 => BlockUses(l, last, mcu, i, ac, tbl, s))
  }

  lemma BlockRowSum(l: Assignment, last: seq<int>, mcu: Mcu, i: nat, ac: bool, tbl: nat)
    requires GoodAssignment(l) && |last| == |l.dcTbl| && i < |mcu| == |l.membership| && BlockInRange(l, last, mcu, i)
    ensures Sum(BlockRow(l, last, mcu, i, ac, tbl)) <= 64
    ensures forall s :: 0 <= s < 257 && (!LegalSymbol(s) || (!ac && s >= 16)) ==>
            BlockRow(l, last, mcu, i, ac, tbl)[s] == 0
  {
    hide AcItems, Nbits, Extra, Sum;
    var ci, row := l.membership[i], BlockRow(l, last, mcu, i, ac, tbl);
    InRangeSymbols(mcu[i], 1, 0);
    if ac && l.acTbl[ci] == tbl {
      ItemRowSum(AcItems(mcu[i], 1, 0));
      assert row == ItemRow(AcItems(mcu[i], 1, 0));
      forall s: nat | !LegalSymbol(s)
        ensures CountItems(AcItems(mcu[i], 1, 0), s) == 0
      {
        NotCounted(AcItems(mcu[i], 1, 0), s);
      }
    } else if !ac && l.dcTbl[ci] == tbl {
      OneRowSum(DcItem(BlockDiff(l, last, mcu, i)).sym);
      assert row == OneRow(DcItem(BlockDiff(l, last, mcu, i)).sym);
    } else {
      assert row == seq(257, _ => 0);
      ZeroSum();
    }
  }

  lemma ZeroSum()
    ensures Sum(seq(257, _ => 0)) == 0
  {
    SumToZero(seq(257, _ => 0), 257);
  }

  lemma {:induction false} NotCounted(items: seq<Item>, sym: nat)
    requires !LegalSymbol(sym) && forall j :: 0 <= j < |items| ==> LegalSymbol(items[j].sym)
    ensures CountItems(items, sym) == 0
  {
    if items != [] {
      NotCounted(items[1..], sym);
    }
  }

  function McuRow(l: Assignment, last: seq<int>, mcu: Mcu, i: nat, ac: bool, tbl: nat): (r: seq<int>)
    requires GoodAssignment(l) && |last| == |l.dcTbl| && i <= |mcu| == |l.membership|
    ensures |r| == 257
  {
    seq(257, s requires 0 <= s < 257 => McuUses(l, last, mcu, i, ac, tbl, s))
  }

  lemma {:induction false} McuRowSum(l: Assignment, last: seq<int>, mcu: Mcu, i: nat, ac: bool, tbl: nat)
    requires GoodAssignment(l) && |last| == |l.dcTbl| && i <= |mcu| == |l.membership| && McuInRange(l, last, mcu)
    ensures Sum(McuRow(l, last, mcu, i, ac, tbl)) <= 64 * i
    ensures forall s :: 0 <= s < 257 && (!LegalSymbol(s) || (!ac && s >= 16)) ==>
            McuRow(l, last, mcu, i, ac, tbl)[s] == 0
  {
    hide BlockUses, BlockInRange, SumTo;
    if i == 0 {
      assert McuRow(l, last, mcu, 0, ac, tbl) == seq(257, _ => 0);
      ZeroSum();
    } else {
      McuRowSum(l, last, mcu, i - 1, ac, tbl);
      BlockRowSum(l, last, mcu, i - 1, ac, tbl);
      SumPointwise(McuRow(l, last, mcu, i - 1, ac, tbl), BlockRow(l, last, mcu, i - 1, ac, tbl),
                   McuRow(l, last, mcu, i, ac, tbl), 257);
    }
  }

  ghost predicate ScanInRange(l: Assignment, interval: nat, scan: seq<Mcu>, n: nat)
    requires GoodScan(l, scan) && n <= |scan|
  {
    forall m :: 0 <= m < n ==> McuInRange(l, DcBefore(l, interval, scan, m), scan[m])
  }

  lemma {:induction false} UsesRowSum(l: Assignment, interval: nat, scan: seq<Mcu>, n: nat, ac: bool, tbl: nat)
    requires GoodScan(l, scan) && n <= |scan| && ScanInRange(l, interval, scan, n)
    ensures Sum(UsesRow(l, interval, scan, n, ac, tbl)) <= n * (64 * |l.membership|)
    ensures forall s :: 0 <= s < 257 && (!LegalSymbol(s) || (!ac && s >= 16)) ==>
            UsesRow(l, interval, scan, n, ac, tbl)[s] == 0
  {
    hide McuUses, McuInRange, SumTo, DcBefore;
    if n == 0 {
      assert UsesRow(l, interval, scan, 0, ac, tbl) == seq(257, _ => 0);
      ZeroSum();
    } else {
      var last := DcBefore(l, interval, scan, n - 1);
      UsesRowSum(l, interval, scan, n - 1, ac, tbl);
      McuRowSum(l, last, scan[n - 1], |l.membership|, ac, tbl);
      SumPointwise(UsesRow(l, interval, scan, n - 1, ac, tbl), McuRow(l, last, scan[n - 1], |l.membership|, ac, tbl),
                   UsesRow(l, interval, scan, n, ac, tbl), 257);
      Split(n - 1, 1, 64 * |l.membership|);
    }
  }

  /** Every block has a DC symbol and at least one AC symbol. */
  lemma {:induction false} SomeItem(b: Block, k: nat, r: nat)
    requires 1 <= k <= 64 && (k < 64 || r > 0)
    ensures AcItems(b, k, r) != []
    decreases 64 - k, r
  {
    if k < 64 && b[k] == 0 {
      SomeItem(b, k + 1, r + 1);
    }
  }

  /** The counts of a table that some block of the scan uses. */
  lemma RowIsPlausible(l: Assignment, interval: nat, scan: seq<Mcu>, ac: bool, tbl: nat, i: nat)
    requires GoodScan(l, scan) && |scan| > 0 && i < |l.membership| && ScanInRange(l, interval, scan, |scan|)
    requires tbl == if ac then l.acTbl[l.membership[i]] else l.dcTbl[l.membership[i]]
    requires |scan| * (64 * |l.membership|) < MAX_COUNT
    ensures PlausibleRow(UsesRow(l, interval, scan, |scan|, ac, tbl), !ac)
  {
    hide Sum, AcItems, DcBefore, ScanUses, McuUses, McuInRange, Nbits;
    UsesRowSum(l, interval, scan, |scan|, ac, tbl);
    if ac {
      SomeItem(scan[0][i], 1, 0);
      ItemCounted(AcItems(scan[0][i], 1, 0), 0);
      assert McuInRange(l, DcBefore(l, interval, scan, 0), scan[0]);
      FirstBlockInRange(l, DcBefore(l, interval, scan, 0), scan[0], i);
      InRangeSymbols(scan[0][i], 1, 0);
      BlockCounted(l, interval, scan, 0, i, true, tbl, AcItems(scan[0][i], 1, 0)[0].sym);
    } else {
      assert McuInRange(l, DcBefore(l, interval, scan, 0), scan[0]);
      FirstBlockInRange(l, DcBefore(l, interval, scan, 0), scan[0], i);
      BlockCounted(l, interval, scan, 0, i, false, tbl,
                   DcItem(BlockDiff(l, DcBefore(l, interval, scan, 0), scan[0], i)).sym);
    }
  }

  lemma FirstBlockInRange(l: Assignment, last: seq<int>, mcu: Mcu, i: nat)
    requires GoodAssignment(l) && |last| == |l.dcTbl| && i < |mcu| == |l.membership| && McuInRange(l, last, mcu)
    ensures InRange(mcu[i], BlockDiff(l, last, mcu, i))
  {
    assert BlockInRange(l, last, mcu, i);
  }

  /** Every component of the scan has a block in the MCU. */
  ghost predicate EveryComponentUsed(l: Assignment) {
    forall ci :: 0 <= ci < |l.dcTbl| ==> ci in l.membership
  }

  /** The table definitions after the statistics pass. */
  datatype TableDefs = TableDefs(dc: seq<TableDef>, ac: seq<TableDef>)

  const NO_TABLE := TableDef(seq(17, _ => 0), [])

  ghost predicate AllServe(l: Assignment, interval: nat, scan: seq<Mcu>, defs: TableDefs)
    requires GoodScan(l, scan)
  {
    && |defs.dc| == |defs.ac| == 4
    && forall ci :: 0 <= ci < |l.dcTbl| ==> ComponentServed(l, interval, scan, defs, ci)
  }

  ghost predicate ComponentServed(l: Assignment, interval: nat, scan: seq<Mcu>, defs: TableDefs, ci: nat)
    requires GoodScan(l, scan) && |defs.dc| == |defs.ac| == 4 && ci < |l.dcTbl|
  {
    && Serves(defs.dc[l.dcTbl[ci]], UsesRow(l, interval, scan, |scan|, false, l.dcTbl[ci]), true)
    && Serves(defs.ac[l.acTbl[ci]], UsesRow(l, interval, scan, |scan|, true, l.acTbl[ci]), false)
  }

  /** Tables already generated serve their counts, without codes that are too long. */
  ghost predicate Generated(defs: seq<TableDef>, did: seq<bool>, rows: seq<seq<int>>, isDC: bool) {
    && |defs| == |did| == |rows| == 4
    && forall t :: 0 <= t < 4 && did[t] ==> Serves(defs[t], rows[t], isDC) && !LongCode(rows[t])
  }

  /** Generates a table unless that has been done: its counts can be used only once. */
  method GenerateOnce(counts: array2<int>, tbl: nat, isDC: bool, did: array<bool>, defs: seq<TableDef>,
                      ghost rows: seq<seq<int>>)
    returns (ok: bool, defs': seq<TableDef>)
    requires Counted(counts, rows) && tbl < 4 && PlausibleRow(rows[tbl], isDC)
    requires did.Length == 4 && Generated(defs, did[..], rows, isDC)
    modifies did
    ensures ok ==> Generated(defs', did[..], rows, isDC) && did[tbl] && forall t :: 0 <= t < 4 && old(did[t]) ==> did[t]
    ensures ok <==> !LongCode(rows[tbl])
    ensures !ok ==> Sum(rows[tbl]) + 1 >= Fib(35)
  {
    hide Serves, PlausibleRow, Sum, Fib, LongCode;
    ok, defs' := true, defs;
    if !did[tbl] {
      var def;
      ok, def := GenerateTable(counts, tbl, isDC, rows);
      if ok {
        defs' := defs[tbl := def];
        did[tbl] := true;
      }
    }
  }

  /** Some table of the scan has counted symbols that get codes of more than 32 bits. */
  ghost predicate SomeLongCode(l: Assignment, interval: nat, scan: seq<Mcu>)
    requires GoodScan(l, scan)
  {
    exists ci :: 0 <= ci < |l.dcTbl| && LongCodeOf(l, interval, scan, ci)
  }

  ghost predicate LongCodeOf(l: Assignment, interval: nat, scan: seq<Mcu>, ci: nat)
    requires GoodScan(l, scan) && ci < |l.dcTbl|
  {
    || LongCode(UsesRow(l, interval, scan, |scan|, false, l.dcTbl[ci]))
    || LongCode(UsesRow(l, interval, scan, |scan|, true, l.acTbl[ci]))
  }

  /** `finish_pass_gather`. */
  method FinishPassGather(g: Gatherer) returns (ok: bool, defs: TableDefs)
    requires g.Valid() && g.done == |g.scan| > 0 && EveryComponentUsed(g.layout)
    requires GoodScan(g.layout, g.scan) && ScanInRange(g.layout, g.interval, g.scan, |g.scan|)
    requires |g.scan| * (64 * |g.layout.membership|) < MAX_COUNT
    ensures ok <==> !SomeLongCode(g.layout, g.interval, g.scan)
    ensures ok ==> AllServe(g.layout, g.interval, g.scan, defs)
    ensures !ok ==> exists ac, tbl :: Overflowing(g.layout, g.interval, g.scan, ac, tbl)
  {
    hide Serves, PlausibleRow, Sum, Fib, Counted, UsesRow, ScanInRange, LongCode;
    var didDc := new bool[4](_ => false);
    var didAc := new bool[4](_ => false);
    var dc, ac := [NO_TABLE, NO_TABLE, NO_TABLE, NO_TABLE], [NO_TABLE, NO_TABLE, NO_TABLE, NO_TABLE];
    ghost var dcRows := Rows(g.layout, g.interval, g.scan, |g.scan|, false);
    ghost var acRows := Rows(g.layout, g.interval, g.scan, |g.scan|, true);
    var ci := 0;
    while ci < |g.layout.dcTbl|
      invariant ci <= |g.layout.dcTbl|
      invariant Generated(dc, didDc[..], dcRows, true) && Generated(ac, didAc[..], acRows, false)
      invariant forall j :: 0 <= j < ci ==> didDc[g.layout.dcTbl[j]] && didAc[g.layout.acTbl[j]]
    {
      assert ci in g.layout.membership;
      ghost var i :| 0 <= i < |g.layout.membership| && g.layout.membership[i] == ci;
      RowIsPlausible(g.layout, g.interval, g.scan, false, g.layout.dcTbl[ci], i);
      RowIsPlausible(g.layout, g.interval, g.scan, true, g.layout.acTbl[ci], i);
      ok, dc := GenerateOnce(g.dcCounts, g.layout.dcTbl[ci], true, didDc, dc, dcRows);
      if !ok {
        assert LongCodeOf(g.layout, g.interval, g.scan, ci);
        assert Overflowing(g.layout, g.interval, g.scan, false, g.layout.dcTbl[ci]);
        return false, TableDefs([], []);
      }
      ok, ac := GenerateOnce(g.acCounts, g.layout.acTbl[ci], false, didAc, ac, acRows);
      if !ok {
        assert LongCodeOf(g.layout, g.interval, g.scan, ci);
        assert Overflowing(g.layout, g.interval, g.scan, true, g.layout.acTbl[ci]);
        return false, TableDefs([], []);
      }
      ci := ci + 1;
    }
    defs := TableDefs(dc, ac);
    forall j | 0 <= j < |g.layout.dcTbl|
      ensures ComponentServed(g.layout, g.interval, g.scan, defs, j) && !LongCodeOf(g.layout, g.interval, g.scan, j)
    {
      assert didDc[g.layout.dcTbl[j]] && didAc[g.layout.acTbl[j]];
    }
    return true, defs;
  }

  /** A table with so many symbols that its codes can exceed 32 bits. */
  ghost predicate Overflowing(l: Assignment, interval: nat, scan: seq<Mcu>, ac: bool, tbl: nat)
    requires GoodScan(l, scan)
  {
    Sum(UsesRow(l, interval, scan, |scan|, ac, tbl)) + 1 >= Fib(35)
  }

  /** Encoding and decoding tables from the definitions. */
  method DeriveTables(l: Assignment, defs: TableDefs, ghost interval: nat, ghost scan: seq<Mcu>)
    returns (t: Tables, d: Decodings)
    requires GoodScan(l, scan) && AllServe(l, interval, scan, defs)
    ensures GoodTables(l, t) && TablesPaired(l, t, d)
    ensures forall ci :: 0 <= ci < |l.dcTbl| ==> ComponentCoded(l, interval, scan, t, ci)
  {
    hide Serves, UsesRow, GoodTable, Paired, CodesExactly;
    var none, blank := Table.Table([], []), Decoding([], [], []);
    t := Tables([none, none, none, none], [none, none, none, none]);
    d := Decodings([blank, blank, blank, blank], [blank, blank, blank, blank]);
    ghost var dcOk: set<nat>, acOk: set<nat> := {}, {};
    var ci := 0;
    while ci < |l.dcTbl|
      invariant ci <= |l.dcTbl| && |t.dc| == |t.ac| == |d.dc| == |d.ac| == 4
      invariant forall j :: 0 <= j < ci ==> l.dcTbl[j] in dcOk && l.acTbl[j] in acOk
      invariant forall x :: x in dcOk ==>
                x < 4 && Matched(t.dc[x], d.dc[x], UsesRow(l, interval, scan, |scan|, false, x), true)
      invariant forall x :: x in acOk ==>
                x < 4 && Matched(t.ac[x], d.ac[x], UsesRow(l, interval, scan, |scan|, true, x), false)
    {
      assert ComponentServed(l, interval, scan, defs, ci);
      var x, y := l.dcTbl[ci], l.acTbl[ci];
      var e, f := DeriveOne(defs.dc[x], true, UsesRow(l, interval, scan, |scan|, false, x));
      t, d := t.(dc := t.dc[x := e]), d.(dc := d.dc[x := f]);
      e, f := DeriveOne(defs.ac[y], false, UsesRow(l, interval, scan, |scan|, true, y));
      t, d := t.(ac := t.ac[y := e]), d.(ac := d.ac[y := f]);
      dcOk, acOk := dcOk + {x}, acOk + {y};
      ci := ci + 1;
    }
  }

  /** An encoding table and its decoding table, with codes for exactly the symbols counted. */
  ghost predicate Matched(t: Table, d: Decoding, row: seq<int>, isDC: bool) {
    GoodTable(t, isDC) && Paired(t, d) && CodesExactly(t, row)
  }

  ghost predicate ComponentCoded(l: Assignment, interval: nat, scan: seq<Mcu>, t: Tables, ci: nat)
    requires GoodScan(l, scan) && |t.dc| == |t.ac| == 4 && ci < |l.dcTbl|
  {
    && CodesExactly(t.dc[l.dcTbl[ci]], UsesRow(l, interval, scan, |scan|, false, l.dcTbl[ci]))
    && CodesExactly(t.ac[l.acTbl[ci]], UsesRow(l, interval, scan, |scan|, true, l.acTbl[ci]))
  }

  /** A served definition passes both `jpeg_make_c_derived_tbl` and `jpeg_make_d_derived_tbl`. */
  method DeriveOne(def: TableDef, isDC: bool, ghost row: seq<int>) returns (t: Table, d: Decoding)
    requires Serves(def, row, isDC)
    ensures GoodTable(t, isDC) && Paired(t, d) && CodesExactly(t, row)
  {
    hide Pow2, Left, SizesOf, CodesExactly, Derives, Decodes, GoodTable;
    var ok;
    ok, t := MakeDerivedTable(def.bits, def.huffval, isDC);
    DerivedIsGood(def.bits, def.huffval, t, isDC);
    ok, d := MakeDecodingTable(def.bits, def.huffval, isDC);
    DecodesOwn(def.bits, def.huffval, d);
    assert PairedBy(def.bits, t, d);
  }

  lemma DecodesOwn(bits: Bits16, v: seq<Byte>, d: Decoding)
    requires Decodes(bits, v, d)
    ensures d.huffval == v
  {
  }

  /** Both passes over a scan, and the decoding tables a reader makes from the definitions written. The segments
      cover all MCUs in order, and reading each back gives its MCUs. The destination may suspend: `accepts` says how
      many stores it takes at each of the first attempts. It fails exactly if some coefficient is out of range or
      some table needs codes of more than 32 bits. */
  method OptimizedScan(w: nat, l: Assignment, interval: nat, scan: seq<Mcu>, accepts: seq<nat>)
    returns (ok: bool, out: seq<Byte>, d: Decodings, ghost segs: seq<Segment>)
    requires (w == 32 || w == 64) && GoodScan(l, scan) && |scan| > 0 && EveryComponentUsed(l)
    requires |scan| * (64 * |l.membership|) < MAX_COUNT
    ensures ok ==> segs != [] && Consecutive(segs, |scan|)
    ensures ok ==> out == Framed(segs, |segs| - 1) + Stuff(segs[|segs| - 1].raw)
    ensures ok ==> |d.dc| == |d.ac| == 4 && forall j :: 0 <= j < |segs| ==> ReadsBack(l, d, scan, segs[j])
    ensures ok <==> ScanInRange(l, interval, scan, |scan|) && !SomeLongCode(l, interval, scan)
    ensures !ok ==> !ScanInRange(l, interval, scan, |scan|) || exists ac, tbl :: Overflowing(l, interval, scan, ac, tbl)
  {
    hide Framed, Consecutive, Stuff, AllServe, GoodTables, TablesPaired, Overflowing, SomeLongCode, McuInRange,
         McuCoded, DcBefore, GoodSegment, HuffEncoder.Valid, Gatherer.Valid, EveryComponentUsed, ReadsBack;
    var g := new Gatherer(l, interval, scan);
    out, d, segs := [], Decodings([], []), [];
    var n := 0;
    while n < |scan|
      invariant n <= |scan| && g.Valid() && g.done == n && ScanInRange(l, interval, scan, n)
    {
      ok := g.EncodeMcu(scan[n]);
      if !ok {
        return;
      }
      n := n + 1;
    }
    var defs;
    ok, defs := FinishPassGather(g);
    if !ok {
      return;
    }
    var t;
    t, d := DeriveTables(l, defs, interval, scan);
    EverythingCoded(l, t, interval, scan);
    var e := new HuffEncoder(w, l, t, interval, scan);
    n := 0;
    var attempts := 0;
    while n < |scan|
      invariant n <= |scan| && e.Valid() && e.done == n
      decreases |scan| - n, |accepts| - attempts
    {
      var accept := if attempts < |accepts| then accepts[attempts] else |l.membership| + 3;
      var done := e.EncodeMcu(scan[n], accept);
      if done {
        n := n + 1;
      }
      attempts := attempts + 1;
    }
    segs := e.FinishPass();
    out := e.out;
    SegmentsReadBack(l, t, d, interval, scan, segs);
    return true, out, d, segs;
  }

  /** Decoding the bytes of a segment, as they stand before a marker or at the end of the data. */
  ghost predicate ReadsBack(l: Assignment, d: Decodings, scan: seq<Mcu>, s: Segment) {
    && GoodAssignment(l) && |d.dc| == |d.ac| == 4 && s.first <= s.end <= |scan| && NoMarkers(Stuff(s.raw))
    && var r := DecodeMcus(l, d, BytesBits(Unstuff(Stuff(s.raw))), s.end - s.first);
       r.Decoded? && r.value.got == scan[s.first..s.end]
  }

  lemma EverythingCoded(l: Assignment, t: Tables, interval: nat, scan: seq<Mcu>)
    requires GoodScan(l, scan) && GoodTables(l, t) && ScanInRange(l, interval, scan, |scan|)
    requires forall ci :: 0 <= ci < |l.dcTbl| ==> ComponentCoded(l, interval, scan, t, ci)
    ensures ScanCoded(l, t, interval, scan)
  {
    hide GoodTables, DcBefore, UsesRow, CodesExactly, BlockCoded, BlockInRange, GoodTable;
    FourTables(l, t);
    forall n | 0 <= n < |scan|
      ensures McuCoded(l, t, DcBefore(l, interval, scan, n), scan[n])
    {
      assert McuInRange(l, DcBefore(l, interval, scan, n), scan[n]);
      forall i | 0 <= i < |l.membership|
        ensures BlockCoded(l, t, DcBefore(l, interval, scan, n), scan[n], i)
      {
        assert ComponentCoded(l, interval, scan, t, l.membership[i]);
        CountedBlocksAreCoded(l, t, interval, scan, n, i);
      }
    }
  }

  lemma FourTables(l: Assignment, t: Tables)
    requires GoodTables(l, t)
    ensures |t.dc| == |t.ac| == 4
  {
  }

  lemma SegmentsReadBack(l: Assignment, t: Tables, d: Decodings, interval: nat, scan: seq<Mcu>, segs: seq<Segment>)
    requires TablesPaired(l, t, d) && ScanCoded(l, t, interval, scan) && AllGood(l, t, interval, scan, segs)
    ensures |d.dc| == |d.ac| == 4 && forall j :: 0 <= j < |segs| ==> ReadsBack(l, d, scan, segs[j])
  {
    hide ScanCoded, DecodeMcus, Unstuff, Stuff, SegmentBits, Padded, NoMarkers, TablesPaired;
    PairedLayout(l, t, d);
    forall j | 0 <= j < |segs|
      ensures ReadsBack(l, d, scan, segs[j])
    {
      SegmentDecodes(l, t, d, interval, scan, segs[j], []);
      assert Stuff(segs[j].raw) + [] == Stuff(segs[j].raw);
    }
  }
}
