/** The packed probability-estimation table of `jaricom.c` (ITU-T T.81 Table D.2). */
module AritTable {
  import opened Numbers

  /** A statistics byte: the sense of the more probable symbol (MPS) in bit 7, a table index below. */
  function IndexOf(sv: Byte): int { sv % 128 }

  function MpsOf(sv: Byte): bool { sv >= 128 }

  /** `(sv & 0x80) ^ next`. */
  function NextState(sv: Byte, next: Byte): Byte {
    (if (sv >= 128) != (next >= 128) then 128 else 0) + next % 128
  }

  predicate GoodEntry(e: int, size: int) {
    && 0 < e / 65536 < 0x8000
    && e % 256 % 128 < size
    && e / 256 % 256 % 128 < size
  }

  /** What the coder needs of its table; `JPEG_ARITAB` below is one such table. */
  ghost predicate GoodTable(t: seq<int>) {
    && 0 < |t| <= 128
    && forall i :: 0 <= i < |t| ==> GoodEntry(t[i], |t|)
  }

  type ProbTable = t: seq<int> | GoodTable(t) ghost witness [0x10000]

  predicate GoodState(tab: ProbTable, sv: Byte) {
    IndexOf(sv) < |tab|
  }

  function Qe(tab: ProbTable, sv: Byte): (q: int)
    requires GoodState(tab, sv)
    ensures 0 < q < 0x8000
  {
    assert GoodEntry(tab[IndexOf(sv)], |tab|);
    tab[IndexOf(sv)] / 65536
  }

  /** Estimate_after_LPS of T.81 section D.1.5. */
  function AfterLps(tab: ProbTable, sv: Byte): (r: Byte)
    requires GoodState(tab, sv)
    ensures GoodState(tab, r)
  {
    assert GoodEntry(tab[IndexOf(sv)], |tab|);
    NextState(sv, tab[IndexOf(sv)] % 256)
  }

  /** Estimate_after_MPS of T.81 section D.1.5. */
  function AfterMps(tab: ProbTable, sv: Byte): (r: Byte)
    requires GoodState(tab, sv)
    ensures GoodState(tab, r)
  {
    assert GoodEntry(tab[IndexOf(sv)], |tab|);
    NextState(sv, tab[IndexOf(sv)] / 256 % 256)
  }

  /** What the packing macro packs: Qe_Value, Next_Index_LPS, Next_Index_MPS, Switch_MPS. */
  datatype Entry = Entry(qe: nat, lps: nat, mps: nat, switchMps: nat)

  predicate Packable(e: Entry) {
    0 < e.qe < 0x8000 && e.lps < 114 && e.mps < 114 && e.switchMps < 2
  }

  type Estimate = e: Entry | Packable(e) witness Entry(1, 0, 0, 0)

  function V(r: Estimate): (e: int)
    ensures GoodEntry(e, 114)
  {
    Unpack(r.qe, r.lps, r.mps, r.switchMps, 0);
    r.qe * 65536 + r.mps * 256 + r.switchMps * 128 + r.lps
  }

  /** The shifts and masks of arith_encode recover the four components of a table row. */
  lemma Unpack(qe: nat, lps: nat, mps: nat, switchMps: nat, sv: Byte)
    requires lps < 128 && mps < 128 && switchMps < 2
    ensures var e := qe * 65536 + mps * 256 + switchMps * 128 + lps;
            && e / 65536 == qe
            && NextState(sv, e % 256) == (if MpsOf(sv) != (switchMps == 1) then 128 else 0) + lps
            && NextState(sv, e / 256 % 256) == (if MpsOf(sv) then 128 else 0) + mps
  {
    var e := qe * 65536 + mps * 256 + switchMps * 128 + lps;
    var low := switchMps * 128 + lps;
    Split(qe * 256 + mps, low);
    Split(qe, mps);
    assert e / 65536 == e / 256 / 256;
    assert low % 128 == lps;
  }

  lemma Split(hi: nat, lo: nat)
    requires lo < 256
    ensures (hi * 256 + lo) / 256 == hi && (hi * 256 + lo) % 256 == lo
  {
  }

  function Rows0(): (r: seq<Estimate>)
    ensures |r| == 19
  {
    [
      Entry(0x5a1d, 1, 1, 1), Entry(0x2586, 14, 2, 0), Entry(0x1114, 16, 3, 0), Entry(0x080b, 18, 4, 0),
      Entry(0x03d8, 20, 5, 0), Entry(0x01da, 23, 6, 0), Entry(0x00e5, 25, 7, 0), Entry(0x006f, 28, 8, 0),
      Entry(0x0036, 30, 9, 0), Entry(0x001a, 33, 10, 0), Entry(0x000d, 35, 11, 0), Entry(0x0006, 9, 12, 0),
      Entry(0x0003, 10, 13, 0), Entry(0x0001, 12, 13, 0), Entry(0x5a7f, 15, 15, 1), Entry(0x3f25, 36, 16, 0),
      Entry(0x2cf2, 38, 17, 0), Entry(0x207c, 39, 18, 0), Entry(0x17b9, 40, 19, 0)
    ]
  }

  function Rows1(): (r: seq<Estimate>)
    ensures |r| == 19
  {
    [
      Entry(0x1182, 42, 20, 0), Entry(0x0cef, 43, 21, 0), Entry(0x09a1, 45, 22, 0), Entry(0x072f, 46, 23, 0),
      Entry(0x055c, 48, 24, 0), Entry(0x0406, 49, 25, 0), Entry(0x0303, 51, 26, 0), Entry(0x0240, 52, 27, 0),
      Entry(0x01b1, 54, 28, 0), Entry(0x0144, 56, 29, 0), Entry(0x00f5, 57, 30, 0), Entry(0x00b7, 59, 31, 0),
      Entry(0x008a, 60, 32, 0), Entry(0x0068, 62, 33, 0), Entry(0x004e, 63, 34, 0), Entry(0x003b, 32, 35, 0),
      Entry(0x002c, 33, 9, 0), Entry(0x5ae1, 37, 37, 1), Entry(0x484c, 64, 38, 0)
    ]
  }

  function Rows2(): (r: seq<Estimate>)
    ensures |r| == 19
  {
    [
      Entry(0x3a0d, 65, 39, 0), Entry(0x2ef1, 67, 40, 0), Entry(0x261f, 68, 41, 0), Entry(0x1f33, 69, 42, 0),
      Entry(0x19a8, 70, 43, 0), Entry(0x1518, 72, 44, 0), Entry(0x1177, 73, 45, 0), Entry(0x0e74, 74, 46, 0),
      Entry(0x0bfb, 75, 47, 0), Entry(0x09f8, 77, 48, 0), Entry(0x0861, 78, 49, 0), Entry(0x0706, 79, 50, 0),
      Entry(0x05cd, 48, 51, 0), Entry(0x04de, 50, 52, 0), Entry(0x040f, 50, 53, 0), Entry(0x0363, 51, 54, 0),
      Entry(0x02d4, 52, 55, 0), Entry(0x025c, 53, 56, 0), Entry(0x01f8, 54, 57, 0)
    ]
  }

  function Rows3(): (r: seq<Estimate>)
    ensures |r| == 19
  {
    [
      Entry(0x01a4, 55, 58, 0), Entry(0x0160, 56, 59, 0), Entry(0x0125, 57, 60, 0), Entry(0x00f6, 58, 61, 0),
      Entry(0x00cb, 59, 62, 0), Entry(0x00ab, 61, 63, 0), Entry(0x008f, 61, 32, 0), Entry(0x5b12, 65, 65, 1),
      Entry(0x4d04, 80, 66, 0), Entry(0x412c, 81, 67, 0), Entry(0x37d8, 82, 68, 0), Entry(0x2fe8, 83, 69, 0),
      Entry(0x293c, 84, 70, 0), Entry(0x2379, 86, 71, 0), Entry(0x1edf, 87, 72, 0), Entry(0x1aa9, 87, 73, 0),
      Entry(0x174e, 72, 74, 0), Entry(0x1424, 72, 75, 0), Entry(0x119c, 74, 76, 0)
    ]
  }

  function Rows4(): (r: seq<Estimate>)
    ensures |r| == 19
  {
    [
      Entry(0x0f6b, 74, 77, 0), Entry(0x0d51, 75, 78, 0), Entry(0x0bb6, 77, 79, 0), Entry(0x0a40, 77, 48, 0),
      Entry(0x5832, 80, 81, 1), Entry(0x4d1c, 88, 82, 0), Entry(0x438e, 89, 83, 0), Entry(0x3bdd, 90, 84, 0),
      Entry(0x34ee, 91, 85, 0), Entry(0x2eae, 92, 86, 0), Entry(0x299a, 93, 87, 0), Entry(0x2516, 86, 71, 0),
      Entry(0x5570, 88, 89, 1), Entry(0x4ca9, 95, 90, 0), Entry(0x44d9, 96, 91, 0), Entry(0x3e22, 97, 92, 0),
      Entry(0x3824, 99, 93, 0), Entry(0x32b4, 99, 94, 0), Entry(0x2e17, 93, 86, 0)
    ]
  }

  function Rows5(): (r: seq<Estimate>)
    ensures |r| == 19
  {
    [
      Entry(0x56a8, 95, 96, 1), Entry(0x4f46, 101, 97, 0), Entry(0x47e5, 102, 98, 0), Entry(0x41cf, 103, 99, 0),
      Entry(0x3c3d, 104, 100, 0), Entry(0x375e, 99, 93, 0), Entry(0x5231, 105, 102, 0), Entry(0x4c0f, 106, 103, 0),
      Entry(0x4639, 107, 104, 0), Entry(0x415e, 103, 99, 0), Entry(0x5627, 105, 106, 1), Entry(0x50e7, 108, 107, 0),
      Entry(0x4b85, 109, 103, 0), Entry(0x5597, 110, 109, 0), Entry(0x504f, 111, 107, 0), Entry(0x5a10, 110, 111, 1),
      Entry(0x5522, 112, 109, 0), Entry(0x59eb, 112, 111, 1), Entry(0x5a1d, 113, 113, 0)
    ]
  }

  /** Table D.2 with the fixed 0.5 estimate at index 113. */
  function Estimates(): (r: seq<Estimate>)
    ensures |r| == 114
  {
    Rows0() + Rows1() + Rows2() + Rows3() + Rows4() + Rows5()
  }

  /** jpeg_aritab. */
  const JPEG_ARITAB: seq<int> := seq(114, i requires 0 <= i < 114 => V(Estimates()[i]))

  lemma JpegAritabIsGood()
    ensures |JPEG_ARITAB| == 114 && GoodTable(JPEG_ARITAB)
  {
    hide Estimates, V;
  }

  /** How estimate `i` moves: an MPS lowers it, except the least one and the fixed one; an LPS raises it or exchanges
      the symbols, which happens only to estimates of more than 2/3 of the least interval. The fixed one is entered from
      no other. */
  ghost predicate Moves(t: seq<Estimate>, i: nat)
    requires i < |t| == 114
  {
    var e := t[i];
    && (if i == 13 || i == 113 then e.mps == i else t[e.mps].qe < e.qe)
    && (if i == 113 then e.lps == i && e.switchMps == 0 else e.mps != 113 && e.lps != 113)
    && (i != 113 && e.switchMps == 0 ==> t[e.lps].qe > e.qe)
    && (e.switchMps == 1 ==> 3 * e.qe > 2 * 0x8000)
  }

  ghost predicate RowsAt(t: seq<Estimate>, at: nat, rows: seq<Estimate>) {
    at + |rows| <= |t| && forall i :: at <= i < at + |rows| ==> t[i] == rows[i - at]
  }

  /** The table in its six parts. */
  ghost predicate InParts(t: seq<Estimate>) {
    && |t| == 114
    && RowsAt(t, 0, Rows0()) && RowsAt(t, 19, Rows1()) && RowsAt(t, 38, Rows2()) && RowsAt(t, 57, Rows3())
    && RowsAt(t, 76, Rows4()) && RowsAt(t, 95, Rows5())
  }

  lemma TableParts()
    ensures InParts(Estimates())
  {
    hide Rows0, Rows1, Rows2, Rows3, Rows4, Rows5, RowsAt;
    SixParts(Rows0(), Rows1(), Rows2(), Rows3(), Rows4(), Rows5());
  }

  lemma SixParts(a: seq<Estimate>, b: seq<Estimate>, c: seq<Estimate>, d: seq<Estimate>, e: seq<Estimate>,
                 f: seq<Estimate>)
    requires |a| == |b| == |c| == |d| == |e| == |f| == 19
    ensures var t := a + b + c + d + e + f;
            && |t| == 114 && RowsAt(t, 0, a) && RowsAt(t, 19, b) && RowsAt(t, 38, c) && RowsAt(t, 57, d)
            && RowsAt(t, 76, e) && RowsAt(t, 95, f)
  {
  }

  lemma FirstRows(t: seq<Estimate>)
    requires InParts(t)
    ensures forall i :: 0 <= i < 10 ==> Moves(t, i)
  {
    hide Rows2, Rows3, Rows4, Rows5;
  }

  lemma Part0(t: seq<Estimate>)
    requires InParts(t)
    ensures forall i :: 10 <= i < 19 ==> Moves(t, i)
  {
    hide Rows3, Rows4, Rows5;
  }

  lemma Part1(t: seq<Estimate>)
    requires InParts(t)
    ensures forall i :: 19 <= i < 38 ==> Moves(t, i)
  {
    hide Rows4, Rows5;
  }

  lemma Part2(t: seq<Estimate>)
    requires InParts(t)
    ensures forall i :: 38 <= i < 57 ==> Moves(t, i)
  {
    hide Rows0, Rows1, Rows5;
  }

  lemma Part3(t: seq<Estimate>)
    requires InParts(t)
    ensures forall i :: 57 <= i < 76 ==> Moves(t, i)
  {
    hide Rows0, Rows5;
  }

  lemma Part4(t: seq<Estimate>)
    requires InParts(t)
    ensures forall i :: 76 <= i < 95 ==> Moves(t, i)
  {
    hide Rows0, Rows1;
  }

  lemma Part5(t: seq<Estimate>)
    requires InParts(t)
    ensures forall i :: 95 <= i < 114 ==> Moves(t, i)
  {
    hide Rows0, Rows1, Rows2, Rows3;
  }

  /** So it is with every estimate of Table D.2. */
  lemma EstimatesMove()
    ensures forall i :: 0 <= i < 114 ==> Moves(Estimates(), i)
  {
    hide Estimates, InParts, Moves;
    TableParts();
    FirstRows(Estimates());
    Part0(Estimates());
    Part1(Estimates());
    Part2(Estimates());
    Part3(Estimates());
    Part4(Estimates());
    Part5(Estimates());
  }

  /** The fixed estimate, and the one that a zeroed area starts with. */
  lemma StartingEstimates()
    ensures |JPEG_ARITAB| == 114 && GoodTable(JPEG_ARITAB)
    ensures Qe(JPEG_ARITAB, 113) == 0x5a1d && AfterLps(JPEG_ARITAB, 113) == AfterMps(JPEG_ARITAB, 113) == 113
    ensures Qe(JPEG_ARITAB, 0) == 0x5a1d && AfterLps(JPEG_ARITAB, 0) == 129 && AfterMps(JPEG_ARITAB, 0) == 1
    ensures Qe(JPEG_ARITAB, 1) == Qe(JPEG_ARITAB, 129) == 0x2586
  {
    hide Estimates, Rows1, Rows2, Rows3, Rows4, NextState;
    TableParts();
    JpegAritabIsGood();
    assert Estimates()[113] == Rows5()[18] == Entry(0x5a1d, 113, 113, 0);
    assert Estimates()[0] == Rows0()[0] == Entry(0x5a1d, 1, 1, 1);
    assert Estimates()[1] == Rows0()[1] == Entry(0x2586, 14, 2, 0);
    Unpack(0x5a1d, 113, 113, 0, 113);
    Unpack(0x5a1d, 1, 1, 1, 0);
    Unpack(0x2586, 14, 2, 0, 1);
  }
}
