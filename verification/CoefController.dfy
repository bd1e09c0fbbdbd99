/** The coefficient controller (`jccoefct.c`): which blocks make up each MCU, in single-pass and multi-pass mode. */
module CoefController {
  import opened Numbers
  import opened ArithModel

  const DCTSIZE := 8
  const MAX_BLOCKS := 10

  datatype Component = Component(h: nat, v: nat)

  datatype Frame = Frame(width: nat, height: nat, comps: seq<Component>)

  function MaxH(comps: seq<Component>): (m: nat)
    ensures m >= 1 && forall i :: 0 <= i < |comps| ==> comps[i].h <= m
  {
    if comps == [] then 1
    else
      var m := MaxH(comps[..|comps| - 1]);
      if comps[|comps| - 1].h > m then comps[|comps| - 1].h else m
  }

  function MaxV(comps: seq<Component>): (m: nat)
    ensures m >= 1 && forall i :: 0 <= i < |comps| ==> comps[i].v <= m
  {
    if comps == [] then 1
    else
      var m := MaxV(comps[..|comps| - 1]);
      if comps[|comps| - 1].v > m then comps[|comps| - 1].v else m
  }

  ghost predicate GoodFrame(f: Frame) {
    && f.width > 0 && f.height > 0 && f.comps != []
    && forall i :: 0 <= i < |f.comps| ==> 1 <= f.comps[i].h <= 4 && 1 <= f.comps[i].v <= 4
  }

  /** `jdiv_round_up` and `jround_up`. */
  function CeilDiv(a: nat, b: nat): (q: nat)
    requires b > 0
    ensures a > 0 ==> q > 0
  {
    QuotientNonneg(a + b - 1, b);
    if a > 0 then
      CeilPositive(a, b);
      (a + b - 1) / b
    else (a + b - 1) / b
  }

  lemma CeilPositive(a: nat, b: nat)
    requires b > 0 && a > 0
    ensures (a + b - 1) / b > 0
  {
  }

  function RoundUp(a: nat, b: nat): nat
    requires b > 0
  {
    a + b - 1 - (a + b - 1) % b
  }

  lemma CeilBounds(a: nat, b: nat)
    requires b > 0
    ensures (CeilDiv(a, b) - 1) * b < a <= CeilDiv(a, b) * b && RoundUp(a, b) == CeilDiv(a, b) * b
  {
  }

  lemma CeilUnique(a: nat, b: nat, q: nat)
    requires b > 0 && (q - 1) * b < a <= q * b
    ensures CeilDiv(a, b) == q
  {
    assert (q - 1) * b == q * b - b;
    DivUnique(a + b - 1, b, q, a + b - 1 - q * b);
  }

  lemma SwapFactors(b: int, m: int, h: int)
    ensures b * m * h == b * h * m
  {
  }

  /** ceil(ceil(w * h / m) / h) = ceil(w / m): padding a component to whole MCUs agrees with the MCU count. */
  lemma CeilOfCeil(w: nat, h: nat, m: nat)
    requires h > 0 && m > 0
    ensures CeilDiv(CeilDiv(w * h, m), h) == CeilDiv(w, m)
  {
    hide CeilDiv, RoundUp;
    MulNat(w, h);
    var b, n := CeilDiv(w, m), w * h;
    var a: int := CeilDiv(n, m);
    CeilBounds(w, m);
    CeilBounds(n, m);
    MulCompare(w, b * m, h);
    MulCompare((b - 1) * m, w, h);
    SwapFactors(b, m, h);
    SwapFactors(b - 1, m, h);
    MulCompare(a - 1, b * h, m);
    MulCompare(a, (b - 1) * h, m);
    CeilUnique(a, h, b);
  }

  /** `initial_setup`: the size of a component in blocks, and the number of iMCU rows. */
  function WidthInBlocks(f: Frame, ci: nat): (n: nat)
    requires GoodFrame(f) && ci < |f.comps|
    ensures n > 0
  {
    ProductPositive(f.width, f.comps[ci].h);
    CeilDiv(f.width * f.comps[ci].h, MaxH(f.comps) * DCTSIZE)
  }

  function HeightInBlocks(f: Frame, ci: nat): (n: nat)
    requires GoodFrame(f) && ci < |f.comps|
    ensures n > 0
  {
    ProductPositive(f.height, f.comps[ci].v);
    CeilDiv(f.height * f.comps[ci].v, MaxV(f.comps) * DCTSIZE)
  }

  lemma ProductPositive(a: nat, b: nat)
    requires a > 0 && b > 0
    ensures a * b > 0
  {
  }

  function ImcuRows(f: Frame): (n: nat)
    requires GoodFrame(f)
    ensures n > 0
  {
    CeilDiv(f.height, MaxV(f.comps) * DCTSIZE)
  }

  function ImcuCols(f: Frame): (n: nat)
    requires GoodFrame(f)
    ensures n > 0
  {
    CeilDiv(f.width, MaxH(f.comps) * DCTSIZE)
  }

  /** Some component has the greatest sampling factor. */
  lemma GreatestFactors(f: Frame)
    requires GoodFrame(f)
    ensures exists i :: 0 <= i < |f.comps| && f.comps[i].h == MaxH(f.comps)
    ensures exists i :: 0 <= i < |f.comps| && f.comps[i].v == MaxV(f.comps)
  {
    SomeMaxH(f.comps);
    SomeMaxV(f.comps);
  }

  lemma {:induction false} SomeMaxH(comps: seq<Component>)
    requires comps != [] && forall i :: 0 <= i < |comps| ==> comps[i].h >= 1
    ensures exists i :: 0 <= i < |comps| && comps[i].h == MaxH(comps)
  {
    var n := |comps| - 1;
    if n > 0 && comps[n].h <= MaxH(comps[..n]) {
      SomeMaxH(comps[..n]);
      var i :| 0 <= i < n && comps[..n][i].h == MaxH(comps[..n]);
      assert comps[i].h == MaxH(comps);
    } else {
      assert comps[n].h == MaxH(comps);
    }
  }

  lemma {:induction false} SomeMaxV(comps: seq<Component>)
    requires comps != [] && forall i :: 0 <= i < |comps| ==> comps[i].v >= 1
    ensures exists i :: 0 <= i < |comps| && comps[i].v == MaxV(comps)
  {
    var n := |comps| - 1;
    if n > 0 && comps[n].v <= MaxV(comps[..n]) {
      SomeMaxV(comps[..n]);
      var i :| 0 <= i < n && comps[..n][i].v == MaxV(comps[..n]);
      assert comps[i].v == MaxV(comps);
    } else {
      assert comps[n].v == MaxV(comps);
    }
  }

  /** Section A.1.1 and A.2.4: a component has ceil(X * H / Hmax) samples a line, and just enough blocks of eight for
      them; likewise down the image. */
  lemma BlocksCover(f: Frame, ci: nat)
    requires GoodFrame(f) && ci < |f.comps|
    ensures var x, b := CeilDiv(f.width * f.comps[ci].h, MaxH(f.comps)), WidthInBlocks(f, ci);
            8 * (b - 1) < x <= 8 * b
    ensures var y, b := CeilDiv(f.height * f.comps[ci].v, MaxV(f.comps)), HeightInBlocks(f, ci);
            8 * (b - 1) < y <= 8 * b
  {
    MulNat(f.width, f.comps[ci].h);
    MulNat(f.height, f.comps[ci].v);
    CeilInBlocks(f.width * f.comps[ci].h, MaxH(f.comps));
    CeilInBlocks(f.height * f.comps[ci].v, MaxV(f.comps));
  }

  lemma CeilInBlocks(n: nat, m: nat)
    requires m > 0
    ensures 8 * (CeilDiv(n, m * 8) - 1) < CeilDiv(n, m) <= 8 * CeilDiv(n, m * 8)
  {
    hide CeilDiv;
    var b: int, x: int := CeilDiv(n, m * 8), CeilDiv(n, m);
    CeilBounds(n, m * 8);
    CeilBounds(n, m);
    EightTimes(b - 1, m);
    EightTimes(b, m);
    MulCompare(8 * (b - 1), x, m);
    MulCompare(x - 1, 8 * b, m);
  }

  lemma EightTimes(b: int, m: int)
    ensures b * (m * 8) == 8 * b * m
  {
  }

  /** What is left over in the last row or column of MCUs; a full one if nothing is. */
  function LastPart(n: nat, s: nat): (r: nat)
    requires s > 0
    ensures 1 <= r <= s
  {
    if n % s == 0 then s else n % s
  }

  lemma LastPartIs(n: nat, s: nat)
    requires s > 0 && n > 0
    ensures n == (CeilDiv(n, s) - 1) * s + LastPart(n, s)
  {
    CeilBounds(n, s);
    var q := CeilDiv(n, s);
    assert (q - 1) * s == q * s - s;
    var r := n - (q - 1) * s;
    assert n == s * (q - 1) + r;
    if r == s {
      DivUnique(n, s, q, 0);
    } else {
      DivUnique(n, s, q - 1, r);
    }
  }

  /** The blocks of a component fill its MCUs exactly when padded to multiples of the sampling factors. */
  lemma ComponentGrid(f: Frame, ci: nat)
    requires GoodFrame(f) && ci < |f.comps|
    ensures var c := f.comps[ci];
            && WidthInBlocks(f, ci) == (ImcuCols(f) - 1) * c.h + LastPart(WidthInBlocks(f, ci), c.h)
            && HeightInBlocks(f, ci) == (ImcuRows(f) - 1) * c.v + LastPart(HeightInBlocks(f, ci), c.v)
            && RoundUp(WidthInBlocks(f, ci), c.h) == ImcuCols(f) * c.h
            && RoundUp(HeightInBlocks(f, ci), c.v) == ImcuRows(f) * c.v
  {
    var c := f.comps[ci];
    CeilOfCeil(f.width, c.h, MaxH(f.comps) * DCTSIZE);
    CeilOfCeil(f.height, c.v, MaxV(f.comps) * DCTSIZE);
    LastPartIs(WidthInBlocks(f, ci), c.h);
    LastPartIs(HeightInBlocks(f, ci), c.v);
    CeilBounds(WidthInBlocks(f, ci), c.h);
    CeilBounds(HeightInBlocks(f, ci), c.v);
  }

  /** The quantised blocks of the image, by component, block row and block column: what forward_DCT delivers. */
  type Image = seq<seq<seq<Block>>>

  ghost predicate GoodImage(f: Frame, img: Image) {
    && GoodFrame(f) && |img| == |f.comps|
    && (forall ci :: 0 <= ci < |img| ==> |img[ci]| == HeightInBlocks(f, ci))
    && forall ci, r :: 0 <= ci < |img| && 0 <= r < |img[ci]| ==> |img[ci][r]| == WidthInBlocks(f, ci)
  }

  /** A dummy block: no AC coefficients, and the given DC value. */
  function Dummy(dc: int): Block {
    seq(64, j => if j == 0 then dc else 0)
  }

  /** Block (r, c) of a component, padded right and below to whole MCUs. A dummy block repeats the DC value of the last
      block before it in its MCU. */
  function Padded(f: Frame, img: Image, ci: nat, r: nat, c: nat): Block
    requires GoodImage(f, img) && ci < |f.comps|
  {
    var h := f.comps[ci].h;
    if r < HeightInBlocks(f, ci) then
      if c < WidthInBlocks(f, ci) then img[ci][r][c] else Dummy(img[ci][r][WidthInBlocks(f, ci) - 1][0])
    else Dummy(Padded(f, img, ci, r - 1, LastOf(c, h))[0])
  }

  /** The last block column of the MCU that holds column `c`. */
  function LastOf(c: nat, h: nat): nat
    requires h > 0
  {
    c - c % h + h - 1
  }

  /** `h` blocks from column `c` on. */
  function RowOf(f: Frame, img: Image, ci: nat, r: nat, c: nat, h: nat): (s: seq<Block>)
    requires GoodImage(f, img) && ci < |f.comps|
    ensures |s| == h
  {
    seq<Block>(h, x requires 0 <= x < h => Padded(f, img, ci, r, c + x))
  }

  /** The first `y` rows of a component's blocks in the MCU at (r, c). */
  function RowsOf(f: Frame, img: Image, ci: nat, r: nat, c: nat, h: nat, y: nat): (s: seq<Block>)
    requires GoodImage(f, img) && ci < |f.comps|
    ensures |s| == h * y
  {
    if y == 0 then [] else RowsOf(f, img, ci, r, c, h, y - 1) + RowOf(f, img, ci, r + y - 1, c, h)
  }

  ghost predicate GoodScan(f: Frame, scan: seq<nat>) {
    && GoodFrame(f) && scan != [] && (forall k :: 0 <= k < |scan| ==> scan[k] < |f.comps|)
    && (|scan| > 1 ==> McuSize(f, scan, |scan|) <= MAX_BLOCKS)
  }

  function McuSize(f: Frame, scan: seq<nat>, k: nat): nat
    requires GoodFrame(f) && k <= |scan| && forall k :: 0 <= k < |scan| ==> scan[k] < |f.comps|
  {
    if k == 0 then 0 else McuSize(f, scan, k - 1) + f.comps[scan[k - 1]].h * f.comps[scan[k - 1]].v
  }

  /** `per_scan_setup`: the blocks of a component in one MCU, and the MCUs in a row. */
  function McuWidth(f: Frame, scan: seq<nat>, ci: nat): (w: nat)
    requires GoodFrame(f) && ci < |f.comps|
    ensures w > 0
  {
    if |scan| == 1 then 1 else f.comps[ci].h
  }

  function McuHeight(f: Frame, scan: seq<nat>, ci: nat): (h: nat)
    requires GoodFrame(f) && ci < |f.comps|
    ensures h > 0
  {
    if |scan| == 1 then 1 else f.comps[ci].v
  }

  function LastColWidth(f: Frame, scan: seq<nat>, ci: nat): nat
    requires GoodFrame(f) && ci < |f.comps|
  {
    if |scan| == 1 then 1 else LastPart(WidthInBlocks(f, ci), f.comps[ci].h)
  }

  function LastRowHeight(f: Frame, ci: nat): nat
    requires GoodFrame(f) && ci < |f.comps|
  {
    LastPart(HeightInBlocks(f, ci), f.comps[ci].v)
  }

  function McusPerRow(f: Frame, scan: seq<nat>): (n: nat)
    requires GoodScan(f, scan)
    ensures n > 0
  {
    if |scan| == 1 then WidthInBlocks(f, scan[0]) else ImcuCols(f)
  }

  /** MCU rows in iMCU row `i`, and the number of the first of them. */
  function RowsIn(f: Frame, scan: seq<nat>, i: nat): (n: nat)
    requires GoodScan(f, scan)
    ensures n > 0
  {
    if |scan| > 1 then 1
    else if i + 1 < ImcuRows(f) then f.comps[scan[0]].v
    else LastRowHeight(f, scan[0])
  }

  function FirstRow(f: Frame, scan: seq<nat>, i: nat): nat
    requires GoodScan(f, scan)
  {
    if |scan| > 1 then i else i * f.comps[scan[0]].v
  }

  /** The first `k` components' blocks of the MCU at MCU row `r` and column `c`. */
  function McuBlocks(f: Frame, img: Image, scan: seq<nat>, r: nat, c: nat, k: nat): seq<Block>
    requires GoodImage(f, img) && GoodScan(f, scan) && k <= |scan|
  {
    if k == 0 then []
    else
      var ci := scan[k - 1];
      var w, h := McuWidth(f, scan, ci), McuHeight(f, scan, ci);
      McuBlocks(f, img, scan, r, c, k - 1) + RowsOf(f, img, ci, r * h, c * w, w, h)
  }

  /** The `n`-th MCU in raster order. */
  function McuNumber(f: Frame, img: Image, scan: seq<nat>, n: nat): seq<Block>
    requires GoodImage(f, img) && GoodScan(f, scan)
  {
    QuotientNonneg(n, McusPerRow(f, scan));
    McuBlocks(f, img, scan, n / McusPerRow(f, scan), n % McusPerRow(f, scan), |scan|)
  }

  function Raster(f: Frame, img: Image, scan: seq<nat>, n: nat): (s: seq<seq<Block>>)
    requires GoodImage(f, img) && GoodScan(f, scan)
  {
    seq(n, k requires 0 <= k < n => McuNumber(f, img, scan, k))
  }

  /** Number of MCUs in front of MCU row `r`, column `c`. */
  function Before(f: Frame, scan: seq<nat>, r: nat, c: nat): nat
    requires GoodScan(f, scan)
  {
    r * McusPerRow(f, scan) + c
  }

  lemma NextColumn(f: Frame, img: Image, scan: seq<nat>, r: nat, c: nat)
    requires GoodImage(f, img) && GoodScan(f, scan) && c < McusPerRow(f, scan)
    ensures Raster(f, img, scan, Before(f, scan, r, c + 1))
            == Raster(f, img, scan, Before(f, scan, r, c)) + [McuBlocks(f, img, scan, r, c, |scan|)]
  {
    hide McuBlocks, McusPerRow, GoodImage, GoodScan;
    var n := Before(f, scan, r, c);
    DivUnique(n, McusPerRow(f, scan), r, c);
  }

  lemma NextRow(f: Frame, scan: seq<nat>, r: nat)
    requires GoodScan(f, scan)
    ensures Before(f, scan, r, McusPerRow(f, scan)) == Before(f, scan, r + 1, 0)
  {
  }

  /** The MCU rows of an iMCU row end where those of the next begin; the last ones end the scan. */
  lemma NextImcuRow(f: Frame, scan: seq<nat>, i: nat)
    requires GoodScan(f, scan) && i < ImcuRows(f)
    ensures i + 1 < ImcuRows(f) ==> FirstRow(f, scan, i) + RowsIn(f, scan, i) == FirstRow(f, scan, i + 1)
    ensures i + 1 == ImcuRows(f) ==> FirstRow(f, scan, i) + RowsIn(f, scan, i) == ScanRows(f, scan)
  {
    ComponentGrid(f, scan[0]);
  }

  /** MCU rows in the scan. */
  function ScanRows(f: Frame, scan: seq<nat>): nat
    requires GoodScan(f, scan)
  {
    if |scan| == 1 then HeightInBlocks(f, scan[0]) else ImcuRows(f)
  }

  /** The entropy encoder as the controller sees it: it takes an MCU or refuses it, in any pattern. */
  class Sink {
    var taken: seq<seq<Block>>
    var refusals: seq<bool>

    constructor (refusals: seq<bool>)
      ensures taken == [] && this.refusals == refusals
    {
      taken, this.refusals := [], refusals;
    }

    /** `encode_mcu`. */
    method EncodeMcu(mcu: seq<Block>) returns (ok: bool)
      modifies this
      ensures ok ==> taken == old(taken) + [mcu]
      ensures !ok ==> taken == old(taken) && |refusals| < |old(refusals)|
      ensures |refusals| <= |old(refusals)|
    {
      ok := true;
      if refusals != [] {
        ok := !refusals[0];
        refusals := refusals[1..];
      }
      if ok {
        taken := taken + [mcu];
      }
    }
  }

  /** Virtual arrays, one for each component, padded to whole MCUs. */
  ghost predicate Allocated(f: Frame, whole: seq<array2<Block>>)
    requires GoodFrame(f)
  {
    && |whole| == |f.comps|
    && (forall ci :: 0 <= ci < |whole| ==> ArraySize(f, whole[ci], ci))
    && (forall i, j :: 0 <= i < j < |whole| ==> whole[i] != whole[j])
  }

  ghost predicate ArraySize(f: Frame, a: array2<Block>, ci: nat)
    requires GoodFrame(f) && ci < |f.comps|
  {
    a.Length0 == RoundUp(HeightInBlocks(f, ci), f.comps[ci].v)
      && a.Length1 == RoundUp(WidthInBlocks(f, ci), f.comps[ci].h)
  }

  method Allocate(f: Frame) returns (whole: seq<array2<Block>>)
    requires GoodFrame(f)
    ensures Allocated(f, whole) && fresh(set a | a in whole)
  {
    whole := [];
    var ci := 0;
    while ci < |f.comps|
      invariant ci == |whole| <= |f.comps| && fresh(set a | a in whole)
      invariant forall i :: 0 <= i < ci ==> ArraySize(f, whole[i], i)
      invariant forall i, j :: 0 <= i < j < ci ==> whole[i] != whole[j]
    {
      RoundUpNat(HeightInBlocks(f, ci), f.comps[ci].v);
      var a := new Block[RoundUp(HeightInBlocks(f, ci), f.comps[ci].v), RoundUp(WidthInBlocks(f, ci), f.comps[ci].h)](
        (r, c) => seq(64, _ => 0));
      assert a !in whole;
      whole := whole + [a];
      ci := ci + 1;
    }
  }

  lemma RoundUpNat(a: nat, b: nat)
    requires b > 0
    ensures RoundUp(a, b) >= 0
  {
  }

  lemma NoneBefore(f: Frame, scan: seq<nat>)
    requires GoodScan(f, scan)
    ensures Before(f, scan, FirstRow(f, scan, 0) + 0, 0) == 0
  {
  }

  class Controller {
    const f: Frame
    const img: Image
    const mcuBuffer: array<Block>
    const wholeImage: seq<array2<Block>>
    var scan: seq<nat>
    var sink: Sink
    var imcuRowNum: nat
    var mcuCtr: nat
    var mcuVertOffset: nat
    var mcuRowsPerImcuRow: nat

    ghost predicate Shape()
      reads `scan
    {
      && GoodImage(f, img) && GoodScan(f, scan) && mcuBuffer.Length == MAX_BLOCKS
      && (wholeImage == [] || Allocated(f, wholeImage))
    }

    /** `jinit_c_coef_controller`: virtual arrays only if a full buffer is needed. */
    constructor (f: Frame, img: Image, scan: seq<nat>, sink: Sink, needFullBuffer: bool)
      requires GoodImage(f, img) && GoodScan(f, scan) && sink.taken == []
      ensures Valid() && fresh(mcuBuffer) && fresh(set a | a in wholeImage) && imcuRowNum == 0
      ensures this.f == f && this.img == img && this.scan == scan && this.sink == sink
      ensures wholeImage != [] <==> needFullBuffer
    {
      var whole: seq<array2<Block>> := [];
      if needFullBuffer {
        whole := Allocate(f);
      }
      this.f, this.img, this.scan, this.sink, wholeImage := f, img, scan, sink, whole;
      mcuBuffer := new Block[MAX_BLOCKS](_ => seq(64, _ => 0));
      imcuRowNum, mcuCtr, mcuVertOffset, mcuRowsPerImcuRow := 0, 0, 0, 1;
      new;
      StartImcuRow();
      NoneBefore(f, scan);
    }

    /** `start_pass_coef`, for another scan of the same image. */
    method StartPass(scan: seq<nat>, sink: Sink)
      requires Shape() && GoodScan(f, scan) && sink.taken == []
      modifies this
      ensures Valid() && imcuRowNum == 0 && this.scan == scan && this.sink == sink
    {
      this.scan, this.sink, imcuRowNum := scan, sink, 0;
      StartImcuRow();
      NoneBefore(f, scan);
    }

    /** Between two calls: the counters say which MCUs have been taken, each once and in raster order. */
    ghost predicate Valid()
      reads this, sink
    {
      && Shape() && imcuRowNum <= ImcuRows(f)
      && (imcuRowNum < ImcuRows(f) ==>
            && mcuRowsPerImcuRow == RowsIn(f, scan, imcuRowNum) && mcuVertOffset < mcuRowsPerImcuRow
            && mcuCtr < McusPerRow(f, scan)
            && sink.taken == Raster(f, img, scan,
                                    Before(f, scan, FirstRow(f, scan, imcuRowNum) + mcuVertOffset, mcuCtr)))
      && (imcuRowNum == ImcuRows(f) ==> sink.taken == Raster(f, img, scan, Before(f, scan, ScanRows(f, scan), 0)))
    }

    /** `start_iMCU_row`. */
    method StartImcuRow()
      requires Shape()
      modifies `mcuRowsPerImcuRow, `mcuCtr, `mcuVertOffset
      ensures mcuCtr == mcuVertOffset == 0
      ensures mcuRowsPerImcuRow == RowsIn(f, scan, imcuRowNum)
    {
      if |scan| > 1 {
        mcuRowsPerImcuRow := 1;
      } else {
        if imcuRowNum < ImcuRows(f) - 1 {
          mcuRowsPerImcuRow := f.comps[scan[0]].v;
        } else {
          mcuRowsPerImcuRow := LastRowHeight(f, scan[0]);
        }
      }
      mcuCtr, mcuVertOffset := 0, 0;
    }

    /** `forward_DCT`: `cnt` blocks of block row `r` from column `c` on, into the MCU buffer. */
    method ForwardDct(ci: nat, at: nat, r: nat, c: nat, cnt: nat)
      requires Shape() && ci < |f.comps| && r < HeightInBlocks(f, ci) && c + cnt <= WidthInBlocks(f, ci)
      requires at + cnt <= MAX_BLOCKS
      modifies mcuBuffer
      ensures forall j :: 0 <= j < MAX_BLOCKS ==>
                mcuBuffer[j] == if at <= j < at + cnt then img[ci][r][c + j - at] else old(mcuBuffer[j])
    {
      var i := 0;
      while i < cnt
        invariant i <= cnt
        invariant forall j :: 0 <= j < MAX_BLOCKS ==>
                    mcuBuffer[j] == if at <= j < at + i then img[ci][r][c + j - at] else old(mcuBuffer[j])
      {
        mcuBuffer[at + i] := img[ci][r][c + i];
        i := i + 1;
      }
    }

    /** "Create a row of dummy blocks at the bottom": all with the DC value of the block before the row. */
    method BottomDummies(at: nat, cnt: nat)
      requires mcuBuffer.Length == MAX_BLOCKS && 0 < at && at + cnt <= MAX_BLOCKS
      modifies mcuBuffer
      ensures forall j :: 0 <= j < MAX_BLOCKS ==>
                mcuBuffer[j] == if at <= j < at + cnt then Dummy(old(mcuBuffer[at - 1])[0]) else old(mcuBuffer[j])
    {
      var bi := 0;
      while bi < cnt
        invariant bi <= cnt
        invariant forall j :: 0 <= j < MAX_BLOCKS ==>
                    mcuBuffer[j] == if at <= j < at + bi then Dummy(old(mcuBuffer[at - 1])[0]) else old(mcuBuffer[j])
      {
        mcuBuffer[at + bi] := Dummy(mcuBuffer[at - 1][0]);
        bi := bi + 1;
      }
    }

    /** "Create some dummy blocks at the right edge": each with the DC value of the block before it. */
    method RightDummies(at: nat, cnt: nat)
      requires mcuBuffer.Length == MAX_BLOCKS && 0 < at && at + cnt <= MAX_BLOCKS
      modifies mcuBuffer
      ensures forall j :: 0 <= j < MAX_BLOCKS ==>
                mcuBuffer[j] == if at <= j < at + cnt then Dummy(old(mcuBuffer[at - 1])[0]) else old(mcuBuffer[j])
    {
      var bi := 0;
      while bi < cnt
        invariant bi <= cnt
        invariant forall j :: 0 <= j < MAX_BLOCKS ==>
                    mcuBuffer[j] == if at <= j < at + bi then Dummy(old(mcuBuffer[at - 1])[0]) else old(mcuBuffer[j])
      {
        mcuBuffer[at + bi] := Dummy(mcuBuffer[at + bi - 1][0]);
        bi := bi + 1;
      }
    }

    /** One row of a component's blocks in the MCU at column `col`: block row `r`, from buffer position `at` on. */
    method BlockRow(ci: nat, at: nat, r: nat, col: nat, c0: nat, present: bool)
      requires Shape() && ci in scan && ci < |f.comps| && col < McusPerRow(f, scan) && c0 == col * McuWidth(f, scan, ci)
      requires at + McuWidth(f, scan, ci) <= MAX_BLOCKS
      requires present <==> r < HeightInBlocks(f, ci)
      requires !present ==> at > 0 && r > 0 && |scan| > 1
      requires !present ==> mcuBuffer[at - 1] == Padded(f, img, ci, r - 1, c0 + McuWidth(f, scan, ci) - 1)
      modifies mcuBuffer
      ensures mcuBuffer[..at] == old(mcuBuffer[..at])
      ensures mcuBuffer[at..at + McuWidth(f, scan, ci)] == RowOf(f, img, ci, r, c0, McuWidth(f, scan, ci))
    {
      hide Padded, RowOf, LastColWidth, GoodScan, WidthInBlocks, HeightInBlocks, McusPerRow, Dummy, Allocated;
      var w := McuWidth(f, scan, ci);
      var blockcnt := if col < McusPerRow(f, scan) - 1 then w else LastColWidth(f, scan, ci);
      ColumnSpan(f, scan, ci, col, blockcnt);
      if present {
        ImageRow(f, img, ci, r);
        ForwardDct(ci, at, r, c0, blockcnt);
        if blockcnt < w {
          RightDummies(at + blockcnt, w - blockcnt);
        }
        PresentRow(f, img, ci, r, c0, w, blockcnt, mcuBuffer[at..at + w]);
      } else {
        ghost var prev := mcuBuffer[at - 1];
        BottomDummies(at, w);
        AbsentRow(f, img, ci, r, col, c0, w, prev, mcuBuffer[at..at + w]);
      }
    }

    /** All rows of the blocks of scan component `k`, for the MCU at row offset `yoffset` and column `col`: `n` blocks
        from block row `r0` and block column `c0` on. */
    method ComponentBlocks(k: nat, at: nat, yoffset: nat, col: nat, r0: nat, c0: nat, ghost n: nat)
      requires Shape() && k < |scan| && imcuRowNum < ImcuRows(f) && yoffset < RowsIn(f, scan, imcuRowNum)
      requires col < McusPerRow(f, scan) && at + n <= MAX_BLOCKS
      requires n == McuWidth(f, scan, scan[k]) * McuHeight(f, scan, scan[k]) && c0 == col * McuWidth(f, scan, scan[k])
      requires r0 == (FirstRow(f, scan, imcuRowNum) + yoffset) * McuHeight(f, scan, scan[k])
      modifies mcuBuffer
      ensures mcuBuffer[..at] == old(mcuBuffer[..at])
      ensures mcuBuffer[at..at + n]
              == RowsOf(f, img, scan[k], r0, c0, McuWidth(f, scan, scan[k]), McuHeight(f, scan, scan[k]))
    {
      hide Padded, RowOf, LastColWidth, WidthInBlocks, HeightInBlocks, McusPerRow, RowsIn, FirstRow, ImcuRows,
           McuWidth, McuHeight, McuSize, Allocated, LastRowHeight;
      var ci := scan[k];
      var w, h := McuWidth(f, scan, ci), McuHeight(f, scan, ci);
      var blkn := at;
      var yindex := 0;
      ghost var before := mcuBuffer[..at];
      while yindex < h
        invariant yindex <= h && blkn == at + w * yindex && mcuBuffer[..at] == before
        invariant mcuBuffer[at..blkn] == RowsOf(f, img, ci, r0, c0, w, yindex)
      {
        RoomForRow(w, yindex, h);
        NextBlockRow(k, at, blkn, yoffset, col, r0, c0, yindex, w);
        blkn := blkn + w;
        yindex := yindex + 1;
      }
    }

    /** Block row `y` of a component's blocks in the MCU. */
    method NextBlockRow(k: nat, ghost at: nat, blkn: nat, yoffset: nat, col: nat, r0: nat, c0: nat, y: nat, w: nat)
      requires Shape() && k < |scan| && imcuRowNum < ImcuRows(f) && yoffset < RowsIn(f, scan, imcuRowNum)
      requires col < McusPerRow(f, scan) && y < McuHeight(f, scan, scan[k])
      requires w == McuWidth(f, scan, scan[k]) && c0 == col * w
      requires r0 == (FirstRow(f, scan, imcuRowNum) + yoffset) * McuHeight(f, scan, scan[k])
      requires at <= blkn && blkn == at + w * y && blkn + w <= MAX_BLOCKS
      requires mcuBuffer[at..blkn] == RowsOf(f, img, scan[k], r0, c0, w, y)
      modifies mcuBuffer
      ensures mcuBuffer[..at] == old(mcuBuffer[..at])
      ensures mcuBuffer[at..blkn + w] == RowsOf(f, img, scan[k], r0, c0, w, y + 1)
    {
      hide Padded, RowOf, LastColWidth, WidthInBlocks, HeightInBlocks, McusPerRow, RowsIn, FirstRow, ImcuRows,
           McuSize, Allocated, LastRowHeight, McuWidth, McuHeight, RowsOf;
      ghost var before, rows := mcuBuffer[..at], mcuBuffer[at..blkn];
      var ci := scan[k];
      RowPresence(f, scan, imcuRowNum, ci, yoffset, y, r0 + y);
      if y > 0 {
        LastOfRows(f, img, ci, r0, c0, w, y);
      }
      BlockRow(ci, blkn, r0 + y, col, c0, imcuRowNum < ImcuRows(f) - 1 || yoffset + y < LastRowHeight(f, ci));
      SliceJoin(mcuBuffer[..], at, blkn, blkn + w, before, rows);
      RowsStep(f, img, ci, r0, c0, w, y);
    }

    /** The MCU at row offset `yoffset` and column `col`, built from the input. */
    method BuildMcu(yoffset: nat, col: nat) returns (mcu: seq<Block>)
      requires Shape() && imcuRowNum < ImcuRows(f) && yoffset < RowsIn(f, scan, imcuRowNum) && col < McusPerRow(f, scan)
      modifies mcuBuffer
      ensures mcu == McuBlocks(f, img, scan, FirstRow(f, scan, imcuRowNum) + yoffset, col, |scan|)
    {
      hide Padded, RowsOf, McuWidth, McuHeight, McusPerRow, RowsIn, FirstRow, ImcuRows, GoodImage, McuBlocks,
           Allocated, McuSize;
      var blkn: nat := 0;
      var k := 0;
      ghost var r := FirstRow(f, scan, imcuRowNum) + yoffset;
      NoComponents(f, img, scan, r, col);
      while k < |scan|
        invariant Shape() && k <= |scan| && blkn <= MAX_BLOCKS
        invariant mcuBuffer[..blkn] == McuBlocks(f, img, scan, r, col, k)
      {
        McuRoom(f, img, scan, r, col, k);
        ghost var before := mcuBuffer[..blkn];
        var n := McuWidth(f, scan, scan[k]) * McuHeight(f, scan, scan[k]);
        var r0 := (FirstRow(f, scan, imcuRowNum) + yoffset) * McuHeight(f, scan, scan[k]);
        var c0 := col * McuWidth(f, scan, scan[k]);
        MulNat(FirstRow(f, scan, imcuRowNum) + yoffset, McuHeight(f, scan, scan[k]));
        MulNat(col, McuWidth(f, scan, scan[k]));
        ComponentBlocks(k, blkn, yoffset, col, r0, c0, n);
        NextComponent(f, img, scan, r, col, k, before, mcuBuffer[..], n);
        blkn := blkn + n;
        k := k + 1;
      }
      mcu := mcuBuffer[..blkn];
    }

    /** `compress_data`: one iMCU row in the single-pass case; false if the encoder refused an MCU. */
    method CompressData() returns (done: bool)
      requires Valid() && imcuRowNum < ImcuRows(f)
      modifies this, sink, mcuBuffer
      ensures Valid() && imcuRowNum == old(imcuRowNum) + (if done then 1 else 0)
      ensures !done ==> |sink.refusals| < |old(sink.refusals)|
      ensures |sink.refusals| <= |old(sink.refusals)| && scan == old(scan) && sink == old(sink)
    {
      hide Padded, McuBlocks, RowsIn, FirstRow, ImcuRows, GoodImage, GoodScan, Raster, Before, McusPerRow, Allocated;
      ghost var i := imcuRowNum;
      var yoffset := mcuVertOffset;
      while yoffset < mcuRowsPerImcuRow
        invariant Shape() && yoffset <= mcuRowsPerImcuRow == RowsIn(f, scan, i) && imcuRowNum == i
        invariant yoffset == mcuRowsPerImcuRow ==> mcuCtr == 0
        invariant scan == old(scan) && sink == old(sink) && |sink.refusals| <= |old(sink.refusals)|
        invariant mcuCtr < McusPerRow(f, scan)
        invariant sink.taken == Raster(f, img, scan, Before(f, scan, FirstRow(f, scan, i) + yoffset, mcuCtr))
      {
        var col := mcuCtr;
        while col < McusPerRow(f, scan)
          invariant Shape() && col <= McusPerRow(f, scan) && imcuRowNum == i && mcuRowsPerImcuRow == RowsIn(f, scan, i)
          invariant scan == old(scan) && sink == old(sink) && |sink.refusals| <= |old(sink.refusals)|
          invariant sink.taken == Raster(f, img, scan, Before(f, scan, FirstRow(f, scan, i) + yoffset, col))
        {
          var mcu := BuildMcu(yoffset, col);
          NextColumn(f, img, scan, FirstRow(f, scan, i) + yoffset, col);
          var ok := sink.EncodeMcu(mcu);
          if !ok {
            mcuVertOffset, mcuCtr := yoffset, col;
            return false;
          }
          col := col + 1;
        }
        NextRow(f, scan, FirstRow(f, scan, i) + yoffset);
        mcuCtr := 0;
        yoffset := yoffset + 1;
      }
      NextImcuRow(f, scan, i);
      imcuRowNum := imcuRowNum + 1;
      StartImcuRow();
      return true;
    }

    /** The virtual arrays hold the padded image, down to iMCU row `n`. */
    ghost predicate Stored(n: nat)
      reads wholeImage
    {
      && GoodImage(f, img) && Allocated(f, wholeImage)
      && forall ci :: 0 <= ci < |wholeImage| ==> StoredComponent(wholeImage[ci], f, img, ci, n)
    }

    /** "Align the virtual buffer for this component", DCT its blocks, and add the dummy blocks. */
    method FillComponent(ci: nat)
      requires Shape() && Allocated(f, wholeImage) && ci < |f.comps| && imcuRowNum < ImcuRows(f)
      requires StoredComponent(wholeImage[ci], f, img, ci, imcuRowNum)
      modifies wholeImage[ci]
      ensures StoredComponent(wholeImage[ci], f, img, ci, imcuRowNum + 1)
    {
      hide Padded, WidthInBlocks, HeightInBlocks, ImcuRows, StoredRow, GoodScan, GoodFrame, RoundUp;
      ComponentRows(f, ci, imcuRowNum);
      var buffer := wholeImage[ci];
      var v := f.comps[ci].v;
      var first := imcuRowNum * v;
      var blockRows := if imcuRowNum < ImcuRows(f) - 1 then v else LastPart(HeightInBlocks(f, ci), v);
      var r := 0;
      while r < blockRows
        invariant r <= blockRows
        invariant forall y :: 0 <= y < first + r ==> StoredRow(buffer, f, img, ci, y)
      {
        StoreRealRow(buffer, ci, first + r);
        r := r + 1;
      }
      if imcuRowNum == ImcuRows(f) - 1 {
        while r < v
          invariant blockRows <= r <= v
          invariant forall y :: 0 <= y < first + r ==> StoredRow(buffer, f, img, ci, y)
        {
          StoreDummyRow(buffer, ci, first + r);
          r := r + 1;
        }
      }
    }

    /** A row of DCT blocks, completed by dummy blocks with the last DC value. */
    method StoreRealRow(a: array2<Block>, ci: nat, r: nat)
      requires GoodImage(f, img) && ci < |f.comps| && ArraySize(f, a, ci) && r < HeightInBlocks(f, ci) && r < a.Length0
      modifies a
      ensures StoredRow(a, f, img, ci, r)
      ensures forall y :: 0 <= y < a.Length0 && y != r && old(StoredRow(a, f, img, ci, y)) ==>
              StoredRow(a, f, img, ci, y)
    {
      hide WidthInBlocks, HeightInBlocks, GoodFrame, RoundUp;
      ImageRow(f, img, ci, r);
      DummyCount(f, ci);
      var blocksAcross := WidthInBlocks(f, ci);
      var ndummy := blocksAcross % f.comps[ci].h;
      if ndummy > 0 {
        ndummy := f.comps[ci].h - ndummy;
      }
      var c := 0;
      while c < blocksAcross
        invariant c <= blocksAcross
        invariant forall x :: 0 <= x < c ==> a[r, x] == Padded(f, img, ci, r, x)
        invariant forall y, x :: 0 <= y < a.Length0 && y != r && 0 <= x < a.Length1 ==> a[y, x] == old(a[y, x])
      {
        a[r, c] := img[ci][r][c];
        c := c + 1;
      }
      if ndummy > 0 {
        var lastDc := a[r, blocksAcross - 1][0];
        var bi := 0;
        while bi < ndummy
          invariant bi <= ndummy
          invariant forall x :: 0 <= x < blocksAcross + bi ==> a[r, x] == Padded(f, img, ci, r, x)
          invariant forall y, x :: 0 <= y < a.Length0 && y != r && 0 <= x < a.Length1 ==> a[y, x] == old(a[y, x])
        {
          a[r, blocksAcross + bi] := Dummy(lastDc);
          bi := bi + 1;
        }
      }
    }

    /** A row of dummy blocks: within each MCU, the DC value of the last block above. */
    method StoreDummyRow(a: array2<Block>, ci: nat, r: nat)
      requires GoodImage(f, img) && ci < |f.comps| && ArraySize(f, a, ci) && HeightInBlocks(f, ci) <= r < a.Length0
      requires r > 0 && StoredRow(a, f, img, ci, r - 1)
      modifies a
      ensures StoredRow(a, f, img, ci, r)
      ensures forall y :: 0 <= y < a.Length0 && y != r && old(StoredRow(a, f, img, ci, y)) ==>
              StoredRow(a, f, img, ci, y)
    {
      hide WidthInBlocks, HeightInBlocks, GoodFrame, RoundUp, Padded, Dummy, LastOf;
      var h := f.comps[ci].h;
      var mcusAcross := CountMcus(ci);
      var at: nat := 0;
      var mcuIndex: nat := 0;
      while mcuIndex < mcusAcross
        invariant mcuIndex <= mcusAcross && at == mcuIndex * h && StoredRow(a, f, img, ci, r - 1)
        invariant forall x :: 0 <= x < at ==> a[r, x] == Padded(f, img, ci, r, x)
        invariant forall y, x :: 0 <= y < a.Length0 && y != r && 0 <= x < a.Length1 ==> a[y, x] == old(a[y, x])
      {
        McuInside(mcuIndex, mcusAcross, h, at);
        StoreDummyMcu(a, ci, r, mcuIndex, at);
        at := at + h;
        mcuIndex := mcuIndex + 1;
      }
    }

    /** "MCUs_across": the padded width in MCUs. */
    method CountMcus(ci: nat) returns (n: nat)
      requires GoodFrame(f) && ci < |f.comps|
      ensures n * f.comps[ci].h == RoundUp(WidthInBlocks(f, ci), f.comps[ci].h)
    {
      hide WidthInBlocks, HeightInBlocks, RoundUp;
      DummyCount(f, ci);
      var h := f.comps[ci].h;
      var blocksAcross := WidthInBlocks(f, ci);
      var ndummy := blocksAcross % h;
      if ndummy > 0 {
        ndummy := h - ndummy;
      }
      blocksAcross := blocksAcross + ndummy;
      WholeMcus(blocksAcross, h);
      n := blocksAcross / h;
    }

    method StoreDummyMcu(a: array2<Block>, ci: nat, r: nat, ghost mcuIndex: nat, at: nat)
      requires GoodImage(f, img) && ci < |f.comps| && HeightInBlocks(f, ci) <= r < a.Length0
      requires r > 0 && StoredRow(a, f, img, ci, r - 1) && at == mcuIndex * f.comps[ci].h
      requires at + f.comps[ci].h <= a.Length1
      requires forall x :: 0 <= x < at ==> a[r, x] == Padded(f, img, ci, r, x)
      modifies a
      ensures forall x :: 0 <= x < at + f.comps[ci].h ==> a[r, x] == Padded(f, img, ci, r, x)
      ensures forall y, x :: 0 <= y < a.Length0 && y != r && 0 <= x < a.Length1 ==> a[y, x] == old(a[y, x])
    {
      hide WidthInBlocks, HeightInBlocks, RoundUp, Padded, Dummy, LastOf;
      var h := f.comps[ci].h;
      var lastDc := a[r - 1, at + h - 1][0];
      var bi := 0;
      while bi < h
        invariant bi <= h
        invariant forall x :: 0 <= x < at + bi ==> a[r, x] == Padded(f, img, ci, r, x)
        invariant forall y, x :: 0 <= y < a.Length0 && y != r && 0 <= x < a.Length1 ==> a[y, x] == old(a[y, x])
      {
        SameMcu(mcuIndex, bi, h);
        BelowIs(f, img, ci, r, at + bi);
        a[r, at + bi] := Dummy(lastDc);
        bi := bi + 1;
      }
    }

    /** `compress_first_pass`: fill the virtual arrays for all components of the image, then emit the scan's MCUs. */
    method CompressFirstPass() returns (done: bool)
      requires Valid() && Stored(imcuRowNum) && imcuRowNum < ImcuRows(f)
      modifies this, sink, mcuBuffer, wholeImage
      ensures Valid() && imcuRowNum == old(imcuRowNum) + (if done then 1 else 0) && Stored(imcuRowNum)
      ensures !done ==> |sink.refusals| < |old(sink.refusals)|
      ensures |sink.refusals| <= |old(sink.refusals)| && scan == old(scan) && sink == old(sink)
    {
      hide Padded, RowsIn, FirstRow, ImcuRows, GoodScan, Raster, Before, McusPerRow, StoredComponent, ArraySize;
      var ci := 0;
      while ci < |f.comps|
        invariant ci <= |f.comps| && Valid() && Allocated(f, wholeImage) && imcuRowNum == old(imcuRowNum)
        invariant scan == old(scan) && sink == old(sink) && sink.refusals == old(sink.refusals)
        invariant forall j :: 0 <= j < ci ==> StoredComponent(wholeImage[j], f, img, j, imcuRowNum + 1)
        invariant forall j :: ci <= j < |f.comps| ==> StoredComponent(wholeImage[j], f, img, j, imcuRowNum)
      {
        FillComponent(ci);
        ci := ci + 1;
      }
      done := CompressOutput();
      if !done {
        StoredLess(imcuRowNum);
      }
    }

    lemma StoredLess(n: nat)
      requires Stored(n + 1)
      ensures Stored(n)
    {
    }

    /** The MCU at row offset `yoffset` and column `col`, as pointers into the virtual arrays. */
    method ReadMcu(yoffset: nat, col: nat) returns (mcu: seq<Block>)
      requires Shape() && Stored(imcuRowNum + 1) && imcuRowNum < ImcuRows(f)
      requires yoffset < RowsIn(f, scan, imcuRowNum) && col < McusPerRow(f, scan)
      ensures mcu == McuBlocks(f, img, scan, FirstRow(f, scan, imcuRowNum) + yoffset, col, |scan|)
    {
      hide Padded, RowsOf, McuWidth, McuHeight, McusPerRow, RowsIn, FirstRow, ImcuRows, GoodImage, McuBlocks, Stored,
           McuSize, Allocated;
      mcu := [];
      var k := 0;
      ghost var r := FirstRow(f, scan, imcuRowNum) + yoffset;
      NoComponents(f, img, scan, r, col);
      while k < |scan|
        invariant k <= |scan| && mcu == McuBlocks(f, img, scan, r, col, k)
      {
        MulNat(FirstRow(f, scan, imcuRowNum) + yoffset, McuHeight(f, scan, scan[k]));
        MulNat(col, McuWidth(f, scan, scan[k]));
        var blocks := ReadComponent(k, yoffset, col,
                                    (FirstRow(f, scan, imcuRowNum) + yoffset) * McuHeight(f, scan, scan[k]),
                                    col * McuWidth(f, scan, scan[k]));
        ghost var before := mcu;
        mcu := mcu + blocks;
        NextComponent(f, img, scan, r, col, k, before, mcu, |blocks|);
        k := k + 1;
      }
    }

    method ReadComponent(k: nat, yoffset: nat, col: nat, ghost r0: nat, ghost c0: nat) returns (blocks: seq<Block>)
      requires Shape() && Stored(imcuRowNum + 1) && imcuRowNum < ImcuRows(f) && k < |scan|
      requires yoffset < RowsIn(f, scan, imcuRowNum) && col < McusPerRow(f, scan)
      requires c0 == col * McuWidth(f, scan, scan[k])
      requires r0 == (FirstRow(f, scan, imcuRowNum) + yoffset) * McuHeight(f, scan, scan[k])
      ensures blocks == RowsOf(f, img, scan[k], r0, c0, McuWidth(f, scan, scan[k]), McuHeight(f, scan, scan[k]))
    {
      hide Padded, McusPerRow, ImcuRows, GoodImage, WidthInBlocks, HeightInBlocks, RoundUp, GoodFrame, RowsIn, RowOf,
           FirstRow, McuWidth, McuHeight;
      var ci := scan[k];
      var w, h := McuWidth(f, scan, ci), McuHeight(f, scan, ci);
      var top, startCol := imcuRowNum * f.comps[ci].v + yoffset, col * w;
      StoredBlocks(f, scan, imcuRowNum, k, yoffset, col);
      assert StoredComponent(wholeImage[ci], f, img, ci, imcuRowNum + 1);
      blocks := [];
      var yindex := 0;
      while yindex < h
        invariant yindex <= h
        invariant blocks == RowsOf(f, img, ci, top, startCol, w, yindex)
      {
        assert StoredRow(wholeImage[ci], f, img, ci, top + yindex);
        var row := ReadRow(wholeImage[ci], ci, top + yindex, startCol, w);
        blocks := blocks + row;
        yindex := yindex + 1;
      }
    }

    method ReadRow(a: array2<Block>, ci: nat, r: nat, c: nat, w: nat) returns (blocks: seq<Block>)
      requires GoodImage(f, img) && ci < |f.comps| && r < a.Length0 && c + w <= a.Length1 && StoredRow(a, f, img, ci, r)
      ensures blocks == RowOf(f, img, ci, r, c, w)
    {
      hide Padded, GoodImage;
      ghost var row := RowOf(f, img, ci, r, c, w);
      blocks := [];
      var xindex := 0;
      while xindex < w
        invariant xindex <= w && blocks == row[..xindex]
      {
        assert row[..xindex + 1] == row[..xindex] + [row[xindex]];
        blocks := blocks + [a[r, c + xindex]];
        xindex := xindex + 1;
      }
      assert row[..w] == row;
    }

    /** `compress_output`: one iMCU row from the virtual arrays; false if the encoder refused an MCU. */
    method CompressOutput() returns (done: bool)
      requires Valid() && Stored(imcuRowNum + 1) && imcuRowNum < ImcuRows(f)
      modifies this, sink, mcuBuffer
      ensures Valid() && imcuRowNum == old(imcuRowNum) + (if done then 1 else 0) && Stored(old(imcuRowNum) + 1)
      ensures !done ==> |sink.refusals| < |old(sink.refusals)|
      ensures |sink.refusals| <= |old(sink.refusals)| && scan == old(scan) && sink == old(sink)
    {
      hide Padded, McuBlocks, RowsIn, FirstRow, ImcuRows, GoodImage, GoodScan, Raster, Before, McusPerRow, Allocated,
           Stored;
      ghost var i := imcuRowNum;
      var yoffset := mcuVertOffset;
      while yoffset < mcuRowsPerImcuRow
        invariant Shape() && Stored(i + 1) && yoffset <= mcuRowsPerImcuRow == RowsIn(f, scan, i) && imcuRowNum == i
        invariant yoffset == mcuRowsPerImcuRow ==> mcuCtr == 0
        invariant scan == old(scan) && sink == old(sink) && |sink.refusals| <= |old(sink.refusals)|
        invariant mcuCtr < McusPerRow(f, scan)
        invariant sink.taken == Raster(f, img, scan, Before(f, scan, FirstRow(f, scan, i) + yoffset, mcuCtr))
      {
        var col := mcuCtr;
        while col < McusPerRow(f, scan)
          invariant Shape() && Stored(i + 1)
          invariant col <= McusPerRow(f, scan) && imcuRowNum == i && mcuRowsPerImcuRow == RowsIn(f, scan, i)
          invariant scan == old(scan) && sink == old(sink) && |sink.refusals| <= |old(sink.refusals)|
          invariant sink.taken == Raster(f, img, scan, Before(f, scan, FirstRow(f, scan, i) + yoffset, col))
        {
          var mcu := ReadMcu(yoffset, col);
          NextColumn(f, img, scan, FirstRow(f, scan, i) + yoffset, col);
          var ok := sink.EncodeMcu(mcu);
          if !ok {
            mcuVertOffset, mcuCtr := yoffset, col;
            return false;
          }
          col := col + 1;
        }
        NextRow(f, scan, FirstRow(f, scan, i) + yoffset);
        mcuCtr := 0;
        yoffset := yoffset + 1;
      }
      NextImcuRow(f, scan, i);
      imcuRowNum := imcuRowNum + 1;
      StartImcuRow();
      return true;
    }
  }

  /** Row `r` of a virtual array, with its padding. */
  ghost predicate StoredRow(a: array2<Block>, f: Frame, img: Image, ci: nat, r: nat)
    requires GoodImage(f, img) && ci < |f.comps| && r < a.Length0
    reads a
  {
    forall c :: 0 <= c < a.Length1 ==> a[r, c] == Padded(f, img, ci, r, c)
  }

  ghost predicate StoredComponent(a: array2<Block>, f: Frame, img: Image, ci: nat, n: nat)
    requires GoodImage(f, img) && ci < |f.comps|
    reads a
  {
    && ArraySize(f, a, ci) && n * f.comps[ci].v <= a.Length0
    && forall r :: 0 <= r < n * f.comps[ci].v ==> StoredRow(a, f, img, ci, r)
  }

  lemma McuInside(i: nat, n: nat, h: nat, at: nat)
    requires i < n && at == i * h
    ensures at + h == (i + 1) * h && at + h <= n * h
  {
  }

  lemma MulMono(a: int, b: int, k: nat)
    requires a <= b
    ensures a * k <= b * k
  {
  }

  lemma MulNat(a: nat, b: nat)
    ensures 0 <= a * b == b * a
  {
  }

  /** The block rows of iMCU row `i`. */
  lemma ComponentRows(f: Frame, ci: nat, i: nat)
    requires GoodFrame(f) && ci < |f.comps| && i < ImcuRows(f)
    ensures var v := f.comps[ci].v;
            && RoundUp(HeightInBlocks(f, ci), v) == ImcuRows(f) * v && 0 <= i * v
               && (i + 1) * v == i * v + v <= ImcuRows(f) * v
            && (i < ImcuRows(f) - 1 ==> (i + 1) * v <= HeightInBlocks(f, ci))
            && (i == ImcuRows(f) - 1 ==> i * v + LastPart(HeightInBlocks(f, ci), v) == HeightInBlocks(f, ci))
  {
    hide ImcuRows, HeightInBlocks, WidthInBlocks, ImcuCols, RoundUp, LastPart;
    ComponentGrid(f, ci);
    var v := f.comps[ci].v;
    McuInside(i, ImcuRows(f), v, i * v);
    MulNat(i, v);
    if i < ImcuRows(f) - 1 {
      MulMono(i + 1, ImcuRows(f) - 1, v);
    }
  }

  /** "Count number of dummy blocks to be added at the right margin." */
  lemma DummyCount(f: Frame, ci: nat)
    requires GoodFrame(f) && ci < |f.comps|
    ensures var w, h := WidthInBlocks(f, ci), f.comps[ci].h;
            h > 0 && w + (if w % h > 0 then h - w % h else 0) == RoundUp(w, h) && RoundUp(w, h) % h == 0
  {
    var w, h := WidthInBlocks(f, ci), f.comps[ci].h;
    LastPartIs(w, h);
    CeilBounds(w, h);
    var q := CeilDiv(w, h);
    assert (q - 1) * h == q * h - h;
    DivUnique(q * h, h, q, 0);
  }

  lemma WholeMcus(n: nat, h: nat)
    requires h > 0 && n % h == 0
    ensures n / h >= 0 && n / h * h == n
  {
  }

  lemma BelowIs(f: Frame, img: Image, ci: nat, r: nat, c: nat)
    requires GoodImage(f, img) && ci < |f.comps| && r >= HeightInBlocks(f, ci)
    ensures r > 0 && Padded(f, img, ci, r, c) == Dummy(Padded(f, img, ci, r - 1, LastOf(c, f.comps[ci].h))[0])
  {
  }

  /** Where `compress_output` finds the blocks of an MCU: inside the padded arrays. */
  lemma StoredBlocks(f: Frame, scan: seq<nat>, i: nat, k: nat, yoffset: nat, col: nat)
    requires GoodScan(f, scan) && k < |scan| && i < ImcuRows(f) && yoffset < RowsIn(f, scan, i)
    requires col < McusPerRow(f, scan)
    ensures var ci := scan[k];
            var v, w, h := f.comps[ci].v, McuWidth(f, scan, ci), McuHeight(f, scan, ci);
            && (FirstRow(f, scan, i) + yoffset) * h == i * v + yoffset
            && 0 <= i * v && i * v + yoffset + h <= (i + 1) * v
            && col * w >= 0 && col * w + w <= RoundUp(WidthInBlocks(f, ci), f.comps[ci].h)
  {
    var ci := scan[k];
    ComponentGrid(f, ci);
    ComponentRows(f, ci, i);
    if |scan| > 1 {
      MulCompare(col + 1, ImcuCols(f), f.comps[ci].h);
      Split(col, 1, f.comps[ci].h);
    } else {
      CeilBounds(WidthInBlocks(f, ci), f.comps[ci].h);
    }
  }

  /** The MCU buffer has room for the next component. */
  lemma McuRoom(f: Frame, img: Image, scan: seq<nat>, r: nat, c: nat, k: nat)
    requires GoodImage(f, img) && GoodScan(f, scan) && k < |scan|
    ensures |McuBlocks(f, img, scan, r, c, k)| + McuWidth(f, scan, scan[k]) * McuHeight(f, scan, scan[k]) <= MAX_BLOCKS
  {
    McuLength(f, img, scan, r, c, k);
    if |scan| > 1 {
      McuSizeGrows(f, scan, k + 1, |scan|);
    }
  }

  lemma NoComponents(f: Frame, img: Image, scan: seq<nat>, r: nat, c: nat)
    requires GoodImage(f, img) && GoodScan(f, scan)
    ensures McuBlocks(f, img, scan, r, c, 0) == []
  {
  }

  lemma NextComponent(f: Frame, img: Image, scan: seq<nat>, r: nat, c: nat, k: nat, before: seq<Block>, buf: seq<Block>,
                      n: nat)
    requires GoodImage(f, img) && GoodScan(f, scan) && k < |scan| && before == McuBlocks(f, img, scan, r, c, k)
    requires n == McuWidth(f, scan, scan[k]) * McuHeight(f, scan, scan[k]) && |before| + n <= |buf|
    requires buf[..|before|] == before
    requires var w, h := McuWidth(f, scan, scan[k]), McuHeight(f, scan, scan[k]);
             buf[|before|..|before| + n] == RowsOf(f, img, scan[k], r * h, c * w, w, h)
    ensures buf[..|before| + n] == McuBlocks(f, img, scan, r, c, k + 1)
  {
  }

  lemma {:induction false} McuLength(f: Frame, img: Image, scan: seq<nat>, r: nat, c: nat, k: nat)
    requires GoodImage(f, img) && GoodScan(f, scan) && k <= |scan|
    ensures |McuBlocks(f, img, scan, r, c, k)| == if |scan| == 1 then k else McuSize(f, scan, k)
  {
    hide RowsOf, GoodImage;
    if k > 0 {
      McuLength(f, img, scan, r, c, k - 1);
    }
  }

  lemma {:induction false} McuSizeGrows(f: Frame, scan: seq<nat>, j: nat, k: nat)
    requires GoodScan(f, scan) && j <= k <= |scan|
    ensures McuSize(f, scan, j) <= McuSize(f, scan, k)
  {
    if j < k {
      McuSizeGrows(f, scan, j, k - 1);
    }
  }

  lemma RoomForRow(w: nat, y: nat, h: nat)
    requires y < h
    ensures w * y + w <= w * h && w * (y + 1) == w * y + w
  {
  }

  /** Appending a slice to what was in front of it. */
  lemma SliceJoin(buf: seq<Block>, at: nat, m: nat, n: nat, before: seq<Block>, rows: seq<Block>)
    requires at <= m <= n <= |buf| && |before| == at && |rows| == m - at && buf[..m] == before + rows
    ensures buf[..at] == before && buf[at..n] == rows + buf[m..n]
  {
    assert buf[..at] == buf[..m][..at];
    assert buf[at..m] == buf[..m][at..];
  }

  /** "coef->iMCU_row_num < last_iMCU_row || yoffset + yindex < compptr->last_row_height": the block row is not a
      dummy. */
  lemma RowPresence(f: Frame, scan: seq<nat>, i: nat, ci: nat, yoffset: nat, y: nat, r: nat)
    requires GoodScan(f, scan) && ci in scan && ci < |f.comps| && i < ImcuRows(f) && yoffset < RowsIn(f, scan, i)
    requires y < McuHeight(f, scan, ci) && r == (FirstRow(f, scan, i) + yoffset) * McuHeight(f, scan, ci) + y
    ensures r < HeightInBlocks(f, ci) <==> i < ImcuRows(f) - 1 || yoffset + y < LastRowHeight(f, ci)
    ensures r >= HeightInBlocks(f, ci) ==> y > 0 && r > 0 && |scan| > 1
  {
    hide WidthInBlocks, HeightInBlocks, ImcuRows, ImcuCols, GoodFrame;
    ComponentGrid(f, ci);
    var v := f.comps[ci].v;
    if |scan| == 1 {
      assert ci == scan[0];
    }
    if i < ImcuRows(f) - 1 {
      MulCompare(i + 1, ImcuRows(f) - 1, v);
      Split(i, 1, v);
    }
  }

  /** The block in front of the next row is the last one of the row above. */
  lemma LastOfRows(f: Frame, img: Image, ci: nat, r: nat, c: nat, w: nat, y: nat)
    requires GoodImage(f, img) && ci < |f.comps| && y > 0 && w > 0
    ensures |RowsOf(f, img, ci, r, c, w, y)| == w * y > 0
    ensures RowsOf(f, img, ci, r, c, w, y)[w * y - 1] == Padded(f, img, ci, r + y - 1, c + w - 1)
  {
  }

  lemma RowsStep(f: Frame, img: Image, ci: nat, r: nat, c: nat, w: nat, y: nat)
    requires GoodImage(f, img) && ci < |f.comps|
    ensures RowsOf(f, img, ci, r, c, w, y + 1) == RowsOf(f, img, ci, r, c, w, y) + RowOf(f, img, ci, r + y, c, w)
  {
  }

  lemma ImageRow(f: Frame, img: Image, ci: nat, r: nat)
    requires GoodImage(f, img) && ci < |f.comps| && r < HeightInBlocks(f, ci)
    ensures |img| == |f.comps| && |img[ci]| == HeightInBlocks(f, ci) && |img[ci][r]| == WidthInBlocks(f, ci)
  {
  }

  lemma PresentRow(f: Frame, img: Image, ci: nat, r: nat, c: nat, w: nat, cnt: nat, buf: seq<Block>)
    requires GoodImage(f, img) && ci < |f.comps| && r < HeightInBlocks(f, ci) && |buf| == w && 0 < cnt <= w
    requires c + cnt <= WidthInBlocks(f, ci) && (cnt < w ==> c + cnt == WidthInBlocks(f, ci))
    requires forall x :: 0 <= x < w ==>
             buf[x] == if x < cnt then img[ci][r][c + x] else Dummy(img[ci][r][c + cnt - 1][0])
    ensures buf == RowOf(f, img, ci, r, c, w)
  {
    hide WidthInBlocks, HeightInBlocks, Dummy;
    var row := RowOf(f, img, ci, r, c, w);
    forall x | 0 <= x < w
      ensures buf[x] == row[x]
    {
      assert row[x] == Padded(f, img, ci, r, c + x);
    }
  }

  lemma AbsentRow(f: Frame, img: Image, ci: nat, r: nat, col: nat, c0: nat, w: nat, prev: Block, buf: seq<Block>)
    requires GoodImage(f, img) && ci < |f.comps| && r >= HeightInBlocks(f, ci) && |buf| == w == f.comps[ci].h
    requires forall x :: 0 <= x < w ==> buf[x] == Dummy(prev[0])
    requires c0 == col * w && prev == Padded(f, img, ci, r - 1, c0 + w - 1)
    ensures buf == RowOf(f, img, ci, r, c0, w)
  {
    hide WidthInBlocks, HeightInBlocks, Dummy, LastOf;
    var row := RowOf(f, img, ci, r, col * w, w);
    forall x | 0 <= x < w
      ensures buf[x] == row[x]
    {
      SameMcu(col, x, w);
      assert row[x] == Padded(f, img, ci, r, c0 + x);
    }
  }

  /** How the blocks of an MCU lie in a block row. */
  lemma ColumnSpan(f: Frame, scan: seq<nat>, ci: nat, col: nat, cnt: nat)
    requires GoodScan(f, scan) && ci in scan && ci < |f.comps| && col < McusPerRow(f, scan)
    requires cnt == if col < McusPerRow(f, scan) - 1 then McuWidth(f, scan, ci) else LastColWidth(f, scan, ci)
    ensures 0 < cnt <= McuWidth(f, scan, ci) && col * McuWidth(f, scan, ci) + cnt <= WidthInBlocks(f, ci)
    ensures cnt < McuWidth(f, scan, ci) ==> col * McuWidth(f, scan, ci) + cnt == WidthInBlocks(f, ci)
  {
    ComponentGrid(f, ci);
    var h := f.comps[ci].h;
    if |scan| > 1 {
      if col < McusPerRow(f, scan) - 1 {
        MulCompare(col + 1, ImcuCols(f) - 1, h);
        assert (col + 1) * h == col * h + h;
      }
    } else {
      assert ci == scan[0];
    }
  }

  lemma SameMcu(col: nat, x: nat, h: nat)
    requires x < h
    ensures LastOf(col * h + x, h) == col * h + h - 1
  {
    DivUnique(col * h + x, h, col, x);
  }

  /** A whole single-pass run, called again after each suspension. */
  method SinglePass(f: Frame, img: Image, scan: seq<nat>, refusals: seq<bool>) returns (mcus: seq<seq<Block>>)
    requires GoodImage(f, img) && GoodScan(f, scan)
    ensures mcus == Raster(f, img, scan, Before(f, scan, ScanRows(f, scan), 0))
  {
    hide GoodScan, GoodImage, ImcuRows, Raster, Before, RowsIn, FirstRow, McusPerRow;
    FrameOf(f, img);
    var sink := new Sink(refusals);
    var c := new Controller(f, img, scan, sink, false);
    while c.imcuRowNum < ImcuRows(f)
      invariant c.Valid() && c.sink == sink && c.scan == scan && fresh(c.mcuBuffer)
      decreases ImcuRows(f) - c.imcuRowNum, |sink.refusals|
    {
      var done := c.CompressData();
    }
    mcus := sink.taken;
  }

  lemma FrameOf(f: Frame, img: Image)
    requires GoodImage(f, img)
    ensures GoodFrame(f)
  {
  }

  method RunFirstPass(c: Controller)
    requires c.Valid() && c.Stored(0) && c.imcuRowNum == 0
    modifies c, c.sink, c.mcuBuffer, c.wholeImage
    ensures c.Valid() && c.imcuRowNum == ImcuRows(c.f) && c.Stored(ImcuRows(c.f)) && c.sink == old(c.sink)
    ensures c.scan == old(c.scan)
  {
    hide GoodScan, ImcuRows, Raster, Before, RowsIn, FirstRow, McusPerRow, StoredComponent, Allocated;
    while c.imcuRowNum < ImcuRows(c.f)
      invariant c.Valid() && c.Stored(c.imcuRowNum) && c.sink == old(c.sink) && c.scan == old(c.scan)
      decreases ImcuRows(c.f) - c.imcuRowNum, |c.sink.refusals|
    {
      var done := c.CompressFirstPass();
    }
  }

  method RunOutputPass(c: Controller)
    requires c.Valid() && c.Stored(ImcuRows(c.f)) && c.imcuRowNum == 0
    modifies c, c.sink, c.mcuBuffer
    ensures c.Valid() && c.imcuRowNum == ImcuRows(c.f) && c.Stored(ImcuRows(c.f)) && c.sink == old(c.sink)
    ensures c.scan == old(c.scan)
  {
    hide GoodScan, ImcuRows, Raster, Before, RowsIn, FirstRow, McusPerRow, StoredComponent, Allocated;
    while c.imcuRowNum < ImcuRows(c.f)
      invariant c.Valid() && c.Stored(ImcuRows(c.f)) && c.sink == old(c.sink) && c.scan == old(c.scan)
      decreases ImcuRows(c.f) - c.imcuRowNum, |c.sink.refusals|
    {
      StoredPart(c, c.imcuRowNum + 1, ImcuRows(c.f));
      var done := c.CompressOutput();
    }
  }

  /** A whole multi-pass run: the first pass over scan `scan`, then an output pass over any scan. */
  method MultiPass(f: Frame, img: Image, scan: seq<nat>, later: seq<nat>, refusals: seq<bool>, refusals': seq<bool>)
    returns (mcus: seq<seq<Block>>, mcus': seq<seq<Block>>)
    requires GoodImage(f, img) && GoodScan(f, scan) && GoodScan(f, later)
    ensures mcus == Raster(f, img, scan, Before(f, scan, ScanRows(f, scan), 0))
    ensures mcus' == Raster(f, img, later, Before(f, later, ScanRows(f, later), 0))
  {
    hide GoodScan, GoodImage, ImcuRows, Raster, Before, RowsIn, FirstRow, McusPerRow, Controller.Stored, Allocated;
    FrameOf(f, img);
    var sink := new Sink(refusals);
    var c := new Controller(f, img, scan, sink, true);
    NothingStored(c);
    RunFirstPass(c);
    mcus := c.sink.taken;
    sink := new Sink(refusals');
    c.StartPass(later, sink);
    RunOutputPass(c);
    mcus' := c.sink.taken;
  }

  lemma NothingStored(c: Controller)
    requires c.Valid() && c.wholeImage != []
    ensures c.Stored(0)
  {
  }

  lemma {:induction false} StoredPart(c: Controller, m: nat, n: nat)
    requires c.Stored(n) && m <= n
    ensures c.Stored(m)
  {
    if m < n {
      c.StoredLess(n - 1);
      StoredPart(c, m, n - 1);
    }
  }
}
