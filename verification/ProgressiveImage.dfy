/** Progressive images from the quantised blocks to the decoder's arrays: the MCUs of every scan are those that the
    coefficient controller makes. */
module ProgressiveImage {
  import opened Numbers
  import opened AritTable
  import opened ArithModel
  import opened ArithWholeScan
  import opened ScanScript
  import opened ProgressiveReplay
  import opened ProgressiveTransmit
  import C = CoefController

  /** The components of a scan. */
  function Comps(s: Scan, n: nat): (c: seq<nat>)
    requires GoodComponents(s, n)
    ensures |c| == |s.comps| && forall k :: 0 <= k < |c| ==> c[k] == s.comps[k] < n
  {
    seq(|s.comps|, k requires 0 <= k < |s.comps| => s.comps[k])
  }

  /** `per_scan_setup` accepts the scan. */
  ghost predicate Codable(f: C.Frame, s: Scan) {
    GoodComponents(s, |f.comps|) && C.GoodScan(f, Comps(s, |f.comps|))
  }

  /** The size of a component's virtual array. */
  function Width(f: C.Frame, ci: nat): (w: nat)
    requires C.GoodFrame(f) && ci < |f.comps|
    ensures w == C.ImcuCols(f) * f.comps[ci].h > 0
  {
    C.ComponentGrid(f, ci);
    C.ProductPositive(C.ImcuCols(f), f.comps[ci].h);
    C.RoundUp(C.WidthInBlocks(f, ci), f.comps[ci].h)
  }

  function Height(f: C.Frame, ci: nat): (h: nat)
    requires C.GoodFrame(f) && ci < |f.comps|
    ensures h == C.ImcuRows(f) * f.comps[ci].v > 0
  {
    C.ComponentGrid(f, ci);
    C.ProductPositive(C.ImcuRows(f), f.comps[ci].v);
    C.RoundUp(C.HeightInBlocks(f, ci), f.comps[ci].v)
  }

  lemma RealInside(f: C.Frame, ci: nat)
    requires C.GoodFrame(f) && ci < |f.comps|
    ensures C.WidthInBlocks(f, ci) <= Width(f, ci) && C.HeightInBlocks(f, ci) <= Height(f, ci)
  {
    hide C.WidthInBlocks, C.HeightInBlocks, C.CeilDiv;
    C.CeilBounds(C.WidthInBlocks(f, ci), f.comps[ci].h);
    C.CeilBounds(C.HeightInBlocks(f, ci), f.comps[ci].v);
  }

  /** Position of row `r`, column `c` in an array of the given width. */
  function At(width: nat, r: nat, c: nat): (p: nat)
  {
    C.MulNat(r, width);
    r * width + c
  }

  lemma AtParts(width: nat, r: nat, c: nat)
    requires c < width
    ensures At(width, r, c) / width == r && At(width, r, c) % width == c
  {
    C.MulNat(r, width);
    DivUnique(At(width, r, c), width, r, c);
  }

  lemma AtInside(width: nat, height: nat, r: nat, c: nat)
    requires c < width && r < height
    ensures At(width, r, c) < At(width, height, 0)
  {
    C.MulMono(r + 1, height, width);
    assert (r + 1) * width == r * width + width;
  }

  lemma PartsInside(width: nat, height: nat, p: nat)
    requires width > 0 && p < At(width, height, 0)
    ensures 0 <= p / width < height && 0 <= p % width < width && p == At(width, p / width, p % width)
  {
    QuotientNonneg(p, width);
    var q := p / width;
    assert p == width * q + p % width;
    if q >= height {
      C.MulMono(height, q, width);
    }
  }

  lemma AtNought(w: nat, h: nat)
    ensures At(w, h, 0) == h * w
  {
  }

  lemma AtNext(w: nat, r: nat, c: nat)
    ensures At(w, r, c) == At(w, r, 0) + c
  {
  }

  /** The virtual arrays as the controller fills them, rows one after another. */
  function Arrays(f: C.Frame, img: C.Image): (a: Image)
    requires C.GoodImage(f, img)
    ensures |a| == |f.comps| && forall ci :: 0 <= ci < |a| ==> a[ci] == ArrayOf(f, img, ci)
  {
    seq(|f.comps|, ci requires 0 <= ci < |f.comps| => ArrayOf(f, img, ci))
  }

  function ArrayOf(f: C.Frame, img: C.Image, ci: nat): (a: seq<Block>)
    requires C.GoodImage(f, img) && ci < |f.comps|
    ensures |a| == At(Width(f, ci), Height(f, ci), 0)
    ensures forall p :: 0 <= p < |a| ==> a[p] == Cell(f, img, ci, p)
  {
    seq<Block>(At(Width(f, ci), Height(f, ci), 0), p requires 0 <= p => Cell(f, img, ci, p))
  }

  function Cell(f: C.Frame, img: C.Image, ci: nat, p: nat): Block
    requires C.GoodImage(f, img) && ci < |f.comps|
  {
    var w := Width(f, ci);
    QuotientNonneg(p, w);
    C.Padded(f, img, ci, p / w, p % w)
  }

  lemma ArrayAt(f: C.Frame, img: C.Image, ci: nat, r: nat, c: nat)
    requires C.GoodImage(f, img) && ci < |f.comps| && r < Height(f, ci) && c < Width(f, ci)
    ensures At(Width(f, ci), r, c) < |ArrayOf(f, img, ci)|
    ensures ArrayOf(f, img, ci)[At(Width(f, ci), r, c)] == C.Padded(f, img, ci, r, c)
  {
    hide C.Padded, Width, Height, At;
    AtInside(Width(f, ci), Height(f, ci), r, c);
    AtParts(Width(f, ci), r, c);
  }

  /** The places of the image's own blocks. */
  ghost function Real(f: C.Frame): set<Place>
    requires C.GoodFrame(f)
  {
    set ci, r, c | 0 <= ci < |f.comps| && 0 <= r < C.HeightInBlocks(f, ci) && 0 <= c < C.WidthInBlocks(f, ci) ::
      (ci, At(Width(f, ci), r, c))
  }

  /** Where a block is in an MCU: component of the scan, row, column. */
  datatype Coord = Coord(k: nat, y: nat, x: nat)

  /** Blocks of the first `k` components in one MCU. */
  function Blocks(f: C.Frame, scan: seq<nat>, k: nat): nat
    requires C.GoodScan(f, scan) && k <= |scan|
  {
    if k == 0 then 0
    else
      C.MulNat(C.McuHeight(f, scan, scan[k - 1]), C.McuWidth(f, scan, scan[k - 1]));
      Blocks(f, scan, k - 1) + C.McuHeight(f, scan, scan[k - 1]) * C.McuWidth(f, scan, scan[k - 1])
  }

  ghost predicate InMcu(f: C.Frame, scan: seq<nat>, cd: Coord)
    requires C.GoodScan(f, scan)
  {
    cd.k < |scan| && cd.y < C.McuHeight(f, scan, scan[cd.k]) && cd.x < C.McuWidth(f, scan, scan[cd.k])
  }

  function CoordOf(f: C.Frame, scan: seq<nat>, k: nat, i: nat): (cd: Coord)
    requires C.GoodScan(f, scan) && k <= |scan| && i < Blocks(f, scan, k)
    ensures cd.k < k && InMcu(f, scan, cd)
    ensures i == Blocks(f, scan, cd.k) + At(C.McuWidth(f, scan, scan[cd.k]), cd.y, cd.x)
  {
    if i < Blocks(f, scan, k - 1) then CoordOf(f, scan, k - 1, i)
    else
      var j, w := i - Blocks(f, scan, k - 1), C.McuWidth(f, scan, scan[k - 1]);
      PartsInside(w, C.McuHeight(f, scan, scan[k - 1]), j);
      Coord(k - 1, j / w, j % w)
  }

  lemma {:induction false} BlocksGrow(f: C.Frame, scan: seq<nat>, k: nat, m: nat)
    requires C.GoodScan(f, scan) && k <= m <= |scan|
    ensures Blocks(f, scan, k) <= Blocks(f, scan, m)
  {
    if k < m {
      BlocksGrow(f, scan, k, m - 1);
      C.MulNat(C.McuHeight(f, scan, scan[m - 1]), C.McuWidth(f, scan, scan[m - 1]));
    }
  }

  /** Every place in an MCU has a block. */
  lemma {:induction false} CoordAt(f: C.Frame, scan: seq<nat>, k: nat, cd: Coord) returns (i: nat)
    requires C.GoodScan(f, scan) && k <= |scan| && InMcu(f, scan, cd) && cd.k < k
    ensures i < Blocks(f, scan, k) && CoordOf(f, scan, k, i) == cd
  {
    hide At, C.McuWidth, C.McuHeight, C.McuSize;
    var w, h := C.McuWidth(f, scan, scan[cd.k]), C.McuHeight(f, scan, scan[cd.k]);
    if cd.k < k - 1 {
      i := CoordAt(f, scan, k - 1, cd);
      BlocksGrow(f, scan, k - 1, k);
    } else {
      AtInside(w, h, cd.y, cd.x);
      AtParts(w, cd.y, cd.x);
      AtNought(w, h);
      i := Blocks(f, scan, cd.k) + At(w, cd.y, cd.x);
    }
  }

  /** The number of MCUs in a scan. */
  function McuCount(f: C.Frame, scan: seq<nat>): (n: nat)
    requires C.GoodScan(f, scan)
    ensures n == C.Before(f, scan, C.ScanRows(f, scan), 0)
  {
    At(C.McusPerRow(f, scan), C.ScanRows(f, scan), 0)
  }

  /** Row and column, in its component's array, of the block at `cd` of MCU `n`. */
  function RowOfBlock(f: C.Frame, scan: seq<nat>, n: nat, cd: Coord): nat
    requires C.GoodScan(f, scan) && InMcu(f, scan, cd)
  {
    QuotientNonneg(n, C.McusPerRow(f, scan));
    At(C.McuHeight(f, scan, scan[cd.k]), n / C.McusPerRow(f, scan), cd.y)
  }

  function ColOfBlock(f: C.Frame, scan: seq<nat>, n: nat, cd: Coord): nat
    requires C.GoodScan(f, scan) && InMcu(f, scan, cd)
  {
    At(C.McuWidth(f, scan, scan[cd.k]), n % C.McusPerRow(f, scan), cd.x)
  }

  function PlaceOf(f: C.Frame, scan: seq<nat>, n: nat, i: nat): nat
    requires C.GoodScan(f, scan) && i < Blocks(f, scan, |scan|)
  {
    var cd := CoordOf(f, scan, |scan|, i);
    At(Width(f, scan[cd.k]), RowOfBlock(f, scan, n, cd), ColOfBlock(f, scan, n, cd))
  }

  /** How the controller makes up a scan. */
  function PlanOf(f: C.Frame, s: Scan, interval: nat): (plan: Plan)
    requires Codable(f, s)
    ensures var scan := Comps(s, |f.comps|);
            && |plan.membership| == Blocks(f, scan, |scan|) && |plan.at| == McuCount(f, scan)
               && plan.interval == interval
            && (forall i :: 0 <= i < |plan.membership| ==> plan.membership[i] == CoordOf(f, scan, |scan|, i).k)
            && forall n :: 0 <= n < |plan.at| ==> plan.at[n] == PlacesOf(f, scan, n)
  {
    var scan := Comps(s, |f.comps|);
    Plan(seq(Blocks(f, scan, |scan|), i requires 0 <= i < Blocks(f, scan, |scan|) => CoordOf(f, scan, |scan|, i).k),
         seq(McuCount(f, scan), n requires 0 <= n < McuCount(f, scan) => PlacesOf(f, scan, n)), interval)
  }

  function PlacesOf(f: C.Frame, scan: seq<nat>, n: nat): (p: seq<nat>)
    requires C.GoodScan(f, scan)
    ensures |p| == Blocks(f, scan, |scan|) && forall i :: 0 <= i < |p| ==> p[i] == PlaceOf(f, scan, n, i)
  {
    seq(Blocks(f, scan, |scan|), i requires 0 <= i < Blocks(f, scan, |scan|) => PlaceOf(f, scan, n, i))
  }

  /** The controller's MCU has the padded image's blocks in this order. */
  lemma {:induction false} RowsAt(f: C.Frame, img: C.Image, ci: nat, r: nat, c: nat, w: nat, h: nat, y: nat, x: nat)
    requires C.GoodImage(f, img) && ci < |f.comps| && y < h && x < w
    ensures At(w, y, x) < |C.RowsOf(f, img, ci, r, c, w, h)|
    ensures C.RowsOf(f, img, ci, r, c, w, h)[At(w, y, x)] == C.Padded(f, img, ci, r + y, c + x)
  {
    hide C.Padded, C.GoodImage, C.RowsOf, At;
    AtInside(w, h, y, x);
    AtNought(w, h);
    AtNought(w, h - 1);
    C.RowsStep(f, img, ci, r, c, w, h - 1);
    if y < h - 1 {
      RowsAt(f, img, ci, r, c, w, h - 1, y, x);
    } else {
      AtNext(w, y, x);
    }
  }

  lemma {:induction false} McuCounts(f: C.Frame, img: C.Image, scan: seq<nat>, r: nat, c: nat, k: nat)
    requires C.GoodImage(f, img) && C.GoodScan(f, scan) && k <= |scan|
    ensures |C.McuBlocks(f, img, scan, r, c, k)| == Blocks(f, scan, k)
  {
    hide C.Padded, C.RowsOf, C.GoodImage, C.McuSize, C.McuWidth, C.McuHeight;
    if k > 0 {
      McuCounts(f, img, scan, r, c, k - 1);
      C.MulNat(r, C.McuHeight(f, scan, scan[k - 1]));
      C.MulNat(c, C.McuWidth(f, scan, scan[k - 1]));
    }
  }

  lemma {:induction false} McuBlockAt(f: C.Frame, img: C.Image, scan: seq<nat>, r: nat, c: nat, k: nat, i: nat)
    requires C.GoodImage(f, img) && C.GoodScan(f, scan) && k <= |scan| && i < Blocks(f, scan, k)
    ensures i < |C.McuBlocks(f, img, scan, r, c, k)|
    ensures var cd := CoordOf(f, scan, k, i);
            C.McuBlocks(f, img, scan, r, c, k)[i]
            == C.Padded(f, img, scan[cd.k], At(C.McuHeight(f, scan, scan[cd.k]), r, cd.y),
                        At(C.McuWidth(f, scan, scan[cd.k]), c, cd.x))
  {
    hide C.Padded, C.RowsOf, C.GoodImage, C.McuSize, C.McuWidth, C.McuHeight;
    McuCounts(f, img, scan, r, c, k);
    McuCounts(f, img, scan, r, c, k - 1);
    var w, h := C.McuWidth(f, scan, scan[k - 1]), C.McuHeight(f, scan, scan[k - 1]);
    C.MulNat(r, h);
    C.MulNat(c, w);
    if i < Blocks(f, scan, k - 1) {
      McuBlockAt(f, img, scan, r, c, k - 1, i);
    } else {
      var cd := CoordOf(f, scan, k, i);
      RowsAt(f, img, scan[k - 1], r * h, c * w, w, h, cd.y, cd.x);
    }
  }

  /** The blocks of a scan are in their components' arrays; those of a scan of one component are in the image. */
  lemma BlockInside(f: C.Frame, scan: seq<nat>, n: nat, cd: Coord)
    requires C.GoodScan(f, scan) && InMcu(f, scan, cd) && n < McuCount(f, scan)
    ensures RowOfBlock(f, scan, n, cd) < Height(f, scan[cd.k]) && ColOfBlock(f, scan, n, cd) < Width(f, scan[cd.k])
    ensures |scan| == 1 ==> RowOfBlock(f, scan, n, cd) < C.HeightInBlocks(f, scan[cd.k])
                            && ColOfBlock(f, scan, n, cd) < C.WidthInBlocks(f, scan[cd.k])
  {
    hide C.HeightInBlocks, C.WidthInBlocks, C.ImcuCols, C.ImcuRows, C.McuSize, Width, Height;
    var ci, per := scan[cd.k], C.McusPerRow(f, scan);
    PartsInside(per, C.ScanRows(f, scan), n);
    if |scan| == 1 {
      RealInside(f, ci);
    } else {
      AtInside(C.McuHeight(f, scan, ci), C.ImcuRows(f), n / per, cd.y);
      AtInside(C.McuWidth(f, scan, ci), C.ImcuCols(f), n % per, cd.x);
    }
  }

  lemma PlaceInside(f: C.Frame, scan: seq<nat>, n: nat, i: nat)
    requires C.GoodScan(f, scan) && n < McuCount(f, scan) && i < Blocks(f, scan, |scan|)
    ensures var ci := scan[CoordOf(f, scan, |scan|, i).k]; PlaceOf(f, scan, n, i) < At(Width(f, ci), Height(f, ci), 0)
  {
    hide At, Width, Height, RowOfBlock, ColOfBlock, C.McuSize;
    var cd := CoordOf(f, scan, |scan|, i);
    var ci := scan[cd.k];
    BlockInside(f, scan, n, cd);
    AtInside(Width(f, ci), Height(f, ci), RowOfBlock(f, scan, n, cd), ColOfBlock(f, scan, n, cd));
  }

  /** No two blocks of a scan have the same place. */
  lemma PlacesApart(f: C.Frame, scan: seq<nat>, n: nat, i: nat, m: nat, k: nat)
    requires C.GoodScan(f, scan) && n < McuCount(f, scan) && i < Blocks(f, scan, |scan|)
    requires m < McuCount(f, scan) && k < Blocks(f, scan, |scan|)
    requires CoordOf(f, scan, |scan|, i).k == CoordOf(f, scan, |scan|, k).k
    requires PlaceOf(f, scan, n, i) == PlaceOf(f, scan, m, k)
    ensures n == m && i == k
  {
    hide At, Width, Height, C.McuSize, C.McuWidth, C.McuHeight, C.McusPerRow, C.ScanRows, CoordOf;
    var cd, cd', per := CoordOf(f, scan, |scan|, i), CoordOf(f, scan, |scan|, k), C.McusPerRow(f, scan);
    var ci := scan[cd.k];
    BlockInside(f, scan, n, cd);
    BlockInside(f, scan, m, cd');
    AtParts(Width(f, ci), RowOfBlock(f, scan, n, cd), ColOfBlock(f, scan, n, cd));
    AtParts(Width(f, ci), RowOfBlock(f, scan, m, cd'), ColOfBlock(f, scan, m, cd'));
    PartsInside(per, C.ScanRows(f, scan), n);
    PartsInside(per, C.ScanRows(f, scan), m);
    AtParts(C.McuHeight(f, scan, ci), n / per, cd.y);
    AtParts(C.McuHeight(f, scan, ci), m / per, cd'.y);
    AtParts(C.McuWidth(f, scan, ci), n % per, cd.x);
    AtParts(C.McuWidth(f, scan, ci), m % per, cd'.x);
  }

  lemma SpotIs(f: C.Frame, s: Scan, interval: nat, n: nat, i: nat)
    requires Codable(f, s)
    requires var scan := Comps(s, |f.comps|); n < McuCount(f, scan) && i < Blocks(f, scan, |scan|)
    ensures var scan, plan := Comps(s, |f.comps|), PlanOf(f, s, interval);
            && Spot(s, plan, n, i)
            && Where(s, plan, n, i) == (scan[CoordOf(f, scan, |scan|, i).k], PlaceOf(f, scan, n, i))
  {
    hide CoordOf, PlaceOf, C.GoodScan, Blocks, McuCount;
  }

  lemma OneBlock(f: C.Frame, scan: seq<nat>)
    requires C.GoodScan(f, scan) && |scan| == 1
    ensures Blocks(f, scan, 1) == 1
  {
  }

  /** The controller's plan gives every block a place of its own in the arrays. */
  lemma PlanIsGood(f: C.Frame, img: C.Image, s: Scan, interval: nat)
    requires C.GoodImage(f, img) && Codable(f, s) && (s.ss > 0 ==> |s.comps| == 1)
    ensures GoodPlan(PlanOf(f, s, interval), s, Arrays(f, img))
  {
    hide CoordOf, PlaceOf, C.GoodScan, Blocks, McuCount, Spot, Where, C.GoodImage, Width, Height;
    C.FrameOf(f, img);
    var scan, plan := Comps(s, |f.comps|), PlanOf(f, s, interval);
    if s.ss > 0 {
      OneBlock(f, scan);
    }
    forall n, i | 0 <= n < |plan.at| && 0 <= i < |plan.membership|
      ensures Spot(s, plan, n, i) && Inside(Arrays(f, img), Where(s, plan, n, i))
    {
      SpotIs(f, s, interval, n, i);
      PlaceInside(f, scan, n, i);
    }
    forall n, i, m, k |
      && 0 <= n < |plan.at| && 0 <= i < |plan.membership| && 0 <= m < |plan.at| && 0 <= k < |plan.membership|
      && Where(s, plan, n, i) == Where(s, plan, m, k)
      ensures n == m && i == k
    {
      SpotsApart(f, s, interval, n, i, m, k);
    }
  }

  lemma SpotsApart(f: C.Frame, s: Scan, interval: nat, n: nat, i: nat, m: nat, k: nat)
    requires Codable(f, s)
    requires var scan := Comps(s, |f.comps|);
             && n < McuCount(f, scan) && i < Blocks(f, scan, |scan|) && m < McuCount(f, scan)
             && k < Blocks(f, scan, |scan|)
    requires var plan := PlanOf(f, s, interval);
             Spot(s, plan, n, i) && Spot(s, plan, m, k) && Where(s, plan, n, i) == Where(s, plan, m, k)
    ensures n == m && i == k
  {
    hide CoordOf, PlaceOf, C.GoodScan, Blocks, McuCount, Spot, Where;
    SpotIs(f, s, interval, n, i);
    SpotIs(f, s, interval, m, k);
    var scan := Comps(s, |f.comps|);
    var a, b := CoordOf(f, scan, |scan|, i).k, CoordOf(f, scan, |scan|, k).k;
    if a < b {
      Ascending(s, |f.comps|, a, b);
    } else if b < a {
      Ascending(s, |f.comps|, b, a);
    }
    PlacesApart(f, scan, n, i, m, k);
  }

  /** Every block of the image is in every scan of its component. */
  lemma RealIsCovered(f: C.Frame, s: Scan, interval: nat, k: nat, r: nat, c: nat)
    requires Codable(f, s) && k < |s.comps|
    requires var ci := Comps(s, |f.comps|)[k]; r < C.HeightInBlocks(f, ci) && c < C.WidthInBlocks(f, ci)
    ensures var ci := Comps(s, |f.comps|)[k]; Covered(PlanOf(f, s, interval), s, ci, At(Width(f, ci), r, c))
  {
    hide C.HeightInBlocks, C.WidthInBlocks, C.ImcuCols, C.ImcuRows, C.McuSize, Width, Height, At;
    var scan := Comps(s, |f.comps|);
    var ci, per := scan[k], C.McusPerRow(f, scan);
    var w, h := C.McuWidth(f, scan, ci), C.McuHeight(f, scan, ci);
    GridParts(f, scan, ci, r, c);
    var cd := Coord(k, r % h, c % w);
    var i := CoordAt(f, scan, |scan|, cd);
    var n := At(per, r / h, c / w);
    AtInside(per, C.ScanRows(f, scan), r / h, c / w);
    AtParts(per, r / h, c / w);
    SpotIs(f, s, interval, n, i);
  }

  /** A block of the image is in an MCU of the scan. */
  lemma GridParts(f: C.Frame, scan: seq<nat>, ci: nat, r: nat, c: nat)
    requires C.GoodScan(f, scan) && ci < |f.comps| && (|scan| == 1 ==> ci == scan[0])
    requires r < C.HeightInBlocks(f, ci) && c < C.WidthInBlocks(f, ci)
    ensures var w, h := C.McuWidth(f, scan, ci), C.McuHeight(f, scan, ci);
            && 0 <= r / h < C.ScanRows(f, scan) && 0 <= c / w < C.McusPerRow(f, scan) && 0 <= r % h < h
               && 0 <= c % w < w
            && At(h, r / h, r % h) == r && At(w, c / w, c % w) == c
  {
    hide C.HeightInBlocks, C.WidthInBlocks, C.ImcuCols, C.ImcuRows, C.McuSize, Width, Height;
    var w, h := C.McuWidth(f, scan, ci), C.McuHeight(f, scan, ci);
    RealInside(f, ci);
    PartsInside(h, C.ScanRows(f, scan), r);
    PartsInside(w, C.McusPerRow(f, scan), c);
  }

  lemma PlanIsComplete(f: C.Frame, img: C.Image, s: Scan, interval: nat)
    requires C.GoodImage(f, img) && Codable(f, s) && (s.ss > 0 ==> |s.comps| == 1)
    ensures Complete(PlanOf(f, s, interval), s, Arrays(f, img), Real(f))
  {
    hide C.HeightInBlocks, C.WidthInBlocks, C.GoodScan, Blocks, McuCount, Spot, Where, C.GoodImage, Width, Height, At,
         CoordOf, PlaceOf, Covered;
    C.FrameOf(f, img);
    var scan, plan := Comps(s, |f.comps|), PlanOf(f, s, interval);
    forall c, b | 0 <= c < |f.comps| && c in s.comps && 0 <= b < |Arrays(f, img)[c]| && (c, b) in Real(f)
      ensures Covered(plan, s, c, b)
    {
      var ci, r, x :| 0 <= ci < |f.comps| && 0 <= r < C.HeightInBlocks(f, ci) && 0 <= x < C.WidthInBlocks(f, ci)
                      && (c, b) == (ci, At(Width(f, ci), r, x));
      var k :| 0 <= k < |s.comps| && s.comps[k] == c;
      RealIsCovered(f, s, interval, k, r, x);
    }
    if s.ss > 0 {
      forall n, i | 0 <= n < |plan.at| && 0 <= i < |plan.membership| && Spot(s, plan, n, i)
        ensures Where(s, plan, n, i) in Real(f)
      {
        SpotIs(f, s, interval, n, i);
        SingleIsReal(f, scan, n, i);
      }
    }
  }

  lemma SingleIsReal(f: C.Frame, scan: seq<nat>, n: nat, i: nat)
    requires C.GoodScan(f, scan) && |scan| == 1 && n < McuCount(f, scan) && i < Blocks(f, scan, |scan|)
    ensures (scan[CoordOf(f, scan, |scan|, i).k], PlaceOf(f, scan, n, i)) in Real(f)
  {
    hide C.HeightInBlocks, C.WidthInBlocks, Width, Height, At, CoordOf, RowOfBlock, ColOfBlock;
    BlockInside(f, scan, n, CoordOf(f, scan, |scan|, i));
  }

  /** The blocks that the plan takes from the arrays are the MCUs that the controller hands on. */
  lemma GatheredIsRaster(f: C.Frame, img: C.Image, s: Scan, interval: nat)
    requires C.GoodImage(f, img) && Codable(f, s)
    requires GoodPlan(PlanOf(f, s, interval), s, Arrays(f, img))
    ensures var scan := Comps(s, |f.comps|);
            Gather(Arrays(f, img), s, PlanOf(f, s, interval)) == C.Raster(f, img, scan, McuCount(f, scan))
  {
    hide C.GoodScan, C.GoodImage, GoodPlan, GatherMcu, C.McuNumber, McuCount, Blocks, CoordOf, PlacesOf;
    var scan := Comps(s, |f.comps|);
    forall n | 0 <= n < McuCount(f, scan)
      ensures GatherMcu(Arrays(f, img), s, PlanOf(f, s, interval), n) == C.McuNumber(f, img, scan, n)
    {
      GatheredMcu(f, img, s, interval, n);
    }
  }

  lemma GatheredMcu(f: C.Frame, img: C.Image, s: Scan, interval: nat, n: nat)
    requires C.GoodImage(f, img) && Codable(f, s) && n < McuCount(f, Comps(s, |f.comps|))
    requires GoodPlan(PlanOf(f, s, interval), s, Arrays(f, img))
    ensures GatherMcu(Arrays(f, img), s, PlanOf(f, s, interval), n) == C.McuNumber(f, img, Comps(s, |f.comps|), n)
  {
    hide C.GoodScan, C.GoodImage, GoodPlan, C.McuBlocks, McuCount, Blocks, CoordOf, PlacesOf, C.McusPerRow, BlockAt;
    var scan, plan := Comps(s, |f.comps|), PlanOf(f, s, interval);
    var per := C.McusPerRow(f, scan);
    QuotientNonneg(n, per);
    McuCounts(f, img, scan, n / per, n % per, |scan|);
    forall i | 0 <= i < |plan.membership|
      ensures BlockAt(Arrays(f, img), s, plan, n, i) == C.McuNumber(f, img, scan, n)[i]
    {
      GatheredBlock(f, img, s, interval, n, i);
    }
  }

  lemma GatheredBlock(f: C.Frame, img: C.Image, s: Scan, interval: nat, n: nat, i: nat)
    requires C.GoodImage(f, img) && Codable(f, s) && n < McuCount(f, Comps(s, |f.comps|))
    requires var scan := Comps(s, |f.comps|); i < Blocks(f, scan, |scan|) == |C.McuNumber(f, img, scan, n)|
    requires GoodPlan(PlanOf(f, s, interval), s, Arrays(f, img))
    ensures BlockAt(Arrays(f, img), s, PlanOf(f, s, interval), n, i)
            == C.McuNumber(f, img, Comps(s, |f.comps|), n)[i]
  {
    hide C.GoodScan, GoodPlan, C.McuBlocks, McuCount, Blocks, CoordOf, PlacesOf, C.McusPerRow, Where, Spot,
         ArrayOf, Width, Height, At, C.McuWidth, C.McuHeight, C.HeightInBlocks, C.WidthInBlocks, C.Padded;
    var scan := Comps(s, |f.comps|);
    var per, cd := C.McusPerRow(f, scan), CoordOf(f, scan, |scan|, i);
    QuotientNonneg(n, per);
    SpotIs(f, s, interval, n, i);
    BlockInside(f, scan, n, cd);
    ArrayAt(f, img, scan[cd.k], RowOfBlock(f, scan, n, cd), ColOfBlock(f, scan, n, cd));
    McuBlockAt(f, img, scan, n / per, n % per, |scan|, i);
  }

  /** The image's coefficients are JCOEFs; so are those of the dummy blocks. */
  ghost predicate Coefs(img: C.Image) {
    forall ci, r, c :: 0 <= ci < |img| && 0 <= r < |img[ci]| && 0 <= c < |img[ci][r]| ==> IsBlock(img[ci][r][c])
  }

  lemma {:induction false} PaddedIsBlock(f: C.Frame, img: C.Image, ci: nat, r: nat, c: nat)
    requires C.GoodImage(f, img) && ci < |f.comps| && Coefs(img)
    ensures IsBlock(C.Padded(f, img, ci, r, c))
  {
    if r < C.HeightInBlocks(f, ci) {
      assert IsBlock(img[ci][r][C.WidthInBlocks(f, ci) - 1]);
      if c < C.WidthInBlocks(f, ci) {
        assert IsBlock(img[ci][r][c]);
      }
    } else {
      PaddedIsBlock(f, img, ci, r - 1, C.LastOf(c, f.comps[ci].h));
    }
  }

  lemma ArraysAreGood(f: C.Frame, img: C.Image)
    requires C.GoodImage(f, img) && Coefs(img)
    ensures GoodImage(Arrays(f, img), |f.comps|)
  {
    hide C.Padded, IsBlock, Width, Height, At, C.GoodImage, Coefs;
    forall ci, p | 0 <= ci < |f.comps| && 0 <= p < |Arrays(f, img)[ci]|
      ensures IsBlock(Arrays(f, img)[ci][p])
    {
      CellIsBlock(f, img, ci, p);
    }
  }

  lemma CellIsBlock(f: C.Frame, img: C.Image, ci: nat, p: nat)
    requires C.GoodImage(f, img) && ci < |f.comps| && Coefs(img)
    ensures IsBlock(Cell(f, img, ci, p))
  {
    hide C.Padded, IsBlock, Width, C.GoodImage;
    C.FrameOf(f, img);
    var w := Width(f, ci);
    QuotientNonneg(p, w);
    PaddedIsBlock(f, img, ci, p / w, p % w);
  }

  /** The scan can be coded: its MCUs are not too large, and those that the controller hands on have all their DC
      differences in range. */
  ghost predicate ScanGoes(u: Conditioning, f: C.Frame, img: C.Image, s: Scan, interval: nat)
    requires C.GoodImage(f, img)
  {
    && Codable(f, s) && Sendable(u, s, PlanOf(f, s, interval), |f.comps|)
    && var scan := Comps(s, |f.comps|);
    var j, mcus := JobFor(u, s, PlanOf(f, s, interval), |f.comps|), C.Raster(f, img, scan, McuCount(f, scan));
    GoodMcus(j, mcus) && ScanInRange(j, mcus)
  }

  lemma FitsIsGoes(u: Conditioning, f: C.Frame, img: C.Image, s: Scan, interval: nat)
    requires C.GoodImage(f, img) && Codable(f, s) && (s.ss > 0 ==> |s.comps| == 1)
    ensures GoodPlan(PlanOf(f, s, interval), s, Arrays(f, img))
    ensures ScanFits(u, s, PlanOf(f, s, interval), |f.comps|, Arrays(f, img)) <==> ScanGoes(u, f, img, s, interval)
  {
    hide C.GoodScan, C.GoodImage, GoodPlan, Gather, C.Raster, PlanOf, JobFor, GoodMcus, ScanInRange, McuCount;
    PlanIsGood(f, img, s, interval);
    GatheredIsRaster(f, img, s, interval);
  }

  lemma TooLarge(u: Conditioning, f: C.Frame, img: C.Image, s: Scan, interval: nat)
    requires C.GoodImage(f, img) && !Codable(f, s)
    ensures !ScanGoes(u, f, img, s, interval)
  {
  }

  /** Every scan of an accepted script is well formed. */
  lemma ScriptParts(scans: seq<Scan>, n: nat)
    requires ProgressiveScript(scans, n)
    ensures forall i :: 0 <= i < |scans| ==> ScanShape(scans[i], n)
  {
    ProgressionParts(scans, Unsent(n), n);
  }

  ghost predicate ScanShape(s: Scan, n: nat) {
    GoodCount(s) && GoodComponents(s, n) && (s.ss > 0 ==> |s.comps| == 1)
  }

  lemma {:induction false} ProgressionParts(scans: seq<Scan>, bp: BitPos, n: nat)
    requires Shaped(bp, n) && GoodProgression(scans, bp, n)
    ensures forall i :: 0 <= i < |scans| ==> ScanShape(scans[i], n)
  {
    if scans != [] {
      ProgressionParts(scans[1..], Record(bp, scans[0], n), n);
      forall i | 0 <= i < |scans|
        ensures ScanShape(scans[i], n)
      {
        if i > 0 {
          assert scans[i] == scans[1..][i - 1];
        }
      }
    }
  }

  /** What the decoder's array holds of the image's own blocks. */
  ghost predicate ReceivedArray(f: C.Frame, img: C.Image, scans: seq<Scan>, a: seq<Block>, ci: nat)
    requires C.GoodImage(f, img) && ci < |f.comps|
  {
    && |a| == At(Width(f, ci), Height(f, ci), 0)
    && forall r: nat, c: nat :: r < C.HeightInBlocks(f, ci) && c < C.WidthInBlocks(f, ci) ==>
         && At(Width(f, ci), r, c) < |a|
         && forall k :: 0 <= k < DCTSIZE2 ==>
              a[At(Width(f, ci), r, c)][k] == Known(img[ci][r][c][k], k, LastPositions(scans, |f.comps|)[ci][k])
  }

  lemma ArraysReceived(f: C.Frame, img: C.Image, scans: seq<Scan>, rec: Image)
    requires C.GoodImage(f, img)
    requires UpToDate(rec, Arrays(f, img), Real(f), LastPositions(scans, |f.comps|), |f.comps|)
    ensures |rec| == |f.comps| && forall ci :: 0 <= ci < |rec| ==> ReceivedArray(f, img, scans, rec[ci], ci)
  {
    hide C.HeightInBlocks, C.WidthInBlocks, Width, Height, At, ArrayOf, Known, LastPositions;
    forall ci, r: nat, c: nat | 0 <= ci < |rec| && r < C.HeightInBlocks(f, ci) && c < C.WidthInBlocks(f, ci)
      ensures At(Width(f, ci), r, c) < |rec[ci]|
      ensures forall k :: 0 <= k < DCTSIZE2 ==>
                rec[ci][At(Width(f, ci), r, c)][k]
                == Known(img[ci][r][c][k], k, LastPositions(scans, |f.comps|)[ci][k])
    {
      RealInside(f, ci);
      ArrayAt(f, img, ci, r, c);
      assert (ci, At(Width(f, ci), r, c)) in Real(f);
      assert BlockUpToDate(rec[ci][At(Width(f, ci), r, c)], Arrays(f, img)[ci][At(Width(f, ci), r, c)],
                           LastPositions(scans, |f.comps|)[ci]);
    }
  }

  /** The controller's MCUs for each scan go through the arithmetic coder to the decoder's arrays: block row `r`, block
      column `c` of a component ends as what was sent without the bits below the last Al. */
  method TransmitImage(tab: ProbTable, u: Conditioning, scans: seq<Scan>, intervals: seq<nat>, f: C.Frame,
                       img: C.Image, final: Byte)
    returns (ok: bool, rec: Image)
    requires |tab| == 114 && |u.dc| == |u.ac| == |f.comps| && 0 < final < 0xFF && C.GoodImage(f, img) && Coefs(img)
    requires ProgressiveScript(scans, |f.comps|) && |intervals| == |scans|
    ensures ok <==> forall i :: 0 <= i < |scans| ==> ScanGoes(u, f, img, scans[i], intervals[i])
    ensures ok ==> |rec| == |f.comps| && forall ci :: 0 <= ci < |f.comps| ==> ReceivedArray(f, img, scans, rec[ci], ci)
  {
    hide C.GoodImage, GoodPlan, PlanOf, ScanFits, ScanGoes, Coefs, Complete, UpToDate, ReceivedArray, ProgressiveScript,
         IsBlock, C.McuSize;
    ok, rec := false, [];
    C.FrameOf(f, img);
    ScriptParts(scans, |f.comps|);
    var plans: seq<Plan> := [];
    while |plans| < |scans|
      invariant |plans| <= |scans|
      invariant forall i :: 0 <= i < |plans| ==> Codable(f, scans[i]) && plans[i] == PlanOf(f, scans[i], intervals[i])
    {
      var s := scans[|plans|];
      var scan := Comps(s, |f.comps|);
      if |scan| > 1 && C.McuSize(f, scan, |scan|) > C.MAX_BLOCKS {
        TooLarge(u, f, img, s, intervals[|plans|]);
        return;
      }
      plans := plans + [PlanOf(f, s, intervals[|plans|])];
    }
    forall i | 0 <= i < |scans|
      ensures GoodPlan(plans[i], scans[i], Arrays(f, img)) && Complete(plans[i], scans[i], Arrays(f, img), Real(f))
      ensures ScanFits(u, scans[i], plans[i], |f.comps|, Arrays(f, img))
              <==> ScanGoes(u, f, img, scans[i], intervals[i])
    {
      FitsIsGoes(u, f, img, scans[i], intervals[i]);
      PlanIsComplete(f, img, scans[i], intervals[i]);
    }
    ArraysAreGood(f, img);
    ok, rec := TransmitScript(tab, u, scans, plans, |f.comps|, Arrays(f, img), final, Real(f));
    if ok {
      ArraysReceived(f, img, scans, rec);
    }
  }
}
