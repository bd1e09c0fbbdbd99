/** What the dummy blocks hold that fill up the MCUs at the right and bottom edges, and what is sent of them. */
module DummyBlocks {
  import opened Numbers
  import opened ArithModel
  import opened ProgressiveImage
  import C = CoefController
  import H = HuffmanBlock
  import S = HuffmanScan

  /** Block `i` of MCU `n` lies outside the image. */
  ghost predicate IsDummy(f: C.Frame, scan: seq<nat>, n: nat, i: nat)
    requires C.GoodScan(f, scan) && i < Blocks(f, scan, |scan|)
  {
    var cd := CoordOf(f, scan, |scan|, i);
    RowOfBlock(f, scan, n, cd) >= C.HeightInBlocks(f, scan[cd.k])
    || ColOfBlock(f, scan, n, cd) >= C.WidthInBlocks(f, scan[cd.k])
  }

  /** The other blocks are the image's. */
  lemma RealBlock(f: C.Frame, img: C.Image, scan: seq<nat>, n: nat, i: nat)
    requires C.GoodImage(f, img) && C.GoodScan(f, scan) && n < McuCount(f, scan) && i < Blocks(f, scan, |scan|)
    requires !IsDummy(f, scan, n, i)
    ensures |C.McuNumber(f, img, scan, n)| == Blocks(f, scan, |scan|)
    ensures var cd := CoordOf(f, scan, |scan|, i);
            C.McuNumber(f, img, scan, n)[i] == img[scan[cd.k]][RowOfBlock(f, scan, n, cd)][ColOfBlock(f, scan, n, cd)]
  {
    hide C.McuBlocks, C.McuWidth, C.McuHeight, C.McuSize, Blocks, At, C.McusPerRow, McuCount, C.HeightInBlocks,
         C.WidthInBlocks, CoordOf;
    BlockIsPadded(f, img, scan, n, i);
  }

  lemma BlockIsPadded(f: C.Frame, img: C.Image, scan: seq<nat>, n: nat, i: nat)
    requires C.GoodImage(f, img) && C.GoodScan(f, scan) && i < Blocks(f, scan, |scan|)
    ensures |C.McuNumber(f, img, scan, n)| == Blocks(f, scan, |scan|)
    ensures var cd := CoordOf(f, scan, |scan|, i);
            C.McuNumber(f, img, scan, n)[i]
            == C.Padded(f, img, scan[cd.k], RowOfBlock(f, scan, n, cd), ColOfBlock(f, scan, n, cd))
  {
    hide C.McuBlocks, C.McuWidth, C.McuHeight, C.McuSize, Blocks, At, C.McusPerRow, CoordOf, C.Padded, C.GoodImage;
    var per := C.McusPerRow(f, scan);
    QuotientNonneg(n, per);
    McuCounts(f, img, scan, n / per, n % per, |scan|);
    McuBlockAt(f, img, scan, n / per, n % per, |scan|, i);
  }

  /** The first block of each component in an MCU is the image's. */
  lemma FirstIsReal(f: C.Frame, scan: seq<nat>, n: nat, cd: Coord)
    requires C.GoodScan(f, scan) && InMcu(f, scan, cd) && n < McuCount(f, scan)
    ensures cd.y == 0 ==> RowOfBlock(f, scan, n, cd) < C.HeightInBlocks(f, scan[cd.k])
    ensures cd.x == 0 ==> ColOfBlock(f, scan, n, cd) < C.WidthInBlocks(f, scan[cd.k])
  {
    hide C.HeightInBlocks, C.WidthInBlocks, C.ImcuCols, C.ImcuRows, C.McuSize, C.RoundUp;
    var ci, per := scan[cd.k], C.McusPerRow(f, scan);
    BlockInside(f, scan, n, cd);
    if |scan| > 1 {
      PartsInside(per, C.ScanRows(f, scan), n);
      C.ComponentGrid(f, ci);
      C.MulMono(n / per, C.ImcuRows(f) - 1, f.comps[ci].v);
      C.MulMono(n % per, C.ImcuCols(f) - 1, f.comps[ci].h);
    }
  }

  /** A dummy block is not the first of its component in the MCU; it has no AC coefficients and repeats the DC value of
      the block before it. */
  lemma DummyRepeats(f: C.Frame, img: C.Image, scan: seq<nat>, n: nat, i: nat)
    requires C.GoodImage(f, img) && C.GoodScan(f, scan) && n < McuCount(f, scan) && i < Blocks(f, scan, |scan|)
    requires IsDummy(f, scan, n, i)
    ensures |C.McuNumber(f, img, scan, n)| == Blocks(f, scan, |scan|)
    ensures i > 0 && CoordOf(f, scan, |scan|, i - 1).k == CoordOf(f, scan, |scan|, i).k
    ensures forall j :: 1 <= j < 64 ==> C.McuNumber(f, img, scan, n)[i][j] == 0
    ensures C.McuNumber(f, img, scan, n)[i][0] == C.McuNumber(f, img, scan, n)[i - 1][0]
  {
    hide C.McuBlocks, C.McuWidth, C.McuHeight, C.McuSize, Blocks, At, C.McusPerRow, McuCount, C.HeightInBlocks,
         C.WidthInBlocks, CoordOf, C.Padded, C.McuNumber, RowOfBlock, ColOfBlock, C.GoodImage;
    C.FrameOf(f, img);
    var cd := CoordOf(f, scan, |scan|, i);
    FirstIsReal(f, scan, n, cd);
    var cd' := if cd.x > 0 then Coord(cd.k, cd.y, cd.x - 1)
               else Coord(cd.k, cd.y - 1, C.McuWidth(f, scan, scan[cd.k]) - 1);
    var i' := CoordAt(f, scan, |scan|, cd');
    PlaceBefore(C.McuWidth(f, scan, scan[cd.k]), cd.y, cd.x);
    assert i' == i - 1;
    BlockIsPadded(f, img, scan, n, i);
    BlockIsPadded(f, img, scan, n, i - 1);
    PaddedRepeats(f, img, scan, n, cd, cd');
  }

  lemma PlaceBefore(w: nat, y: nat, x: nat)
    requires w > 0 && (x > 0 || y > 0)
    ensures At(w, y, x) == 1 + if x > 0 then At(w, y, x - 1) else At(w, y - 1, w - 1)
  {
  }

  lemma PaddedRepeats(f: C.Frame, img: C.Image, scan: seq<nat>, n: nat, cd: Coord, cd': Coord)
    requires C.GoodImage(f, img) && C.GoodScan(f, scan) && n < McuCount(f, scan)
    requires InMcu(f, scan, cd) && InMcu(f, scan, cd') && cd'.k == cd.k
    requires cd' == (if cd.x > 0 then Coord(cd.k, cd.y, cd.x - 1)
                     else if cd.y > 0 then Coord(cd.k, cd.y - 1, C.McuWidth(f, scan, scan[cd.k]) - 1) else cd)
    requires var r, c := RowOfBlock(f, scan, n, cd), ColOfBlock(f, scan, n, cd);
             r >= C.HeightInBlocks(f, scan[cd.k]) || c >= C.WidthInBlocks(f, scan[cd.k])
    ensures var b := C.Padded(f, img, scan[cd.k], RowOfBlock(f, scan, n, cd), ColOfBlock(f, scan, n, cd));
            var b' := C.Padded(f, img, scan[cd.k], RowOfBlock(f, scan, n, cd'), ColOfBlock(f, scan, n, cd'));
            b[0] == b'[0] && forall j :: 1 <= j < 64 ==> b[j] == 0
  {
    hide C.HeightInBlocks, C.WidthInBlocks, C.McuSize, C.McusPerRow, McuCount, C.LastOf, C.GoodImage, C.Padded,
         C.McuWidth, C.McuHeight, At;
    C.FrameOf(f, img);
    FirstIsReal(f, scan, n, cd);
    BlockInside(f, scan, n, cd);
    var ci := scan[cd.k];
    var w := C.McuWidth(f, scan, ci);
    var r, c := RowOfBlock(f, scan, n, cd), ColOfBlock(f, scan, n, cd);
    var r', c' := RowOfBlock(f, scan, n, cd'), ColOfBlock(f, scan, n, cd');
    var q := n % C.McusPerRow(f, scan);
    OnlyInterleaved(f, scan, n, cd);
    if cd.x > 0 {
      PlaceBefore(w, q, cd.x);
      LastOfMcu(w, q, cd.x);
      LastOfMcu(w, q, cd.x - 1);
      RightOf(f, img, ci, r, c);
    } else {
      LastOfMcu(w, q, 0);
      PlaceBefore(C.McuHeight(f, scan, ci), n / C.McusPerRow(f, scan), cd.y);
      Below(f, img, ci, r, c);
    }
  }

  /** Only interleaved scans have dummy blocks, and there an MCU is as wide as the sampling factor. */
  lemma OnlyInterleaved(f: C.Frame, scan: seq<nat>, n: nat, cd: Coord)
    requires C.GoodScan(f, scan) && InMcu(f, scan, cd) && n < McuCount(f, scan)
    requires var r, c := RowOfBlock(f, scan, n, cd), ColOfBlock(f, scan, n, cd);
             r >= C.HeightInBlocks(f, scan[cd.k]) || c >= C.WidthInBlocks(f, scan[cd.k])
    ensures C.McuWidth(f, scan, scan[cd.k]) == f.comps[scan[cd.k]].h
  {
    hide C.HeightInBlocks, C.WidthInBlocks, McuCount, RowOfBlock, ColOfBlock;
    BlockInside(f, scan, n, cd);
  }

  lemma LastOfMcu(w: nat, q: nat, x: nat)
    requires x < w
    ensures C.LastOf(At(w, q, x), w) == At(w, q, w - 1)
  {
    AtParts(w, q, x);
  }

  lemma RightOf(f: C.Frame, img: C.Image, ci: nat, r: nat, c: nat)
    requires C.GoodImage(f, img) && ci < |f.comps| && c > 0
    requires r >= C.HeightInBlocks(f, ci) || c >= C.WidthInBlocks(f, ci)
    requires C.LastOf(c, f.comps[ci].h) == C.LastOf(c - 1, f.comps[ci].h)
    ensures C.Padded(f, img, ci, r, c)[0] == C.Padded(f, img, ci, r, c - 1)[0]
    ensures forall j :: 1 <= j < 64 ==> C.Padded(f, img, ci, r, c)[j] == 0
  {
    hide C.LastOf, C.HeightInBlocks, C.WidthInBlocks;
  }

  lemma Below(f: C.Frame, img: C.Image, ci: nat, r: nat, c: nat)
    requires C.GoodImage(f, img) && ci < |f.comps| && r >= C.HeightInBlocks(f, ci)
    ensures r > 0
    ensures C.Padded(f, img, ci, r, c)[0] == C.Padded(f, img, ci, r - 1, C.LastOf(c, f.comps[ci].h))[0]
    ensures forall j :: 1 <= j < 64 ==> C.Padded(f, img, ci, r, c)[j] == 0
  {
    hide C.LastOf, C.HeightInBlocks, C.WidthInBlocks;
  }

  /** The blocks of an MCU belong to the scan's components as the controller says. */
  ghost predicate Assigns(f: C.Frame, scan: seq<nat>, l: S.Assignment)
    requires C.GoodScan(f, scan)
  {
    && S.GoodAssignment(l) && |l.membership| == Blocks(f, scan, |scan|)
    && forall i :: 0 <= i < |l.membership| ==> l.membership[i] == CoordOf(f, scan, |scan|, i).k
  }

  /** So nothing is sent of a dummy block but a zero difference and the end of the block. */
  lemma DummySends(f: C.Frame, img: C.Image, scan: seq<nat>, n: nat, i: nat, l: S.Assignment, last: seq<int>)
    requires C.GoodImage(f, img) && C.GoodScan(f, scan) && n < McuCount(f, scan) && i < Blocks(f, scan, |scan|)
    requires IsDummy(f, scan, n, i) && Assigns(f, scan, l) && |last| == |l.dcTbl|
    ensures |C.McuNumber(f, img, scan, n)| == |l.membership|
    ensures S.BlockDiff(l, last, C.McuNumber(f, img, scan, n), i) == 0 && H.DcItem(0) == H.Item(0, 0, 0)
    ensures H.AcItems(C.McuNumber(f, img, scan, n)[i], 1, 0) == [H.EOB]
  {
    hide C.McuNumber, C.GoodImage, C.GoodScan, IsDummy, CoordOf, Blocks, McuCount, H.AcItems;
    DummyRepeats(f, img, scan, n, i);
    NoItems(C.McuNumber(f, img, scan, n)[i], 1, 0);
  }

  lemma {:induction false} NoItems(b: Block, k: nat, r: nat)
    requires k <= 64 && (forall j :: k <= j < 64 ==> b[j] == 0) && (k < 64 || r > 0)
    ensures H.AcItems(b, k, r) == [H.EOB]
    decreases 64 - k
  {
    if k < 64 {
      NoItems(b, k + 1, r + 1);
    }
  }
}
