/** The statistical model of T.81 sections F.1.4 and G.1.3: which decisions code a coefficient block. */
module ArithModel {
  import opened Numbers
  import opened IntervalCoder

  /** An 8x8 block of quantised coefficients, in zigzag order. */
  type Block = b: seq<int> | |b| == 64 witness seq(64, _ => 0)

  /** Point transform of a DC coefficient: an arithmetic right shift. */
  function PointDc(x: int, al: nat): int {
    x / Pow2(al)
  }

  /** Magnitude of an AC coefficient after the point transform: division rounding toward zero. */
  function PointAc(x: int, al: nat): (v: int)
    ensures v >= 0
  {
    QuotientNonneg(if x >= 0 then x else -x, Pow2(al));
    if x >= 0 then x / Pow2(al) else -x / Pow2(al)
  }

  /** A JCOEF is a 16-bit integer. */
  predicate IsCoef(x: int) {
    -0x8000 <= x < 0x8000
  }

  ghost predicate IsBlock(b: Block) {
    forall j :: 0 <= j < 64 ==> IsCoef(b[j])
  }

  /** A DC coefficient without its low `al` bits: rounded down. */
  function TruncDc(x: int, al: nat): int {
    PointDc(x, al) * Pow2(al)
  }

  /** An AC coefficient without the low `al` bits of its magnitude: rounded toward zero. */
  function TruncAc(x: int, al: nat): int {
    (if x < 0 then -PointAc(x, al) else PointAc(x, al)) * Pow2(al)
  }

  lemma TruncNothing(x: int)
    ensures TruncAc(x, 0) == x && TruncDc(x, 0) == x
  {
  }

  lemma PointHalves(x: int, al: nat)
    ensures PointAc(x, al + 1) == PointAc(x, al) / 2
  {
    Halve(if x >= 0 then x else -x, Pow2(al));
  }

  lemma PointBound(x: int, al: nat)
    ensures PointAc(x, al) <= (if x >= 0 then x else -x)
    ensures PointAc(x, al) == 0 <==> TruncAc(x, al) == 0
    ensures x < 0 && PointAc(x, al) != 0 ==> TruncAc(x, al) < 0
    ensures x >= 0 && PointAc(x, al) != 0 ==> TruncAc(x, al) > 0
  {
    var a, p, v := if x >= 0 then x else -x, Pow2(al), PointAc(x, al);
    assert a == p * v + a % p;
    MulCompare(v, a, 1);
    MulCompare(0, v, p);
    SmallFactor(v, p);
    MulCompare(0, -v, p);
  }

  lemma SmallFactor(v: nat, p: nat)
    requires p > 0
    ensures v * p >= v
  {
  }

  lemma Halve(v: int, p: nat)
    requires p > 0
    ensures v / (2 * p) == v / p / 2
  {
    var q, r := v / p, v % p;
    assert v == p * q + r;
    var h, o := q / 2, q % 2;
    assert q == 2 * h + o;
    assert p * q == 2 * p * h + p * o;
    assert p * o == if o == 0 then 0 else p;
    DivUnique(v, 2 * p, h, p * o + r);
  }

  function Log2(w: nat): nat
    requires w > 0
  {
    if w == 1 then 0 else 1 + Log2(w / 2)
  }

  /** Bin `i` of a DC or AC statistics area. */
  function BinAt(ac: bool, tbl: nat, i: nat): Bin {
    if ac then AcBin(tbl, i) else DcBin(tbl, i)
  }

  /** `n` ones, each in the next bin. */
  function Climb(ac: bool, tbl: nat, i: nat, n: nat): seq<Decision>
    decreases n
  {
    if n == 0 then [] else [Decision(BinAt(ac, tbl, i), true)] + Climb(ac, tbl, i + 1, n - 1)
  }

  /** Figure F.9: the low `n` bits of `w`, most significant first, all in one bin. */
  function Pattern(ac: bool, tbl: nat, i: nat, w: nat, n: nat): seq<Decision> {
    if n == 0 then []
    else [Decision(BinAt(ac, tbl, i), w / Pow2(n - 1) % 2 == 1)] + Pattern(ac, tbl, i, w, n - 1)
  }

  /** From bin `x` on: the remaining category decisions for a category of `n` more steps, then the pattern. */
  function Category(ac: bool, tbl: nat, x: nat, n: nat, w: nat, bits: nat): seq<Decision> {
    Climb(ac, tbl, x, n) + ([Decision(BinAt(ac, tbl, x + n), false)] + Pattern(ac, tbl, x + n + 14, w, bits))
  }

  /** Figures F.8 and F.9 for a DC difference of magnitude `w + 1`. */
  function DcMagnitude(tbl: nat, st: nat, w: nat): seq<Decision> {
    if w == 0 then [Decision(DcBin(tbl, st), false)]
    else [Decision(DcBin(tbl, st), true)] + Category(false, tbl, 20, Log2(w), w, Log2(w))
  }

  /** Figures F.8 and F.9 for an AC coefficient of magnitude `w + 1`; `x` is 189 or 217. */
  function AcMagnitude(tbl: nat, st: nat, x: nat, w: nat): seq<Decision> {
    if w == 0 then [Decision(AcBin(tbl, st), false)]
    else if w == 1 then [Decision(AcBin(tbl, st), true), Decision(AcBin(tbl, st), false)]
    else [Decision(AcBin(tbl, st), true), Decision(AcBin(tbl, st), true)]
         + Category(true, tbl, x, Log2(w) - 1, w, Log2(w))
  }

  /** DC conditioning: table number and the bounds L and U. */
  datatype DcTable = DcTable(tbl: nat, lower: nat, upper: nat)

  /** Section F.1.4.4.1.2: the conditioning category left behind by a difference. */
  function DcContext(t: DcTable, diff: int): (ctx: nat)
    ensures ctx <= 16
  {
    if diff == 0 then 0
    else
      var w := (if diff > 0 then diff else -diff) - 1;
      var m := if w == 0 then 0 else Pow2(Log2(w));
      var small := if diff > 0 then 4 else 8;
      if m < Pow2(t.lower) / 2 then 0 else if m > Pow2(t.upper) / 2 then small + 8 else small
  }

  /** Figure F.4: a DC difference under context `ctx`. */
  function DcDecisions(t: DcTable, ctx: nat, diff: int): seq<Decision> {
    if diff == 0 then [Decision(DcBin(t.tbl, ctx), false)]
    else [Decision(DcBin(t.tbl, ctx), true), Decision(DcBin(t.tbl, ctx + 1), diff < 0)]
         + DcMagnitude(t.tbl, ctx + (if diff > 0 then 2 else 3), (if diff > 0 then diff else -diff) - 1)
  }

  /** AC conditioning: table number and Kx. */
  datatype AcTable = AcTable(tbl: nat, kx: nat)

  /** The largest index in 1..k whose coefficient survives the point transform, or 0. */
  function LastNonzero(b: Block, al: nat, k: nat): (ke: nat)
    requires k < 64
    ensures ke <= k
    ensures ke > 0 ==> PointAc(b[ke], al) != 0
    ensures forall j :: ke < j <= k ==> PointAc(b[j], al) == 0
  {
    if k == 0 || PointAc(b[k], al) != 0 then k else LastNonzero(b, al, k - 1)
  }

  /** Figure F.5 from index `k` on: a decision that the block does not end here, or that it does. */
  function AcDecisions(t: AcTable, b: Block, al: nat, k: nat, ke: nat, se: nat): seq<Decision>
    requires 1 <= k && ke <= se < 64
    decreases 64 - k, 1
  {
    if k <= ke then [Decision(AcBin(t.tbl, 3 * (k - 1)), false)] + AcRun(t, b, al, k, ke, se)
    else if k <= se then [Decision(AcBin(t.tbl, 3 * (k - 1)), true)]
    else []
  }

  /** Zero coefficients from index `k` on, then one nonzero coefficient, then the rest. */
  function AcRun(t: AcTable, b: Block, al: nat, k: nat, ke: nat, se: nat): seq<Decision>
    requires 1 <= k <= ke <= se < 64
    decreases 64 - k, 0
  {
    var v := PointAc(b[k], al);
    if v != 0 then
      [Decision(AcBin(t.tbl, 3 * (k - 1) + 1), true), Decision(FixedBin, b[k] < 0)]
      + (AcMagnitude(t.tbl, 3 * (k - 1) + 2, if k <= t.kx then 189 else 217, v - 1)
         + AcDecisions(t, b, al, k + 1, ke, se))
    else if k < ke then [Decision(AcBin(t.tbl, 3 * (k - 1) + 1), false)] + AcRun(t, b, al, k + 1, ke, se)
    else []
  }

  /** Figure G.10 from index `k` on. No end-of-block decision is coded up to `kex`. */
  function RefineDecisions(t: AcTable, b: Block, al: nat, k: nat, kex: nat, ke: nat, se: nat): seq<Decision>
    requires 1 <= k && ke <= se < 64
    decreases 64 - k, 1
  {
    if k <= ke then
      (if k > kex then [Decision(AcBin(t.tbl, 3 * (k - 1)), false)] else [])
      + RefineRun(t, b, al, k, kex, ke, se)
    else if k <= se then [Decision(AcBin(t.tbl, 3 * (k - 1)), true)]
    else []
  }

  /** One coefficient that is nonzero after the point transform: its next bit, or its sign if it is new. */
  function RefineCoef(t: AcTable, b: Block, al: nat, k: nat): seq<Decision>
    requires 1 <= k < 64
  {
    var v := PointAc(b[k], al);
    if v / 2 != 0 then [Decision(AcBin(t.tbl, 3 * (k - 1) + 2), v % 2 == 1)]
    else [Decision(AcBin(t.tbl, 3 * (k - 1) + 1), true), Decision(FixedBin, b[k] < 0)]
  }

  function RefineRun(t: AcTable, b: Block, al: nat, k: nat, kex: nat, ke: nat, se: nat): seq<Decision>
    requires 1 <= k <= ke <= se < 64
    decreases 64 - k, 0
  {
    var v := PointAc(b[k], al);
    if v != 0 then
      RefineCoef(t, b, al, k) + RefineDecisions(t, b, al, k + 1, kex, ke, se)
    else if k < ke then
      [Decision(AcBin(t.tbl, 3 * (k - 1) + 1), false)] + RefineRun(t, b, al, k + 1, kex, ke, se)
    else []
  }

  /** Which component's tables each block of an MCU uses. */
  datatype McuLayout = McuLayout(dc: seq<DcTable>, ac: seq<AcTable>, membership: seq<nat>)

  ghost predicate GoodLayout(l: McuLayout) {
    |l.dc| == |l.ac| && forall i :: 0 <= i < |l.membership| ==> l.membership[i] < |l.dc|
  }

  /** Per component of the scan: the last DC value and the DC conditioning context. */
  datatype Prediction = Prediction(last: seq<int>, ctx: seq<nat>)

  predicate GoodPrediction(l: McuLayout, p: Prediction) {
    |p.last| == |p.ctx| == |l.dc|
  }

  function DcDiff(l: McuLayout, p: Prediction, i: nat, b: Block, al: nat): int
    requires GoodLayout(l) && GoodPrediction(l, p) && i < |l.membership|
  {
    PointDc(b[0], al) - p.last[l.membership[i]]
  }

  function Predict(l: McuLayout, p: Prediction, i: nat, b: Block, al: nat): (r: Prediction)
    requires GoodLayout(l) && GoodPrediction(l, p) && i < |l.membership|
    ensures GoodPrediction(l, r)
  {
    var ci := l.membership[i];
    Prediction(p.last[ci := PointDc(b[0], al)], p.ctx[ci := DcContext(l.dc[ci], DcDiff(l, p, i, b, al))])
  }

  /** One block: its DC difference and, in a sequential scan, all its AC coefficients. */
  function BlockDecisions(l: McuLayout, p: Prediction, i: nat, b: Block, al: nat, sequential: bool): seq<Decision>
    requires GoodLayout(l) && GoodPrediction(l, p) && i < |l.membership|
  {
    var ci := l.membership[i];
    DcDecisions(l.dc[ci], p.ctx[ci], DcDiff(l, p, i, b, al))
    + if sequential then AcDecisions(l.ac[ci], b, 0, 1, LastNonzero(b, 0, 63), 63) else []
  }

  function McuDecisions(l: McuLayout, p: Prediction, mcu: seq<Block>, i: nat, al: nat, sequential: bool): seq<Decision>
    requires GoodLayout(l) && GoodPrediction(l, p) && i <= |mcu| == |l.membership|
    decreases |mcu| - i
  {
    if i == |mcu| then []
    else BlockDecisions(l, p, i, mcu[i], al, sequential)
         + McuDecisions(l, Predict(l, p, i, mcu[i], al), mcu, i + 1, al, sequential)
  }

  function McuPrediction(l: McuLayout, p: Prediction, mcu: seq<Block>, i: nat, al: nat): (r: Prediction)
    requires GoodLayout(l) && GoodPrediction(l, p) && i <= |mcu| == |l.membership|
    ensures GoodPrediction(l, r)
    decreases |mcu| - i
  {
    if i == |mcu| then p else McuPrediction(l, Predict(l, p, i, mcu[i], al), mcu, i + 1, al)
  }

  /** Every DC difference from block `i` on has a category the decoder accepts. */
  predicate DcInRange(l: McuLayout, p: Prediction, mcu: seq<Block>, i: nat, al: nat)
    requires GoodLayout(l) && GoodPrediction(l, p) && i <= |mcu| == |l.membership|
    decreases |mcu| - i
  {
    i == |mcu| || (-0x8000 <= DcDiff(l, p, i, mcu[i], al) <= 0x8000
                   && DcInRange(l, Predict(l, p, i, mcu[i], al), mcu, i + 1, al))
  }

  /** One refinement bit per block: bit `al` of the two's complement DC value. */
  function DcBits(mcu: seq<Block>, i: nat, al: nat): seq<Decision>
    requires i <= |mcu|
    decreases |mcu| - i
  {
    if i == |mcu| then []
    else [Decision(FixedBin, PointDc(mcu[i][0], al) % 2 == 1)] + DcBits(mcu, i + 1, al)
  }
}
