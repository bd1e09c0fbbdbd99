/** The interval coder of T.81 Annex D on unbounded integers: the reference that the register-level
    coders of `jcarith.c` and `jdarith.c` are proved against. */
module IntervalCoder {
  import opened Numbers
  import opened ByteStuffing
  import opened AritTable

  /** A statistics bin: `dc_stats[tbl] + i`, `ac_stats[tbl] + i`, or `fixed_bin`. */
  datatype Bin = DcBin(tbl: nat, i: nat) | AcBin(tbl: nat, i: nat) | FixedBin

  /** One binary decision, coded with the estimate kept in `bin`. */
  datatype Decision = Decision(bin: Bin, bit: bool)

  type Stats = map<Bin, Byte>

  /** Zeroed areas, except that `fixed_bin[0]` is set to 113 when the coder is created. */
  function StatOf(stats: Stats, bin: Bin): Byte {
    if bin in stats then stats[bin] else if bin == FixedBin then 113 else 0
  }

  /** Storing the value a bin already has is not a change. */
  function SetStat(stats: Stats, bin: Bin, v: Byte): Stats {
    if StatOf(stats, bin) == v then stats else stats[bin := v]
  }

  ghost predicate GoodStats(tab: ProbTable, stats: Stats) {
    forall bin :: GoodState(tab, StatOf(stats, bin))
  }

  /** The half-open interval [low, low + size) in units of 2^-(16 + shifts). */
  datatype Interval = Interval(low: int, size: int, shifts: nat)

  predicate Normal(iv: Interval) {
    0 <= iv.low && 0x8000 <= iv.size <= 0x10000
  }

  const UNIT := Interval(0, 0x10000, 0)

  /** The subinterval for one symbol. The MPS takes the lower part, of size `size - qe`, unless that
      part is the smaller one (conditional exchange). */
  function SubInterval(iv: Interval, qe: int, lps: bool): Interval {
    var lower := iv.size - qe;
    if lps != (lower < qe) then Interval(iv.low + lower, qe, iv.shifts)
    else Interval(iv.low, lower, iv.shifts)
  }

  function Renorm(iv: Interval): (r: Interval)
    requires iv.size > 0
    ensures r.size >= 0x8000 && r.shifts >= iv.shifts
    ensures iv.size < 0x10000 ==> r.size < 0x10000
    ensures iv.low >= 0 ==> r.low >= 0
    decreases 0x8000 - iv.size
  {
    if iv.size >= 0x8000 then iv
    else Renorm(Interval(2 * iv.low, 2 * iv.size, iv.shifts + 1))
  }

  lemma RenormNone(iv: Interval)
    requires iv.size >= 0x8000
    ensures Renorm(iv) == iv
  {
  }

  function Narrow(tab: ProbTable, iv: Interval, sv: Byte, bit: bool): (r: Interval)
    requires Normal(iv) && GoodState(tab, sv)
    ensures Normal(r)
  {
    Renorm(SubInterval(iv, Qe(tab, sv), bit != MpsOf(sv)))
  }

  /** The estimate changes after every LPS, and after an MPS only when the interval is renormalised. */
  function NewState(tab: ProbTable, iv: Interval, sv: Byte, bit: bool): (r: Byte)
    requires GoodState(tab, sv)
    ensures GoodState(tab, r)
  {
    if bit != MpsOf(sv) then AfterLps(tab, sv)
    else if iv.size - Qe(tab, sv) < 0x8000 then AfterMps(tab, sv)
    else sv
  }

  /** The fields of a table row, as both coders take them apart. */
  lemma Fields(tab: ProbTable, a: int, sv: Byte)
    requires GoodState(tab, sv)
    ensures var e := tab[sv % 128];
            && Qe(tab, sv) == e / 256 / 256 < 0x8000
            && NewState(tab, Interval(0, a, 0), sv, !MpsOf(sv)) == NextState(sv, e % 256)
            && NewState(tab, Interval(0, a, 0), sv, MpsOf(sv))
               == if a - Qe(tab, sv) < 0x8000 then NextState(sv, e / 256 % 256) else sv
  {
    hide NextState;
  }

  /** Only the size of the interval matters for the next estimate. */
  lemma SameNewState(tab: ProbTable, iv: Interval, sv: Byte, bit: bool)
    requires GoodState(tab, sv)
    ensures NewState(tab, iv, sv, bit) == NewState(tab, Interval(0, iv.size, 0), sv, bit)
  {
  }

  lemma SetSame(stats: Stats, bin: Bin)
    ensures SetStat(stats, bin, StatOf(stats, bin)) == stats
  {
  }

  datatype Coder = Coder(iv: Interval, stats: Stats)

  ghost predicate GoodCoder(tab: ProbTable, c: Coder) {
    Normal(c.iv) && GoodStats(tab, c.stats)
  }

  ghost function Step(tab: ProbTable, c: Coder, d: Decision): (r: Coder)
    requires GoodCoder(tab, c)
    ensures GoodCoder(tab, r)
  {
    var sv := StatOf(c.stats, d.bin);
    var sv' := NewState(tab, c.iv, sv, d.bit);
    var stats := SetStat(c.stats, d.bin, sv');
    assert forall bin :: StatOf(stats, bin) == if bin == d.bin then sv' else StatOf(c.stats, bin);
    Coder(Narrow(tab, c.iv, sv, d.bit), stats)
  }

  ghost function Run(tab: ProbTable, c: Coder, ds: seq<Decision>): (r: Coder)
    requires GoodCoder(tab, c)
    ensures GoodCoder(tab, r)
  {
    if ds == [] then c else Step(tab, Run(tab, c, ds[..|ds| - 1]), ds[|ds| - 1])
  }

  lemma RunSnoc(tab: ProbTable, c: Coder, ds: seq<Decision>, d: Decision)
    requires GoodCoder(tab, c)
    ensures Run(tab, c, ds + [d]) == Step(tab, Run(tab, c, ds), d)
  {
    assert (ds + [d])[..|ds|] == ds;
  }

  /** MEMZERO on the statistics areas of the given tables. */
  function ClearStats(stats: Stats, dcTbls: set<nat>, acTbls: set<nat>): Stats {
    map bin | bin in stats && !(bin.DcBin? && bin.tbl in dcTbls) && !(bin.AcBin? && bin.tbl in acTbls) :: stats[bin]
  }

  lemma ClearKeepsGood(tab: ProbTable, c: Coder, ds: seq<Decision>, dcTbls: set<nat>, acTbls: set<nat>)
    requires GoodCoder(tab, c)
    ensures GoodStats(tab, ClearStats(Run(tab, c, ds).stats, dcTbls, acTbls))
  {
    var stats := Run(tab, c, ds).stats;
    forall bin
      ensures GoodState(tab, StatOf(ClearStats(stats, dcTbls, acTbls), bin))
    {
      assert GoodState(tab, StatOf(stats, bin));
    }
  }

  /** A segment's decisions, and the areas that are cleared behind it. */
  datatype Stretch = Stretch(ds: seq<Decision>, dcTbls: set<nat>, acTbls: set<nat>)

  /** The statistics after some segments of a new coder. */
  ghost function StatsThrough(tab: ProbTable, segs: seq<Stretch>): (s: Stats)
    requires GoodStats(tab, map[])
    ensures GoodStats(tab, s)
  {
    if segs == [] then map[]
    else
      var last := segs[|segs| - 1];
      var c := Coder(UNIT, StatsThrough(tab, segs[..|segs| - 1]));
      ClearKeepsGood(tab, c, last.ds, last.dcTbls, last.acTbls);
      ClearStats(Run(tab, c, last.ds).stats, last.dcTbls, last.acTbls)
  }

  /** A state that leads only to itself is kept by decisions and by clearing. */
  lemma {:induction false} FixedRun(tab: ProbTable, c: Coder, ds: seq<Decision>)
    requires GoodCoder(tab, c) && GoodState(tab, 113) && AfterLps(tab, 113) == AfterMps(tab, 113) == 113
    requires StatOf(c.stats, FixedBin) == 113
    ensures StatOf(Run(tab, c, ds).stats, FixedBin) == 113
  {
    hide GoodStats, Narrow, AfterLps, AfterMps;
    if ds != [] {
      FixedRun(tab, c, ds[..|ds| - 1]);
    }
  }

  lemma {:induction false} FixedThrough(tab: ProbTable, segs: seq<Stretch>)
    requires GoodStats(tab, map[]) && GoodState(tab, 113) && AfterLps(tab, 113) == AfterMps(tab, 113) == 113
    ensures StatOf(StatsThrough(tab, segs), FixedBin) == 113
  {
    hide GoodStats, Run, AfterLps, AfterMps;
    if segs != [] {
      var last := segs[|segs| - 1];
      FixedThrough(tab, segs[..|segs| - 1]);
      FixedRun(tab, Coder(UNIT, StatsThrough(tab, segs[..|segs| - 1])), last.ds);
    }
  }

  /** Whatever has been coded and cleared, the next decision in `fixed_bin` meets the estimate 0.5 with MPS 0. */
  lemma FixedEstimate(segs: seq<Stretch>, ds: seq<Decision>)
    ensures |JPEG_ARITAB| == 114 && GoodTable(JPEG_ARITAB) && GoodStats(JPEG_ARITAB, map[])
    ensures var sv := StatOf(Run(JPEG_ARITAB, Coder(UNIT, StatsThrough(JPEG_ARITAB, segs)), ds).stats, FixedBin);
            GoodState(JPEG_ARITAB, sv) && Qe(JPEG_ARITAB, sv) == 0x5a1d && !MpsOf(sv)
  {
    hide GoodTable, StatsThrough, Run, Qe, AfterLps, AfterMps;
    StartingEstimates();
    FixedThrough(JPEG_ARITAB, segs);
    FixedRun(JPEG_ARITAB, Coder(UNIT, StatsThrough(JPEG_ARITAB, segs)), ds);
  }

  /** In a new coder and in a cleared area, every other bin has the estimate 0x5a1d with MPS 0, and moves on to 0x2586
      with its first decision. */
  lemma ClearedEstimates(stats: Stats, dcTbls: set<nat>, acTbls: set<nat>, bin: Bin)
    requires bin != FixedBin
    requires stats == map[] || (bin.DcBin? && bin.tbl in dcTbls) || (bin.AcBin? && bin.tbl in acTbls)
    ensures |JPEG_ARITAB| == 114 && GoodTable(JPEG_ARITAB)
    ensures var sv := StatOf(ClearStats(stats, dcTbls, acTbls), bin);
            && GoodState(JPEG_ARITAB, sv) && Qe(JPEG_ARITAB, sv) == 0x5a1d && !MpsOf(sv)
            && MpsOf(AfterLps(JPEG_ARITAB, sv)) && !MpsOf(AfterMps(JPEG_ARITAB, sv))
            && Qe(JPEG_ARITAB, AfterLps(JPEG_ARITAB, sv)) == Qe(JPEG_ARITAB, AfterMps(JPEG_ARITAB, sv)) == 0x2586
  {
    hide GoodTable;
    StartingEstimates();
  }

  /** The other areas keep their statistics. */
  lemma KeptEstimates(stats: Stats, dcTbls: set<nat>, acTbls: set<nat>, bin: Bin)
    requires !(bin.DcBin? && bin.tbl in dcTbls) && !(bin.AcBin? && bin.tbl in acTbls)
    ensures StatOf(ClearStats(stats, dcTbls, acTbls), bin) == StatOf(stats, bin)
  {
  }

  /** The subintervals of the two symbols divide the interval, with the more probable symbol in the larger one; it takes
      the lower part unless that is too small. */
  lemma SymbolsShare(iv: Interval, qe: int)
    requires 0 < qe < 0x8000 <= iv.size
    ensures var m, l := SubInterval(iv, qe, false), SubInterval(iv, qe, true);
            && m.size + l.size == iv.size && m.size >= l.size > 0 && (m.size == qe || l.size == qe)
            && (if iv.size - qe >= qe then m.low == iv.low && l.low == m.low + m.size
                else l.low == iv.low && m.low == l.low + l.size)
  {
  }

  /** Estimates change at renormalisation only, and always then. */
  lemma {:induction false} ChangeAtRenorm(tab: ProbTable, iv: Interval, sv: Byte, bit: bool)
    requires Normal(iv) && GoodState(tab, sv)
    ensures var moved := Narrow(tab, iv, sv, bit).shifts > iv.shifts;
            && (bit != MpsOf(sv) ==> moved)
            && NewState(tab, iv, sv, bit)
               == if !moved then sv else if bit == MpsOf(sv) then AfterMps(tab, sv) else AfterLps(tab, sv)
  {
    var sub := SubInterval(iv, Qe(tab, sv), bit != MpsOf(sv));
    if sub.size < 0x8000 {
      assert Renorm(sub) == Renorm(Interval(2 * sub.low, 2 * sub.size, sub.shifts + 1));
    }
  }

  /** The number 0.raw (base 256) lies in the interval: cross-multiplied, so without rounding. */
  predicate Contains(iv: Interval, raw: seq<Byte>) {
    && iv.low * Pow2(8 * |raw|) <= BytesVal(raw) * Pow2(16 + iv.shifts)
    && BytesVal(raw) * Pow2(16 + iv.shifts) < (iv.low + iv.size) * Pow2(8 * |raw|)
  }

  /** Coding starts from all numbers from 0 up to 1: an interval of that kind contains every byte string only if it is
      this one or a larger one. */
  lemma UnitIsWhole(iv: Interval)
    requires iv.low >= 0 && iv.shifts == 0
    ensures (forall raw :: Contains(iv, raw)) ==> iv.low == UNIT.low && iv.size >= UNIT.size
    ensures forall raw :: Contains(UNIT, raw)
  {
    Pow2Values();
    forall raw
      ensures Contains(UNIT, raw)
    {
      BytesValBound(raw);
      MulCompare(BytesVal(raw), Pow2(8 * |raw|), 0x10000);
    }
    if forall raw :: Contains(iv, raw) {
      assert Contains(iv, []);
      Pow2One();
      var raw := [0xFF, 0xFF];
      assert Contains(iv, raw);
      assert raw == [0xFF] + [0xFF] && [0xFF] == [] + [0xFF];
      BytesValSnoc([0xFF], 0xFF);
      BytesValSnoc([], 0xFF);
    }
  }

  lemma Doubled(lo: int, hi: int, k: int, v: int, p: int)
    ensures (2 * lo) * k <= v * (2 * p) <==> lo * k <= v * p
    ensures v * (2 * p) < (2 * hi) * k <==> v * p < hi * k
  {
    assert (2 * lo) * k == 2 * (lo * k);
    assert (2 * hi) * k == 2 * (hi * k);
    assert v * (2 * p) == 2 * (v * p);
  }

  lemma {:induction false} RenormContains(iv: Interval, raw: seq<Byte>)
    requires iv.size > 0
    ensures Contains(Renorm(iv), raw) <==> Contains(iv, raw)
    decreases 0x8000 - iv.size
  {
    if iv.size < 0x8000 {
      var next := Interval(2 * iv.low, 2 * iv.size, iv.shifts + 1);
      RenormContains(next, raw);
      Doubled(iv.low, iv.low + iv.size, Pow2(8 * |raw|), BytesVal(raw), Pow2(16 + iv.shifts));
      assert next.low + next.size == 2 * (iv.low + iv.size);
    }
  }

  /** The number 0.raw is not below the split point of the interval. */
  predicate AboveSplit(iv: Interval, qe: int, raw: seq<Byte>) {
    BytesVal(raw) * Pow2(16 + iv.shifts) >= (iv.low + (iv.size - qe)) * Pow2(8 * |raw|)
  }

  /** Which of the two subintervals a contained number lies in: above or below the split point. */
  lemma SubIntervalContains(iv: Interval, qe: int, lps: bool, raw: seq<Byte>)
    requires 0 < qe < 0x8000 <= iv.size
    ensures Contains(SubInterval(iv, qe, lps), raw) <==>
              && Contains(iv, raw)
              && (lps != (iv.size - qe < qe) <==> AboveSplit(iv, qe, raw))
  {
    var k := Pow2(8 * |raw|);
    MulCompare(iv.low, iv.low + (iv.size - qe), k);
    MulCompare(iv.low + (iv.size - qe), iv.low + iv.size, k);
  }

  /** Numbers in the interval after a decision were already in the interval before it. */
  lemma {:induction false} NarrowContains(tab: ProbTable, iv: Interval, sv: Byte, bit: bool, raw: seq<Byte>)
    requires Normal(iv) && GoodState(tab, sv)
    ensures Contains(Narrow(tab, iv, sv, bit), raw) <==>
            Contains(SubInterval(iv, Qe(tab, sv), bit != MpsOf(sv)), raw)
    ensures Contains(Narrow(tab, iv, sv, bit), raw) ==> Contains(iv, raw)
  {
    var sub := SubInterval(iv, Qe(tab, sv), bit != MpsOf(sv));
    RenormContains(sub, raw);
    SubIntervalContains(iv, Qe(tab, sv), bit != MpsOf(sv), raw);
  }

  lemma {:induction false} RunContains(tab: ProbTable, c: Coder, ds: seq<Decision>, k: nat, raw: seq<Byte>)
    requires GoodCoder(tab, c) && k <= |ds|
    requires Contains(Run(tab, c, ds).iv, raw)
    ensures Contains(Run(tab, c, ds[..k]).iv, raw)
    decreases |ds|
  {
    if k == |ds| {
      assert ds[..k] == ds;
    } else {
      var init, d := ds[..|ds| - 1], ds[|ds| - 1];
      var prev := Run(tab, c, init);
      NarrowContains(tab, prev.iv, StatOf(prev.stats, d.bin), d.bit, raw);
      RunContains(tab, c, init, k, raw);
      assert init[..k] == ds[..k];
    }
  }

  /** The decision a reader of 0.raw must take: compare the number with the split point. */
  predicate Decoded(tab: ProbTable, iv: Interval, sv: Byte, raw: seq<Byte>)
    requires GoodState(tab, sv)
  {
    var qe := Qe(tab, sv);
    (AboveSplit(iv, qe, raw) != (iv.size - qe < qe)) != MpsOf(sv)
  }

  lemma OneDecisionDecodes(tab: ProbTable, iv: Interval, sv: Byte, bit: bool, raw: seq<Byte>)
    requires Normal(iv) && GoodState(tab, sv)
    requires Contains(Narrow(tab, iv, sv, bit), raw)
    ensures Contains(iv, raw) && Decoded(tab, iv, sv, raw) == bit
  {
    NarrowContains(tab, iv, sv, bit, raw);
    SubIntervalContains(iv, Qe(tab, sv), bit != MpsOf(sv), raw);
  }

  /** Any number in the final interval makes every earlier comparison come out as it was coded. */
  lemma EveryDecisionDecodes(tab: ProbTable, c: Coder, ds: seq<Decision>, k: nat, at: Coder, raw: seq<Byte>)
    requires GoodCoder(tab, c) && k < |ds| && at == Run(tab, c, ds[..k])
    requires Contains(Run(tab, c, ds).iv, raw)
    ensures Contains(at.iv, raw)
    ensures Decoded(tab, at.iv, StatOf(at.stats, ds[k].bin), raw) == ds[k].bit
  {
    assert ds[..k + 1] == ds[..k] + [ds[k]];
    RunSnoc(tab, c, ds[..k], ds[k]);
    RunContains(tab, c, ds, k + 1, raw);
    OneDecisionDecodes(tab, at.iv, StatOf(at.stats, ds[k].bin), ds[k].bit, raw);
  }

  /** Section D.1.8: the value at which coding is terminated. */
  function FinalPoint(low: int, size: int): int {
    var t := (low + size - 1) / 0x10000 * 0x10000;
    if t < low then t + 0x8000 else t
  }

  lemma FinalPointInside(low: int, size: int)
    requires 0x8000 <= size <= 0x10000
    ensures low <= FinalPoint(low, size) < low + size
    ensures FinalPoint(low, size) % 0x8000 == 0
  {
    RoundedDown(low + size - 1);
  }

  lemma RoundedDown(v: int)
    ensures var t := v / 0x10000 * 0x10000; t <= v < t + 0x10000 && t % 0x8000 == 0 && (t + 0x8000) % 0x8000 == 0
  {
    var q := v / 0x10000;
    assert q * 0x10000 == (2 * q) * 0x8000;
  }

  lemma FinalPointShift(low: int, size: int, m: int)
    ensures FinalPoint(low + 0x10000 * m, size) == FinalPoint(low, size) + 0x10000 * m
  {
    assert (low + 0x10000 * m + size - 1) / 0x10000 == (low + size - 1) / 0x10000 + m;
  }

  /** No value of the interval has more trailing zero bits than the one chosen. */
  lemma MostTrailingZeros(low: int, size: int, y: int, k: nat)
    requires 0x8000 <= size <= 0x10000
    requires low <= y < low + size && y % Pow2(k) == 0
    ensures FinalPoint(low, size) % Pow2(k) == 0
  {
    FinalPointInside(low, size);
    var x := FinalPoint(low, size);
    if k <= 15 {
      Pow2Values();
      Pow2Add(k, 15 - k);
      DividesThrough(x, Pow2(k), Pow2(15 - k));
    } else {
      Pow2Values();
      Pow2Add(16, k - 16);
      DividesThrough(y, 0x10000, Pow2(k - 16));
      UniqueMultiple(low, size, y);
    }
  }

  /** A multiple of 2^16 in the interval is the only one there, and is the one chosen. */
  lemma UniqueMultiple(low: int, size: int, y: int)
    requires 0x8000 <= size <= 0x10000
    requires low <= y < low + size && y % 0x10000 == 0
    ensures FinalPoint(low, size) == y
  {
    assert y / 0x10000 * 0x10000 == y;
    var t := (low + size - 1) / 0x10000;
    assert t * 0x10000 == low + size - 1 - (low + size - 1) % 0x10000;
    assert y / 0x10000 == t;
  }

  lemma DividesThrough(x: int, p: int, q: int)
    requires p > 0 && q > 0 && x % (p * q) == 0
    ensures x % p == 0
  {
    var d := x / (p * q);
    assert x == (p * q) * d == p * (q * d);
    MulMod(p, q * d);
  }

  lemma MulMod(p: int, d: int)
    requires p > 0
    ensures (p * d) % p == 0
  {
    var r := (p * d) % p;
    var e := (p * d) / p;
    assert p * d == p * e + r;
    assert p * (d - e) == r;
    assert p * (d - e) == (d - e) * p;
    MulCompare(0, d - e, p);
    MulCompare(d - e, 1, p);
  }

  /** 0.raw is exactly `x` in units of 2^-s. */
  predicate IsFraction(raw: seq<Byte>, x: int, s: nat) {
    BytesVal(raw) * Pow2(s) == x * Pow2(8 * |raw|)
  }

  lemma FractionZeros(raw: seq<Byte>, n: nat, x: int, s: nat)
    ensures IsFraction(raw + Repeat(0, n), x, s) <==> IsFraction(raw, x, s)
  {
    hide BytesVal, Pow2, Repeat;
    var q, k, v := Pow2(8 * n), Pow2(8 * |raw|), BytesVal(raw);
    assert BytesVal(raw + Repeat(0, n)) == v * q by {
      BytesValAppend(raw, Repeat(0, n));
      BytesValZeros(n);
    }
    assert Pow2(8 * |raw + Repeat(0, n)|) == k * q by {
      Pow2Add(8 * |raw|, 8 * n);
      assert 8 * |raw + Repeat(0, n)| == 8 * |raw| + 8 * n;
    }
    Cancel(v, Pow2(s), x, k, q);
  }

  lemma Cancel(v: int, p: int, x: int, k: int, q: int)
    requires q > 0
    ensures (v * q) * p == x * (k * q) <==> v * p == x * k
  {
    assert (v * q) * p == (v * p) * q;
    assert x * (k * q) == (x * k) * q;
    MulCompare(v * p, x * k, q);
  }

  lemma FractionContained(iv: Interval, raw: seq<Byte>, x: int)
    requires IsFraction(raw, x, 16 + iv.shifts) && iv.low <= x < iv.low + iv.size
    ensures Contains(iv, raw)
  {
    MulCompare(iv.low, x, Pow2(8 * |raw|));
    MulCompare(x, iv.low + iv.size, Pow2(8 * |raw|));
  }

  lemma CancelLeft(f: int, x: int, p: int, q: int)
    requires p > 0 && f * p == x * (q * p)
    ensures f == x * q
  {
    assert x * (q * p) == (x * q) * p;
    MulCompare(f, x * q, p);
  }

  lemma BetweenScaled(lo: int, hi: int, v: int, p: int, q: int)
    requires q > 0 && lo * q <= v * (p * q) < hi * q
    ensures lo <= v * p < hi
  {
    assert v * (p * q) == (v * p) * q;
    MulCompare(lo, v * p, q);
    MulCompare(v * p, hi, q);
  }

  lemma MultipleOf(v: int, e: nat, n: nat)
    requires e >= n
    ensures (v * Pow2(e)) % Pow2(n) == 0
  {
    Pow2Add(n, e - n);
    TimesMod(v, Pow2(n), Pow2(e - n));
  }

  lemma TimesMod(v: int, p: int, q: int)
    requires p > 0
    ensures (v * (p * q)) % p == 0
  {
    assert v * (p * q) == p * (q * v);
    MulMod(p, q * v);
  }

  /** A byte string of at most s - 16 bits denotes a multiple of 2^16, in units of 2^-s. */
  lemma ShortIsCoarse(iv: Interval, other: seq<Byte>, e: nat)
    requires Contains(iv, other) && 8 * |other| + e == 16 + iv.shifts && e >= 16
    requires 0x8000 <= iv.size <= 0x10000
    ensures FinalPoint(iv.low, iv.size) == BytesVal(other) * Pow2(e)
  {
    Pow2Add(e, 8 * |other|);
    BetweenScaled(iv.low, iv.low + iv.size, BytesVal(other), Pow2(e), Pow2(8 * |other|));
    MultipleOf(BytesVal(other), e, 16);
    Pow2Values();
    UniqueMultiple(iv.low, iv.size, BytesVal(other) * Pow2(e));
  }

  lemma RescaleUp(f: int, x: int, s: nat, e: nat)
    requires f * Pow2(s) == x * Pow2(e + s)
    ensures f == x * Pow2(e)
  {
    Pow2Add(e, s);
    CancelLeft(f, x, Pow2(s), Pow2(e));
  }

  /** Dividing a multiple of 2^15 by at most 2^7 still leaves a multiple of 256. */
  lemma QuotientByteZero(f: int, x: int, e: nat)
    requires e <= 7 && f * Pow2(e) == x && x % 0x8000 == 0
    ensures f % 256 == 0
  {
    var d := x / 0x8000;
    Pow2Values();
    assert x == d * Pow2(15 - e + e);
    RescaleUp(f, d, e, 15 - e);
    MultipleOf(d, 15 - e, 8);
  }

  /** "We always produce the shortest possible output": no shorter byte string lies in the interval. */
  lemma ShortestFinal(iv: Interval, final: seq<Byte>, other: seq<Byte>)
    requires 0x8000 <= iv.size <= 0x10000
    requires Trimmed(final) && IsFraction(final, FinalPoint(iv.low, iv.size), 16 + iv.shifts)
    requires Contains(iv, other)
    ensures |final| <= |other|
  {
    hide BytesVal, IsFraction, Contains, FinalPoint;
    if |other| < |final| {
      LastByte(final);
      LongerEndsInZero(iv, final, other);
      assert false;
    }
  }

  lemma LastByte(s: seq<Byte>)
    requires s != []
    ensures BytesVal(s) % 256 == s[|s| - 1]
  {
  }

  lemma LongerEndsInZero(iv: Interval, final: seq<Byte>, other: seq<Byte>)
    requires 0x8000 <= iv.size <= 0x10000
    requires IsFraction(final, FinalPoint(iv.low, iv.size), 16 + iv.shifts)
    requires Contains(iv, other) && |other| < |final|
    ensures BytesVal(final) % 256 == 0
  {
    var x, s, f, m := FinalPoint(iv.low, iv.size), 16 + iv.shifts, |final|, |other|;
    var v := BytesVal(final);
    FinalPointInside(iv.low, iv.size);
    if 8 * m <= iv.shifts {
      var e := s - 8 * m;
      ShortIsCoarse(iv, other, e);
      CoarseQuotient(v, BytesVal(other), s, e, 8 * f, 8 * f - 8 * m);
    } else if 8 * f >= s {
      FineQuotient(v, x, s, 8 * f - s);
    } else {
      Pow2Add(s - 8 * f, 8 * f);
      CancelLeft(x, v, Pow2(8 * f), Pow2(s - 8 * f));
      QuotientByteZero(v, x, s - 8 * f);
    }
  }

  lemma CoarseQuotient(v: int, o: int, s: nat, e: nat, n: nat, g: nat)
    requires v * Pow2(s) == (o * Pow2(e)) * Pow2(n) && e + n == g + s && g >= 8
    ensures v % 256 == 0
  {
    Pow2Add(e, n);
    assert (o * Pow2(e)) * Pow2(n) == o * (Pow2(e) * Pow2(n));
    RescaleUp(v, o, s, g);
    MultipleOf(o, g, 8);
    Pow2Values();
  }

  lemma FineQuotient(v: int, x: int, s: nat, g: nat)
    requires v * Pow2(s) == x * Pow2(g + s) && x % 0x8000 == 0
    ensures v % 256 == 0
  {
    RescaleUp(v, x, s, g);
    var d := x / 0x8000;
    Pow2Values();
    Pow2Add(15, g);
    assert x * Pow2(g) == d * (Pow2(15) * Pow2(g));
    MultipleOf(d, 15 + g, 8);
  }
}
