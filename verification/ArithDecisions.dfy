/** What the decisions of the statistical model say, and what each statistics bin is for (T.81 sections F.1.4 and
    G.1.3). */
module ArithDecisions {
  import opened Numbers
  import opened IntervalCoder
  import opened ArithModel
  import opened ArithMcuDecoder

  /** A DC value without its low bits is the multiple of 2^Al just below it. */
  lemma TruncDcIs(x: int, al: nat)
    ensures TruncDc(x, al) % Pow2(al) == 0 && 0 <= x - TruncDc(x, al) < Pow2(al)
  {
    var p, v := Pow2(al), x / Pow2(al);
    assert x == p * v + x % p;
    Multiple(p, v);
    assert v * p == p * v;
  }

  /** An AC coefficient without its low bits is the multiple of 2^Al next to it on the way to zero. */
  lemma TruncAcIs(x: int, al: nat)
    ensures var t := TruncAc(x, al);
            && t % Pow2(al) == 0
            && (if x >= 0 then 0 <= t <= x < t + Pow2(al) else t - Pow2(al) < x <= t <= 0)
  {
    hide Pow2;
    var p := Pow2(al);
    if x >= 0 {
      TruncDcIs(x, al);
      MulCompare(0, x / p, p);
    } else {
      TruncDcIs(-x, al);
      MulCompare(0, -x / p, p);
      Negated(-x / p, p);
    }
  }

  lemma Negated(v: int, p: nat)
    requires p > 0
    ensures -v * p == -(v * p) && -v * p % p == 0
  {
    Multiple(p, -v);
    assert -v * p == p * -v;
  }

  /** Section F.1.4.4.1.2: the category of a difference is zero up to half of 2^L, small up to 2^U, large beyond;
      small and large ones are told apart by sign. */
  lemma DcContextIs(t: DcTable, diff: int)
    ensures var ctx, a := DcContext(t, diff), if diff < 0 then -diff else diff;
            && (ctx == 0 <==> a <= Pow2(t.lower) / 2)
            && (a > Pow2(t.lower) / 2 && a <= Pow2(t.upper) ==> ctx == if diff > 0 then 4 else 8)
            && (a > Pow2(t.lower) / 2 && a > Pow2(t.upper) ==> ctx == if diff > 0 then 12 else 16)
  {
    hide Pow2, Log2;
    var a := if diff < 0 then -diff else diff;
    if a == 1 {
      Half(t.lower);
      Half(t.upper);
    } else if a > 1 {
      AgainstHalf(a - 1, t.lower);
      AgainstHalf(a - 1, t.upper);
    } else {
      Half(t.lower);
    }
  }

  lemma Half(n: nat)
    ensures Pow2(n) / 2 == (if n == 0 then 0 else Pow2(n - 1)) && Pow2(n) == if n == 0 then 1 else 2 * Pow2(n - 1)
  {
  }

  /** The coders compare the highest bit of the magnitude less one with half of a power. */
  lemma AgainstHalf(w: nat, n: nat)
    requires w > 0
    ensures Pow2(Log2(w)) < Pow2(n) / 2 <==> w + 1 <= Pow2(n) / 2
    ensures Pow2(Log2(w)) > Pow2(n) / 2 <==> w + 1 > Pow2(n)
  {
    hide Pow2, Log2;
    Half(n);
    Log2Bounds(w);
    PowerBelow(Log2(w), n);
    if n > 0 {
      PowerBelow(Log2(w), n - 1);
    }
  }

  /** Powers of two compare like their exponents. */
  lemma PowerBelow(m: nat, n: nat)
    ensures m < n <==> 2 * Pow2(m) <= Pow2(n)
    ensures m >= n <==> Pow2(m) >= Pow2(n)
  {
    if m < n {
      Pow2Monotone(m + 1, n);
    } else {
      Pow2Monotone(n, m);
    }
  }

  lemma {:induction false} ClimbAt(ac: bool, tbl: nat, i: nat, n: nat)
    ensures |Climb(ac, tbl, i, n)| == n
    ensures forall c :: 0 <= c < n ==> Climb(ac, tbl, i, n)[c] == Decision(BinAt(ac, tbl, i + c), true)
    decreases n
  {
    if n > 0 {
      ClimbAt(ac, tbl, i + 1, n - 1);
      forall c | 0 <= c < n
        ensures Climb(ac, tbl, i, n)[c] == Decision(BinAt(ac, tbl, i + c), true)
      {
        if c > 0 {
          assert Climb(ac, tbl, i + 1, n - 1)[c - 1] == Decision(BinAt(ac, tbl, i + 1 + (c - 1)), true);
        }
      }
    }
  }

  lemma {:induction false} PatternAt(ac: bool, tbl: nat, i: nat, w: nat, n: nat)
    ensures |Pattern(ac, tbl, i, w, n)| == n
    ensures forall c :: 0 <= c < n ==>
              Pattern(ac, tbl, i, w, n)[c] == Decision(BinAt(ac, tbl, i), w / Pow2(n - 1 - c) % 2 == 1)
  {
    if n > 0 {
      PatternAt(ac, tbl, i, w, n - 1);
      forall c | 0 <= c < n
        ensures Pattern(ac, tbl, i, w, n)[c] == Decision(BinAt(ac, tbl, i), w / Pow2(n - 1 - c) % 2 == 1)
      {
        if c > 0 {
          assert Pattern(ac, tbl, i, w, n - 1)[c - 1]
                 == Decision(BinAt(ac, tbl, i), w / Pow2(n - 1 - 1 - (c - 1)) % 2 == 1);
        }
      }
    }
  }

  /** Is the magnitude less one at least 2^e, 2^(e+1), and so on, each in the next bin from `x`, until it is not; then
      its bits below the leading one, all in the bin that lies 14 behind the last. */
  ghost predicate SaysMagnitude(ds: seq<Decision>, ac: bool, tbl: nat, x: nat, e: nat, w: nat)
    requires w > 0 && Log2(w) + 1 >= e
  {
    var n := Log2(w) + 1 - e;
    && |ds| == n + 1 + Log2(w)
    && (forall c :: 0 <= c <= n ==> ds[c] == Decision(BinAt(ac, tbl, x + c), w >= Pow2(e + c)))
    && forall c :: n < c < |ds| ==>
         ds[c] == Decision(BinAt(ac, tbl, x + n + 14), w / Pow2(|ds| - 1 - c) % 2 == 1)
  }

  lemma CategorySays(ac: bool, tbl: nat, x: nat, e: nat, w: nat)
    requires w > 0 && Log2(w) + 1 >= e
    ensures SaysMagnitude(Category(ac, tbl, x, Log2(w) + 1 - e, w, Log2(w)), ac, tbl, x, e, w)
  {
    hide Pow2, Log2, BinAt, Climb, Pattern;
    var n := Log2(w) + 1 - e;
    var ds := Category(ac, tbl, x, n, w, Log2(w));
    ClimbAt(ac, tbl, x, n);
    PatternAt(ac, tbl, x + n + 14, w, Log2(w));
    forall c | 0 <= c <= n
      ensures ds[c] == Decision(BinAt(ac, tbl, x + c), w >= Pow2(e + c))
    {
      Reaches(w, e + c);
    }
    forall c | n < c < |ds|
      ensures ds[c] == Decision(BinAt(ac, tbl, x + n + 14), w / Pow2(|ds| - 1 - c) % 2 == 1)
    {
      assert ds[c] == Pattern(ac, tbl, x + n + 14, w, Log2(w))[c - n - 1];
    }
  }

  lemma Reaches(w: nat, e: nat)
    requires w > 0
    ensures w >= Pow2(e) <==> Log2(w) >= e
  {
    hide Pow2, Log2;
    Log2Bounds(w);
    PowerBelow(Log2(w), e);
  }

  /** A DC difference: whether it is zero, its sign, whether its magnitude exceeds one, and the magnitude; the first
      three in the bins of the conditioning context. */
  lemma DcSays(t: DcTable, ctx: nat, diff: int)
    ensures var ds, big := DcDecisions(t, ctx, diff), diff > 1 || diff < -1;
            && |ds| >= 1 && ds[0] == Decision(DcBin(t.tbl, ctx), diff != 0)
            && (diff == 0 ==> |ds| == 1)
            && (diff != 0 ==>
                  && |ds| >= 3 && ds[1] == Decision(DcBin(t.tbl, ctx + 1), diff < 0)
                  && ds[2] == Decision(DcBin(t.tbl, ctx + if diff > 0 then 2 else 3), big)
                  && if big then SaysMagnitude(ds[3..], false, t.tbl, 20, 1, (if diff > 0 then diff else -diff) - 1)
                     else |ds| == 3)
  {
    hide SaysMagnitude, Category, Log2;
    if diff > 1 || diff < -1 {
      var w := (if diff > 0 then diff else -diff) - 1;
      CategorySays(false, t.tbl, 20, 1, w);
      assert DcDecisions(t, ctx, diff)[3..] == Category(false, t.tbl, 20, Log2(w), w, Log2(w));
    }
  }

  /** An AC magnitude of `w + 1`: whether it exceeds one and two, in one bin, and the rest from bin `x` on. */
  lemma AcSays(tbl: nat, st: nat, x: nat, w: nat)
    ensures var ds := AcMagnitude(tbl, st, x, w);
            && |ds| >= 1 && ds[0] == Decision(AcBin(tbl, st), w > 0)
            && (w == 0 ==> |ds| == 1)
            && (w > 0 ==>
                  && |ds| >= 2 && ds[1] == Decision(AcBin(tbl, st), w > 1)
                  && if w > 1 then Log2(w) >= 1 && SaysMagnitude(ds[2..], true, tbl, x, 2, w) else |ds| == 2)
  {
    hide SaysMagnitude, Category;
    if w > 1 {
      CategorySays(true, tbl, x, 2, w);
      assert AcMagnitude(tbl, st, x, w)[2..] == Category(true, tbl, x, Log2(w) - 1, w, Log2(w));
    }
  }

  /** What a bin is for: whether something is zero, a sign, whether a magnitude exceeds one, how many bits it has, what
      they are, whether the block ends, whether a coefficient is nonzero. */
  datatype Role = Zero | Sign | One | Grow | Low | End | Flag

  function RoleOf(bin: Bin): Role {
    match bin
    case FixedBin => Sign
    case DcBin(_, i) =>
      if i < 20 then (if i % 4 == 0 then Zero else if i % 4 == 1 then Sign else One) else if i < 35 then Grow else Low
    case AcBin(_, i) =>
      if i < 189 then (if i % 3 == 0 then End else if i % 3 == 1 then Flag else One)
      else if (i - 189) % 28 < 14 then Grow else Low
  }

  const DC_STAT_BINS := 64
  const AC_STAT_BINS := 256

  /** The areas that the coders allocate for one table. */
  predicate InArea(bin: Bin) {
    match bin
    case FixedBin => true
    case DcBin(_, i) => i < DC_STAT_BINS
    case AcBin(_, i) => i < AC_STAT_BINS
  }

  ghost predicate RolesAre(ds: seq<Decision>, roles: seq<Role>) {
    |ds| == |roles| && forall p :: 0 <= p < |ds| ==> RoleOf(ds[p].bin) == roles[p] && InArea(ds[p].bin)
  }

  function Times(r: Role, n: nat): (s: seq<Role>)
    ensures |s| == n && forall p :: 0 <= p < n ==> s[p] == r
  {
    seq(n, _ => r)
  }

  lemma DcBins(t: DcTable, ctx: nat, diff: int, w: nat)
    requires w == (if diff > 0 then diff else -diff) - 1 && w > 0
    ensures var ds, n := DcDecisions(t, ctx, diff), Log2(w);
            && |ds| == 4 + 2 * n && ds[0].bin == DcBin(t.tbl, ctx) && ds[1].bin == DcBin(t.tbl, ctx + 1)
            && (ds[2].bin == DcBin(t.tbl, ctx + 2) || ds[2].bin == DcBin(t.tbl, ctx + 3))
            && forall p :: 3 <= p < |ds| ==> ds[p].bin == DcBin(t.tbl, if p <= 3 + n then 17 + p else 34 + n)
  {
    hide DcDecisions, Log2;
    DcSays(t, ctx, diff);
    var ds := DcDecisions(t, ctx, diff);
    forall p | 3 <= p < |ds|
      ensures ds[p].bin == DcBin(t.tbl, if p <= 3 + Log2(w) then 17 + p else 34 + Log2(w))
    {
      assert ds[3..][p - 3] == ds[p];
    }
  }

  /** In a DC difference no bin serves two purposes, nor lies outside its area, if and only if the decoder can represent
      the magnitude. */
  lemma DcRoles(t: DcTable, ctx: nat, diff: int)
    requires ctx <= 16 && ctx % 4 == 0
    ensures var ds, w := DcDecisions(t, ctx, diff), (if diff > 0 then diff else -diff) - 1;
            if w < 0 then RolesAre(ds, [Zero])
            else if w == 0 then RolesAre(ds, [Zero, Sign, One])
            else SmallMagnitude(w) <==>
                   RolesAre(ds, [Zero, Sign, One] + (Times(Grow, Log2(w) + 1) + Times(Low, Log2(w))))
  {
    if diff > 1 || diff < -1 {
      var ds, w := DcDecisions(t, ctx, diff), (if diff > 0 then diff else -diff) - 1;
      hide DcDecisions, Log2;
      DcBins(t, ctx, diff, w);
      ManyDcRoles(ds, t.tbl, ctx, Log2(w));
      assert SmallMagnitude(w) <==> Log2(w) < 15;
    }
  }

  lemma ManyDcRoles(ds: seq<Decision>, tbl: nat, ctx: nat, n: nat)
    requires ctx <= 16 && ctx % 4 == 0 && |ds| == 4 + 2 * n
    requires ds[0].bin == DcBin(tbl, ctx) && ds[1].bin == DcBin(tbl, ctx + 1)
    requires ds[2].bin == DcBin(tbl, ctx + 2) || ds[2].bin == DcBin(tbl, ctx + 3)
    requires forall p :: 3 <= p < |ds| ==> ds[p].bin == DcBin(tbl, if p <= 3 + n then 17 + p else 34 + n)
    ensures RolesAre(ds, [Zero, Sign, One] + (Times(Grow, n + 1) + Times(Low, n))) <==> n < 15
  {
    var roles := [Zero, Sign, One] + (Times(Grow, n + 1) + Times(Low, n));
    if n < 15 {
      forall p | 3 <= p < |ds|
        ensures RoleOf(ds[p].bin) == roles[p] && InArea(ds[p].bin)
      {
      }
    } else {
      assert ds[18].bin == DcBin(tbl, 35) && roles[18] == Grow;
    }
  }

  lemma AcBins(tbl: nat, st: nat, x: nat, w: nat)
    requires w > 1
    ensures Log2(w) > 0
    ensures var ds, n := AcMagnitude(tbl, st, x, w), Log2(w);
            && |ds| == 2 + 2 * n && ds[0].bin == ds[1].bin == AcBin(tbl, st)
            && forall p :: 2 <= p < |ds| ==> ds[p].bin == AcBin(tbl, if p <= 1 + n then x + p - 2 else x + n + 13)
  {
    hide AcMagnitude, Log2;
    AcSays(tbl, st, x, w);
    var ds := AcMagnitude(tbl, st, x, w);
    forall p | 2 <= p < |ds|
      ensures ds[p].bin == AcBin(tbl, if p <= 1 + Log2(w) then x + p - 2 else x + Log2(w) + 13)
    {
      assert ds[2..][p - 2] == ds[p];
    }
  }

  /** The same of an AC magnitude, with either of the two areas that Kx selects. */
  lemma AcRoles(tbl: nat, st: nat, x: nat, w: nat)
    requires st < 189 && st % 3 == 2 && (x == 189 || x == 217)
    ensures var ds := AcMagnitude(tbl, st, x, w);
            if w == 0 then RolesAre(ds, [One])
            else if w == 1 then RolesAre(ds, [One, One])
            else Log2(w) > 0 && (SmallMagnitude(w) <==>
                                 RolesAre(ds, [One, One] + (Times(Grow, Log2(w)) + Times(Low, Log2(w)))))
  {
    if w > 1 {
      hide AcMagnitude, Log2;
      AcBins(tbl, st, x, w);
      ManyRoles(AcMagnitude(tbl, st, x, w), tbl, st, x, Log2(w));
      assert SmallMagnitude(w) <==> Log2(w) < 15;
    }
  }

  lemma ManyRoles(ds: seq<Decision>, tbl: nat, st: nat, x: nat, n: nat)
    requires st < 189 && st % 3 == 2 && (x == 189 || x == 217) && n > 0
    requires |ds| == 2 + 2 * n && ds[0].bin == ds[1].bin == AcBin(tbl, st)
    requires forall p :: 2 <= p < |ds| ==> ds[p].bin == AcBin(tbl, if p <= 1 + n then x + p - 2 else x + n + 13)
    ensures RolesAre(ds, [One, One] + (Times(Grow, n) + Times(Low, n))) <==> n < 15
  {
    var roles := [One, One] + (Times(Grow, n) + Times(Low, n));
    if n < 15 {
      forall p | 2 <= p < |ds|
        ensures RoleOf(ds[p].bin) == roles[p] && InArea(ds[p].bin)
      {
      }
    } else {
      assert ds[16].bin == AcBin(tbl, x + 14) && roles[16] == Grow;
    }
  }

  /** What the decisions of one role say, in order. */
  function BitsOf(ds: seq<Decision>, role: Role): seq<bool> {
    if ds == [] then []
    else if RoleOf(ds[0].bin) == role then [ds[0].bit] + BitsOf(ds[1..], role)
    else BitsOf(ds[1..], role)
  }

  lemma {:induction false} BitsOfJoin(a: seq<Decision>, b: seq<Decision>, role: Role)
    ensures BitsOf(a + b, role) == BitsOf(a, role) + BitsOf(b, role)
  {
    if a == [] {
      assert a + b == b;
    } else {
      hide RoleOf;
      BitsOfJoin(a[1..], b, role);
      assert (a + b)[1..] == a[1..] + b;
    }
  }

  lemma {:induction false} NoBitsOf(ds: seq<Decision>, role: Role)
    requires forall p :: 0 <= p < |ds| ==> RoleOf(ds[p].bin) != role
    ensures BitsOf(ds, role) == []
  {
    if ds != [] {
      NoBitsOf(ds[1..], role);
    }
  }

  /** Which of the coefficients `k` to `ke` are nonzero. */
  function Flags(b: Block, al: nat, k: nat, ke: nat): seq<bool>
    requires ke < 64
    decreases ke + 1 - k
  {
    if k > ke then [] else [PointAc(b[k], al) != 0] + Flags(b, al, k + 1, ke)
  }

  /** The signs of those that are. */
  function Signs(b: Block, al: nat, k: nat, ke: nat): seq<bool>
    requires ke < 64
    decreases ke + 1 - k
  {
    if k > ke then [] else (if PointAc(b[k], al) != 0 then [b[k] < 0] else []) + Signs(b, al, k + 1, ke)
  }

  function Count(b: Block, al: nat, k: nat, ke: nat): nat
    requires ke < 64
    decreases ke + 1 - k
  {
    if k > ke then 0 else (if PointAc(b[k], al) != 0 then 1 else 0) + Count(b, al, k + 1, ke)
  }

  /** `n` times "not at the end", then the end if it comes before the band does. */
  function Ends(n: nat, early: bool): seq<bool> {
    if n == 0 then (if early then [true] else []) else [false] + Ends(n - 1, early)
  }

  /** The first decisions of a nonzero coefficient say that and its sign; its magnitude says neither. */
  lemma NonzeroTells(t: AcTable, b: Block, al: nat, k: nat, rest: seq<Decision>, role: Role)
    requires 1 <= k < 64 && IsBlock(b) && PointAc(b[k], al) != 0 && (role == Flag || role == Sign || role == End)
    ensures var ds := [Decision(AcBin(t.tbl, 3 * (k - 1) + 1), true), Decision(FixedBin, b[k] < 0)]
                      + (AcMagnitude(t.tbl, 3 * (k - 1) + 2, if k <= t.kx then 189 else 217, PointAc(b[k], al) - 1)
                         + rest);
            BitsOf(ds, role)
            == (if role == Flag then [true] else if role == Sign then [b[k] < 0] else []) + BitsOf(rest, role)
  {
    hide AcMagnitude, Log2, PointAc, BitsOf;
    var st, x, w := 3 * (k - 1) + 2, if k <= t.kx then 189 else 217, PointAc(b[k], al) - 1;
    var ds := AcMagnitude(t.tbl, st, x, w);
    PointBound(b[k], al);
    CoefIsSmall(w);
    AcRoles(t.tbl, st, x, w);
    NoBitsOf(ds, role);
    BitsOfJoin(ds, rest, role);
    TwoBits(Decision(AcBin(t.tbl, 3 * (k - 1) + 1), true), Decision(FixedBin, b[k] < 0), ds + rest, role);
  }

  lemma CoefIsSmall(w: nat)
    requires w < 0x8000
    ensures SmallMagnitude(w)
  {
    if w > 0 {
      SmallMagnitudes(w);
    }
  }

  lemma TwoBits(d: Decision, e: Decision, rest: seq<Decision>, role: Role)
    ensures BitsOf([d, e] + rest, role)
            == (if RoleOf(d.bin) == role then [d.bit] else []) + (if RoleOf(e.bin) == role then [e.bit] else [])
               + BitsOf(rest, role)
  {
    OneBit(d, [e] + rest, role);
    OneBit(e, rest, role);
    assert [d, e] + rest == [d] + ([e] + rest);
  }

  lemma OneBit(d: Decision, rest: seq<Decision>, role: Role)
    ensures BitsOf([d] + rest, role) == (if RoleOf(d.bin) == role then [d.bit] else []) + BitsOf(rest, role)
  {
    assert ([d] + rest)[1..] == rest;
  }

  /** The three bins of coefficient `k`. */
  lemma SiteBit(tbl: nat, k: nat, m: nat, bit: bool, rest: seq<Decision>, role: Role)
    requires 1 <= k < 64 && m < 3
    ensures BitsOf([Decision(AcBin(tbl, 3 * (k - 1) + m), bit)] + rest, role)
            == if role == (if m == 0 then End else if m == 1 then Flag else One) then [bit] + BitsOf(rest, role)
               else BitsOf(rest, role)
  {
    OneBit(Decision(AcBin(tbl, 3 * (k - 1) + m), bit), rest, role);
  }

  lemma LastBit(tbl: nat, k: nat, role: Role)
    requires 1 <= k < 64
    ensures BitsOf([Decision(AcBin(tbl, 3 * (k - 1)), true)], role) == (if role == End then [true] else [])
  {
    NoBitsOf([], role);
    SiteBit(tbl, k, 0, true, [], role);
    assert [Decision(AcBin(tbl, 3 * (k - 1)), true)] + [] == [Decision(AcBin(tbl, 3 * (k - 1)), true)];
  }

  lemma {:induction false} SomeCounted(b: Block, al: nat, k: nat, ke: nat)
    requires k <= ke < 64 && PointAc(b[ke], al) != 0
    ensures Count(b, al, k, ke) > 0
    decreases ke - k
  {
    if k < ke {
      SomeCounted(b, al, k + 1, ke);
    }
  }

  /** What is sent of a role by `AcDecisions`, or by `AcRun` when the block is known not to end at `k`. */
  function Told(b: Block, al: nat, k: nat, ke: nat, se: nat, run: bool, role: Role): seq<bool>
    requires ke < 64
  {
    if role == Flag then Flags(b, al, k, ke)
    else if role == Sign then Signs(b, al, k, ke)
    else
      var n := Count(b, al, k, ke);
      Ends(if run && n > 0 then n - 1 else n, ke < se)
  }

  lemma ToldRun(b: Block, al: nat, k: nat, ke: nat, se: nat, role: Role)
    requires k <= ke < 64 && PointAc(b[ke], al) != 0 && (role == Flag || role == Sign || role == End)
    ensures Told(b, al, k, ke, se, false, role)
            == (if role == End then [false] else []) + Told(b, al, k, ke, se, true, role)
  {
    hide PointAc, Flags, Signs, Count;
    SomeCounted(b, al, k, ke);
  }

  lemma ToldNonzero(b: Block, al: nat, k: nat, ke: nat, se: nat, role: Role)
    requires k <= ke < 64 && PointAc(b[k], al) != 0 && (role == Flag || role == Sign || role == End)
    ensures Told(b, al, k, ke, se, true, role)
            == (if role == Flag then [true] else if role == Sign then [b[k] < 0] else [])
               + Told(b, al, k + 1, ke, se, false, role)
  {
    hide PointAc, Ends;
  }

  lemma ToldZero(b: Block, al: nat, k: nat, ke: nat, se: nat, role: Role)
    requires k <= ke < 64 && PointAc(b[ke], al) != 0 && (role == Flag || role == Sign || role == End)
    requires PointAc(b[k], al) == 0
    ensures k < ke
    ensures Told(b, al, k, ke, se, true, role)
            == (if role == Flag then [false] else []) + Told(b, al, k + 1, ke, se, true, role)
  {
    hide PointAc, Ends;
  }

  lemma ToldNothing(b: Block, al: nat, k: nat, ke: nat, se: nat, role: Role)
    requires ke < k && ke < 64 && (role == Flag || role == Sign || role == End)
    ensures Told(b, al, k, ke, se, false, role) == if role == End && ke < se then [true] else []
  {
  }

  /** Figure F.5: for each coefficient up to the last nonzero one, whether it is nonzero, and its sign if so; and
      whether the block ends, once before the first and once behind every nonzero one, unless the band ends there. */
  lemma {:induction false} AcTells(t: AcTable, b: Block, al: nat, k: nat, ke: nat, se: nat, run: bool, role: Role)
    requires 1 <= k <= se + 1 && ke <= se < 64 && IsBlock(b) && (ke >= k ==> PointAc(b[ke], al) != 0)
    requires (run ==> k <= ke) && (role == Flag || role == Sign || role == End)
    ensures var ds := if run then AcRun(t, b, al, k, ke, se) else AcDecisions(t, b, al, k, ke, se);
            k <= ke || !run ==> BitsOf(ds, role) == if k <= se then Told(b, al, k, ke, se, run, role) else []
    decreases 64 - k, if run then 0 else 1
  {
    hide PointAc, BitsOf, AcMagnitude, IsBlock, RoleOf, Told;
    if !run {
      if k <= ke {
        AcTells(t, b, al, k, ke, se, true, role);
        ToldRun(b, al, k, ke, se, role);
        SiteBit(t.tbl, k, 0, false, AcRun(t, b, al, k, ke, se), role);
      } else {
        ToldNothing(b, al, k, ke, se, role);
        NoBitsOf([], role);
        if k <= se {
          LastBit(t.tbl, k, role);
        }
      }
    } else if PointAc(b[k], al) != 0 {
      AcTells(t, b, al, k + 1, ke, se, false, role);
      ToldNonzero(b, al, k, ke, se, role);
      NonzeroTells(t, b, al, k, AcDecisions(t, b, al, k + 1, ke, se), role);
      if k == se {
        ToldNothing(b, al, k + 1, ke, se, role);
      }
    } else {
      ToldZero(b, al, k, ke, se, role);
      AcTells(t, b, al, k + 1, ke, se, true, role);
      SiteBit(t.tbl, k, 1, false, AcRun(t, b, al, k + 1, ke, se), role);
    }
  }

  /** What is sent of a first AC scan's band, or of a whole sequential block. */
  lemma BandTells(t: AcTable, b: Block, al: nat, ss: nat, se: nat)
    requires 1 <= ss <= se < 64 && IsBlock(b)
    ensures var ke := LastNonzero(b, al, se);
            var ds := AcDecisions(t, b, al, ss, ke, se);
            && BitsOf(ds, Flag) == Flags(b, al, ss, ke) && BitsOf(ds, Sign) == Signs(b, al, ss, ke)
            && BitsOf(ds, End) == Ends(Count(b, al, ss, ke), ke < se)
  {
    hide PointAc, BitsOf, AcDecisions, Flags, Signs, Count, Ends, IsBlock;
    var ke := LastNonzero(b, al, se);
    AcTells(t, b, al, ss, ke, se, false, Flag);
    AcTells(t, b, al, ss, ke, se, false, Sign);
    AcTells(t, b, al, ss, ke, se, false, End);
  }

  /** Of the coefficients `k` to `ke`, those that were zero so far: which are nonzero now, and their signs; and the next
      bits of the others. */
  function NewFlags(b: Block, al: nat, k: nat, ke: nat): seq<bool>
    requires ke < 64
    decreases ke + 1 - k
  {
    if k > ke then []
    else (if PointAc(b[k], al + 1) == 0 then [PointAc(b[k], al) != 0] else []) + NewFlags(b, al, k + 1, ke)
  }

  function NewSigns(b: Block, al: nat, k: nat, ke: nat): seq<bool>
    requires ke < 64
    decreases ke + 1 - k
  {
    if k > ke then []
    else
      (if PointAc(b[k], al + 1) == 0 && PointAc(b[k], al) != 0 then [b[k] < 0] else []) + NewSigns(b, al, k + 1, ke)
  }

  function NextBits(b: Block, al: nat, k: nat, ke: nat): seq<bool>
    requires ke < 64
    decreases ke + 1 - k
  {
    if k > ke then []
    else (if PointAc(b[k], al + 1) != 0 then [PointAc(b[k], al) % 2 == 1] else []) + NextBits(b, al, k + 1, ke)
  }

  function Refines(b: Block, al: nat, k: nat, kex: nat, ke: nat, se: nat, run: bool, role: Role): seq<bool>
    requires ke < 64
  {
    if role == Flag then NewFlags(b, al, k, ke)
    else if role == Sign then NewSigns(b, al, k, ke)
    else if role == One then NextBits(b, al, k, ke)
    else
      var n := Count(b, al, if k > kex then k else kex + 1, ke);
      Ends(if run && k > kex && n > 0 then n - 1 else n, ke < se)
  }

  /** How that grows by one coefficient. */
  lemma RefinesRun(b: Block, al: nat, k: nat, kex: nat, ke: nat, se: nat, role: Role)
    requires k <= ke < 64 && PointAc(b[ke], al) != 0 && kex <= ke && (kex > 0 ==> PointAc(b[kex], al) != 0) && k > 0
    requires role == Flag || role == Sign || role == End || role == One
    ensures Refines(b, al, k, kex, ke, se, false, role)
            == (if role == End && k > kex then [false] else []) + Refines(b, al, k, kex, ke, se, true, role)
  {
    hide PointAc, NewFlags, NewSigns, NextBits, Count;
    SomeCounted(b, al, k, ke);
  }

  lemma RefinesNonzero(b: Block, al: nat, k: nat, kex: nat, ke: nat, se: nat, role: Role)
    requires k <= ke < 64 && PointAc(b[ke], al) != 0 && kex <= ke && (kex > 0 ==> PointAc(b[kex], al) != 0) && k > 0
    requires role == Flag || role == Sign || role == End || role == One
    requires PointAc(b[k], al) != 0
    ensures Refines(b, al, k, kex, ke, se, true, role)
            == RefinePiece(b, al, k, role) + Refines(b, al, k + 1, kex, ke, se, false, role)
  {
    hide PointAc, Ends;
    PointHalves(b[k], al);
  }

  lemma RefinesZero(b: Block, al: nat, k: nat, kex: nat, ke: nat, se: nat, role: Role)
    requires k <= ke < 64 && PointAc(b[ke], al) != 0 && kex <= ke && (kex > 0 ==> PointAc(b[kex], al) != 0) && k > 0
    requires role == Flag || role == Sign || role == End || role == One
    requires PointAc(b[k], al) == 0
    ensures k < ke && PointAc(b[k], al + 1) == 0
    ensures Refines(b, al, k, kex, ke, se, true, role)
            == (if role == Flag then [false] else []) + Refines(b, al, k + 1, kex, ke, se, true, role)
  {
    hide PointAc, Ends;
    PointHalves(b[k], al);
  }

  function RefinePiece(b: Block, al: nat, k: nat, role: Role): seq<bool>
    requires k < 64
  {
    if role == One && PointAc(b[k], al + 1) != 0 then [PointAc(b[k], al) % 2 == 1]
    else if role == Flag && PointAc(b[k], al + 1) == 0 then [true]
    else if role == Sign && PointAc(b[k], al + 1) == 0 then [b[k] < 0]
    else []
  }

  lemma RefineCoefTells(t: AcTable, b: Block, al: nat, k: nat, rest: seq<Decision>, role: Role)
    requires 1 <= k < 64 && PointAc(b[k], al) != 0 && (role == Flag || role == Sign || role == End || role == One)
    ensures BitsOf(RefineCoef(t, b, al, k) + rest, role)
            == RefinePiece(b, al, k, role) + BitsOf(rest, role)
  {
    hide PointAc, BitsOf;
    PointHalves(b[k], al);
    OneBit(Decision(AcBin(t.tbl, 3 * (k - 1) + 2), PointAc(b[k], al) % 2 == 1), rest, role);
    TwoBits(Decision(AcBin(t.tbl, 3 * (k - 1) + 1), true), Decision(FixedBin, b[k] < 0), rest, role);
  }

  /** Figure G.10: each of the coefficients up to the last nonzero one sends whether it is nonzero now, with its sign if
      so, or its next bit; whether the block ends is not sent up to `kex`. */
  lemma {:induction false} RefineTells(t: AcTable, b: Block, al: nat, k: nat, kex: nat, ke: nat, se: nat, run: bool,
                                       role: Role)
    requires 1 <= k <= se + 1 && ke <= se < 64 && (ke >= k ==> PointAc(b[ke], al) != 0) && kex <= ke
    requires kex > 0 ==> PointAc(b[kex], al) != 0
    requires (run ==> k <= ke) && (role == Flag || role == Sign || role == End || role == One)
    ensures var ds := if run then RefineRun(t, b, al, k, kex, ke, se) else RefineDecisions(t, b, al, k, kex, ke, se);
            k <= ke || !run ==> BitsOf(ds, role) == if k <= se then Refines(b, al, k, kex, ke, se, run, role) else []
    decreases 64 - k, if run then 0 else 1
  {
    hide PointAc, BitsOf, RefineCoef, RoleOf, Refines, RefinePiece;
    if !run {
      if k <= ke {
        RefinesRun(b, al, k, kex, ke, se, role);
        RefineTells(t, b, al, k, kex, ke, se, true, role);
        SiteBit(t.tbl, k, 0, false, RefineRun(t, b, al, k, kex, ke, se), role);
        assert [] + RefineRun(t, b, al, k, kex, ke, se) == RefineRun(t, b, al, k, kex, ke, se);
      } else {
        RefinesNothing(b, al, k, kex, ke, se, role);
        NoBitsOf([], role);
        if k <= se {
          LastBit(t.tbl, k, role);
        }
      }
    } else if PointAc(b[k], al) != 0 {
      RefinesNonzero(b, al, k, kex, ke, se, role);
      RefineTells(t, b, al, k + 1, kex, ke, se, false, role);
      RefineCoefTells(t, b, al, k, RefineDecisions(t, b, al, k + 1, kex, ke, se), role);
      if k == se {
        RefinesNothing(b, al, k + 1, kex, ke, se, role);
      }
    } else {
      RefinesZero(b, al, k, kex, ke, se, role);
      RefineTells(t, b, al, k + 1, kex, ke, se, true, role);
      SiteBit(t.tbl, k, 1, false, RefineRun(t, b, al, k + 1, kex, ke, se), role);
    }
  }

  lemma RefinesNothing(b: Block, al: nat, k: nat, kex: nat, ke: nat, se: nat, role: Role)
    requires ke < k && ke < 64 && kex <= ke && (role == Flag || role == Sign || role == End || role == One)
    ensures Refines(b, al, k, kex, ke, se, false, role) == if role == End && ke < se then [true] else []
  {
  }

  /** What is sent of a refinement scan's band. */
  lemma RefinementTells(t: AcTable, b: Block, al: nat, ss: nat, se: nat)
    requires 1 <= ss <= se < 64
    ensures var ke := LastNonzero(b, al, se);
            var kex := LastNonzero(b, al + 1, ke);
            var ds := RefineDecisions(t, b, al, ss, kex, ke, se);
            && BitsOf(ds, Flag) == NewFlags(b, al, ss, ke) && BitsOf(ds, Sign) == NewSigns(b, al, ss, ke)
            && BitsOf(ds, One) == NextBits(b, al, ss, ke)
            && BitsOf(ds, End) == Ends(Count(b, al, if ss > kex then ss else kex + 1, ke), ke < se)
  {
    hide PointAc, BitsOf, RefineDecisions, NewFlags, NewSigns, NextBits, Count, Ends;
    var ke := LastNonzero(b, al, se);
    var kex := LastNonzero(b, al + 1, ke);
    PointHalves(b[kex], al);
    RefineTells(t, b, al, ss, kex, ke, se, false, Flag);
    RefineTells(t, b, al, ss, kex, ke, se, false, Sign);
    RefineTells(t, b, al, ss, kex, ke, se, false, One);
    RefineTells(t, b, al, ss, kex, ke, se, false, End);
  }

  /** The last block of component `ci` among blocks `i` to `n - 1` of an MCU. */
  function LastBlock(l: McuLayout, ci: nat, i: nat, n: nat): (m: int)
    requires i <= n <= |l.membership|
    ensures m == -1 || (i <= m < n && l.membership[m] == ci)
    ensures forall j :: i <= j < n && l.membership[j] == ci ==> j <= m
  {
    if n == i then -1 else if l.membership[n - 1] == ci then n - 1 else LastBlock(l, ci, i, n - 1)
  }

  /** The prediction behind an MCU: for each component the DC value of its last block, and the category of that block's
      difference from the value predicted for it. */
  lemma {:induction false} PredictionIs(l: McuLayout, p: Prediction, mcu: seq<Block>, i: nat, al: nat, ci: nat)
    requires GoodLayout(l) && GoodPrediction(l, p) && i <= |mcu| == |l.membership| && ci < |l.dc|
    ensures var r, m := McuPrediction(l, p, mcu, i, al), LastBlock(l, ci, i, |mcu|);
            if m < 0 then r.last[ci] == p.last[ci] && r.ctx[ci] == p.ctx[ci]
            else
              var before := LastBlock(l, ci, i, m);
              var pred := if before < 0 then p.last[ci] else PointDc(mcu[before][0], al);
              r.last[ci] == PointDc(mcu[m][0], al) && r.ctx[ci] == DcContext(l.dc[ci], PointDc(mcu[m][0], al) - pred)
    decreases |mcu| - i
  {
    hide PointDc, DcContext;
    if i < |mcu| {
      var q := Predict(l, p, i, mcu[i], al);
      PredictionIs(l, q, mcu, i + 1, al, ci);
    }
  }

  /** Of the two areas for magnitudes, the upper one or the lower one. */
  predicate OnSide(bin: Bin, upper: bool) {
    bin.AcBin? ==> bin.i < 189 || if upper then 217 <= bin.i < 245 else bin.i < 217
  }

  ghost predicate AllOn(ds: seq<Decision>, upper: bool) {
    forall p :: 0 <= p < |ds| ==> OnSide(ds[p].bin, upper)
  }

  lemma Joined(a: seq<Decision>, b: seq<Decision>, upper: bool)
    requires AllOn(a, upper) && AllOn(b, upper)
    ensures AllOn(a + b, upper)
  {
  }

  /** The upper one is used for coefficients above Kx only, the lower one for the others only. */
  lemma {:induction false} KxSelects(t: AcTable, b: Block, al: nat, k: nat, ke: nat, se: nat, run: bool, upper: bool)
    requires 1 <= k <= 64 && ke <= se < 64 && IsBlock(b) && (run ==> k <= ke)
    requires if upper then t.kx < k else ke <= t.kx
    ensures AllOn(if run then AcRun(t, b, al, k, ke, se) else AcDecisions(t, b, al, k, ke, se), upper)
    decreases 64 - k, if run then 0 else 1
  {
    hide PointAc, AcMagnitude, IsBlock, AllOn;
    var st := 3 * (k - 1);
    if !run {
      if k <= ke {
        KxSelects(t, b, al, k, ke, se, true, upper);
        LowBins([Decision(AcBin(t.tbl, st), false)], upper);
        Joined([Decision(AcBin(t.tbl, st), false)], AcRun(t, b, al, k, ke, se), upper);
      } else if k <= se {
        LowBins([Decision(AcBin(t.tbl, st), true)], upper);
      } else {
        LowBins([], upper);
      }
    } else if PointAc(b[k], al) != 0 {
      var head := [Decision(AcBin(t.tbl, st + 1), true), Decision(FixedBin, b[k] < 0)];
      var x := if k <= t.kx then 189 else 217;
      var mag, rest := AcMagnitude(t.tbl, st + 2, x, PointAc(b[k], al) - 1), AcDecisions(t, b, al, k + 1, ke, se);
      KxSelects(t, b, al, k + 1, ke, se, false, upper);
      MagnitudeSide(t, b, al, k, upper);
      LowBins(head, upper);
      Joined(mag, rest, upper);
      Joined(head, mag + rest, upper);
    } else if k < ke {
      var head := [Decision(AcBin(t.tbl, st + 1), false)];
      KxSelects(t, b, al, k + 1, ke, se, true, upper);
      LowBins(head, upper);
      Joined(head, AcRun(t, b, al, k + 1, ke, se), upper);
    } else {
      LowBins([], upper);
    }
  }

  lemma LowBins(ds: seq<Decision>, upper: bool)
    requires forall p :: 0 <= p < |ds| ==> ds[p].bin.AcBin? ==> ds[p].bin.i < 189
    ensures AllOn(ds, upper)
  {
  }

  lemma MagnitudeSide(t: AcTable, b: Block, al: nat, k: nat, upper: bool)
    requires 1 <= k < 64 && IsBlock(b) && PointAc(b[k], al) != 0 && (upper <==> t.kx < k)
    ensures var x := if k <= t.kx then 189 else 217;
            AllOn(AcMagnitude(t.tbl, 3 * (k - 1) + 2, x, PointAc(b[k], al) - 1), upper)
  {
    var st, x, w := 3 * (k - 1) + 2, if k <= t.kx then 189 else 217, PointAc(b[k], al) - 1;
    PointBound(b[k], al);
    CoefIsSmall(w);
    if w > 1 {
      AcBins(t.tbl, st, x, w);
    }
    hide PointAc, Log2;
    if w > 1 {
      hide AcMagnitude;
    }
  }
}
