/** The MCU encoders of `jcarith.c`: coefficient blocks turned into binary decisions. */
module ArithMcuEncoder {
  import opened Numbers
  import opened IntervalCoder
  import opened ArithModel
  import opened ArithEncoder

  /** Concatenation one decision at a time. */
  lemma AppendOne(l: seq<Decision>, d: Decision, s: seq<Decision>)
    ensures l + ([d] + s) == (l + [d]) + s
  {
  }

  /** Figure F.8 after its first decisions: one decision per further doubling of `v2`, then a zero. */
  method EncodeCategory(e: Encoder, ac: bool, tbl: nat, x: nat, v2: nat, m: nat, ghost bits: nat)
    returns (st: nat, m': nat)
    requires e.Valid() && v2 > 0 && m == Pow2(bits)
    modifies e
    ensures e.Valid() && e.base == old(e.base) && e.stats0 == old(e.stats0)
    ensures st == x + Log2(v2) && m' == Pow2(bits + Log2(v2))
    ensures e.log == old(e.log) + Climb(ac, tbl, x, Log2(v2)) + [Decision(BinAt(ac, tbl, st), false)]
  {
    hide Encoder.Valid;
    var v := v2;
    st, m' := x, m;
    ghost var j := 0;
    ghost var all := Climb(ac, tbl, x, Log2(v2));
    v := v / 2;
    while v > 0
      invariant e.Valid() && e.base == old(e.base) && e.stats0 == old(e.stats0)
      invariant j <= Log2(v2) && st == x + j && m' == Pow2(bits + j)
      invariant if v > 0 then Log2(v) == Log2(v2) - j - 1 else j == Log2(v2)
      invariant e.log + Climb(ac, tbl, st, Log2(v2) - j) == old(e.log) + all
    {
      AppendOne(e.log, Decision(BinAt(ac, tbl, st), true), Climb(ac, tbl, st + 1, Log2(v2) - j - 1));
      e.Encode(BinAt(ac, tbl, st), true);
      m' := 2 * m';
      st := st + 1;
      j := j + 1;
      v := v / 2;
    }
    e.Encode(BinAt(ac, tbl, st), false);
  }

  /** Figure F.9: the bits of `v` below the power of two `m`. */
  method EncodePattern(e: Encoder, ac: bool, tbl: nat, st: nat, v: nat, m: nat, ghost n: nat)
    requires e.Valid() && m == Pow2(n)
    modifies e
    ensures e.Valid() && e.base == old(e.base) && e.stats0 == old(e.stats0)
    ensures e.log == old(e.log) + Pattern(ac, tbl, st, v, n)
  {
    hide Encoder.Valid;
    var b := m;
    ghost var k: nat := n;
    b := b / 2;
    while b > 0
      invariant e.Valid() && e.base == old(e.base) && e.stats0 == old(e.stats0)
      invariant k <= n && b == Pow2(k) / 2
      invariant e.log + Pattern(ac, tbl, st, v, k) == old(e.log) + Pattern(ac, tbl, st, v, n)
    {
      assert k > 0 && b == Pow2(k - 1);
      AppendOne(e.log, Decision(BinAt(ac, tbl, st), v / b % 2 == 1), Pattern(ac, tbl, st, v, k - 1));
      e.Encode(BinAt(ac, tbl, st), v / b % 2 == 1);
      k := k - 1;
      b := b / 2;
    }
  }

  /** Figures F.8 and F.9 for a DC difference of magnitude `w + 1`; returns the category `m`. */
  method EncodeDcMagnitude(e: Encoder, tbl: nat, st0: nat, w: nat) returns (m: nat)
    requires e.Valid()
    modifies e
    ensures e.Valid() && e.base == old(e.base) && e.stats0 == old(e.stats0)
    ensures e.log == old(e.log) + DcMagnitude(tbl, st0, w)
    ensures m == if w == 0 then 0 else Pow2(Log2(w))
  {
    hide Encoder.Valid, Pow2, Log2, Climb, Pattern;
    var st := st0;
    m := 0;
    if w != 0 {
      e.Encode(DcBin(tbl, st), true);
      ghost var l := e.log;
      Powers();
      st, m := EncodeCategory(e, false, tbl, 20, w, 1, 0);
      st := st + 14;
      EncodePattern(e, false, tbl, st, w, m, Log2(w));
      Join(l, Climb(false, tbl, 20, Log2(w)), Decision(DcBin(tbl, st - 14), false),
           Pattern(false, tbl, st, w, Log2(w)));
      AppendOne(old(e.log), Decision(DcBin(tbl, st0), true), Category(false, tbl, 20, Log2(w), w, Log2(w)));
    } else {
      e.Encode(DcBin(tbl, st), false);
    }
  }

  lemma Join(l: seq<Decision>, a: seq<Decision>, d: Decision, b: seq<Decision>)
    ensures l + a + [d] + b == l + (a + ([d] + b))
  {
  }

  /** Figure F.4, with the conditioning of section F.1.4.4.1.2; returns the new context. */
  method EncodeDcDiff(e: Encoder, t: DcTable, ctx: nat, diff: int) returns (ctx': nat)
    requires e.Valid()
    modifies e
    ensures e.Valid() && e.base == old(e.base) && e.stats0 == old(e.stats0)
    ensures e.log == old(e.log) + DcDecisions(t, ctx, diff)
    ensures ctx' == DcContext(t, diff)
  {
    hide Encoder.Valid, Pow2, Log2, DcMagnitude;
    var st := ctx;
    var v := diff;
    if v == 0 {
      e.Encode(DcBin(t.tbl, st), false);
      ctx' := 0;
    } else {
      e.Encode(DcBin(t.tbl, st), true);
      if v > 0 {
        e.Encode(DcBin(t.tbl, st + 1), false);
        st := st + 2;
        ctx' := 4;
      } else {
        v := -v;
        e.Encode(DcBin(t.tbl, st + 1), true);
        st := st + 3;
        ctx' := 8;
      }
      var m := EncodeDcMagnitude(e, t.tbl, st, v - 1);
      if m < Pow2(t.lower) / 2 {
        ctx' := 0;
      } else if m > Pow2(t.upper) / 2 {
        ctx' := ctx' + 8;
      }
    }
  }

  /** Figures F.8 and F.9 for an AC coefficient of magnitude `w + 1` at index `k`. */
  method EncodeAcMagnitude(e: Encoder, t: AcTable, st0: nat, k: nat, w: nat)
    requires e.Valid()
    modifies e
    ensures e.Valid() && e.base == old(e.base) && e.stats0 == old(e.stats0)
    ensures e.log == old(e.log) + AcMagnitude(t.tbl, st0, if k <= t.kx then 189 else 217, w)
  {
    hide Encoder.Valid, Pow2, Climb, Pattern;
    var st := st0;
    var m := 0;
    var x := if k <= t.kx then 189 else 217;
    if w != 0 {
      e.Encode(AcBin(t.tbl, st), true);
      m := 1;
      var v2 := w / 2;
      if v2 != 0 {
        e.Encode(AcBin(t.tbl, st), true);
        m := 2;
        st := x;
        Powers();
        st, m := EncodeCategory(e, true, t.tbl, st, v2, m, 1);
        st := st + 14;
        EncodePattern(e, true, t.tbl, st, w, m, Log2(w));
        Join(old(e.log) + [Decision(AcBin(t.tbl, st0), true)] + [Decision(AcBin(t.tbl, st0), true)],
             Climb(true, t.tbl, x, Log2(v2)), Decision(AcBin(t.tbl, st - 14), false),
             Pattern(true, t.tbl, st, w, Log2(w)));
        assert Log2(w) == 1 + Log2(v2);
        AppendTwo(old(e.log), Decision(AcBin(t.tbl, st0), true), Category(true, t.tbl, x, Log2(w) - 1, w, Log2(w)));
      } else {
        e.Encode(AcBin(t.tbl, st), false);
        OneLeft(w);
      }
    } else {
      e.Encode(AcBin(t.tbl, st), false);
    }
  }

  lemma AppendTwo(l: seq<Decision>, d: Decision, s: seq<Decision>)
    ensures l + ([d, d] + s) == l + [d] + [d] + s
  {
  }

  lemma Powers()
    ensures Pow2(0) == 1 && Pow2(1) == 2
  {
  }

  lemma OneLeft(w: nat)
    requires w / 2 == 0 && w != 0
    ensures w == 1
  {
  }

  /** "Establish EOB (end-of-block) index". */
  method FindLast(b: Block, al: nat, from: nat) returns (ke: nat)
    requires from < 64
    ensures ke == LastNonzero(b, al, from)
  {
    ke := from;
    while ke > 0
      invariant ke <= from && LastNonzero(b, al, ke) == LastNonzero(b, al, from)
    {
      if PointAc(b[ke], al) != 0 {
        break;
      }
      ke := ke - 1;
    }
  }

  /** The coefficient loop of `encode_mcu_AC_first`; of `encode_mcu` when ss = 1, se = 63, al = 0. */
  method EncodeAcFirst(e: Encoder, t: AcTable, b: Block, ss: nat, se: nat, al: nat)
    requires e.Valid() && 1 <= ss <= se < 64
    modifies e
    ensures e.Valid() && e.base == old(e.base) && e.stats0 == old(e.stats0)
    ensures e.log == old(e.log) + AcDecisions(t, b, al, ss, LastNonzero(b, al, se), se)
  {
    hide Encoder.Valid, PointAc, LastNonzero, AcMagnitude, AcDecisions, AcRun;
    var ke := FindLast(b, al, se);
    ghost var goal := e.log + AcDecisions(t, b, al, ss, ke, se);
    var k := ss;
    while k <= ke
      invariant e.Valid() && e.base == old(e.base) && e.stats0 == old(e.stats0)
      invariant ss <= k && e.log + AcDecisions(t, b, al, k, ke, se) == goal
    {
      var st := 3 * (k - 1);
      AcBegins(e.log, t, b, al, k, ke, se);
      e.Encode(AcBin(t.tbl, st), false);
      var v := PointAc(b[k], al);
      while v == 0
        invariant e.Valid() && e.base == old(e.base) && e.stats0 == old(e.stats0)
        invariant ss <= k <= ke && st == 3 * (k - 1) && v == PointAc(b[k], al)
        invariant e.log + AcRun(t, b, al, k, ke, se) == goal
        decreases ke - k
      {
        AcZero(e.log, t, b, al, k, ke, se);
        e.Encode(AcBin(t.tbl, st + 1), false);
        st := st + 3;
        k := k + 1;
        v := PointAc(b[k], al);
      }
      AcNonzero(e.log, t, b, al, k, ke, se);
      e.Encode(AcBin(t.tbl, st + 1), true);
      e.Encode(FixedBin, b[k] < 0);
      EncodeAcMagnitude(e, t, st + 2, k, v - 1);
      k := k + 1;
    }
    AcEnds(t, b, al, k, ke, se);
    if k <= se {
      e.Encode(AcBin(t.tbl, 3 * (k - 1)), true);
    }
    assert e.log == goal;
  }

  lemma AcBegins(l: seq<Decision>, t: AcTable, b: Block, al: nat, k: nat, ke: nat, se: nat)
    requires 1 <= k <= ke <= se < 64
    ensures l + AcDecisions(t, b, al, k, ke, se)
            == (l + [Decision(AcBin(t.tbl, 3 * (k - 1)), false)]) + AcRun(t, b, al, k, ke, se)
  {
    hide AcRun;
    AppendOne(l, Decision(AcBin(t.tbl, 3 * (k - 1)), false), AcRun(t, b, al, k, ke, se));
  }

  lemma AcZero(l: seq<Decision>, t: AcTable, b: Block, al: nat, k: nat, ke: nat, se: nat)
    requires 1 <= k <= ke <= se < 64 && PointAc(b[k], al) == 0 && (ke > 0 ==> PointAc(b[ke], al) != 0)
    ensures k < ke
    ensures l + AcRun(t, b, al, k, ke, se)
            == (l + [Decision(AcBin(t.tbl, 3 * (k - 1) + 1), false)]) + AcRun(t, b, al, k + 1, ke, se)
  {
    hide PointAc, AcDecisions, AcMagnitude;
    AppendOne(l, Decision(AcBin(t.tbl, 3 * (k - 1) + 1), false), AcRun(t, b, al, k + 1, ke, se));
  }

  lemma AcNonzero(l: seq<Decision>, t: AcTable, b: Block, al: nat, k: nat, ke: nat, se: nat)
    requires 1 <= k <= ke <= se < 64 && PointAc(b[k], al) != 0
    ensures l + AcRun(t, b, al, k, ke, se)
            == l + [Decision(AcBin(t.tbl, 3 * (k - 1) + 1), true)] + [Decision(FixedBin, b[k] < 0)]
               + AcMagnitude(t.tbl, 3 * (k - 1) + 2, if k <= t.kx then 189 else 217, PointAc(b[k], al) - 1)
               + AcDecisions(t, b, al, k + 1, ke, se)
  {
    hide PointAc, AcDecisions, AcMagnitude;
    NonzeroCoef(l, Decision(AcBin(t.tbl, 3 * (k - 1) + 1), true), Decision(FixedBin, b[k] < 0),
                AcMagnitude(t.tbl, 3 * (k - 1) + 2, if k <= t.kx then 189 else 217, PointAc(b[k], al) - 1),
                AcDecisions(t, b, al, k + 1, ke, se));
  }

  lemma AcEnds(t: AcTable, b: Block, al: nat, k: nat, ke: nat, se: nat)
    requires 1 <= k && ke < k && ke <= se < 64
    ensures AcDecisions(t, b, al, k, ke, se) == if k <= se then [Decision(AcBin(t.tbl, 3 * (k - 1)), true)] else []
  {
  }

  lemma NonzeroCoef(l: seq<Decision>, d1: Decision, d2: Decision, a: seq<Decision>, b: seq<Decision>)
    ensures l + ([d1, d2] + (a + b)) == l + [d1] + [d2] + a + b
  {
  }

  /** The zero coefficients in front of the next nonzero one. */
  method RefineZeros(e: Encoder, t: AcTable, b: Block, se: nat, al: nat, k0: nat, ghost kex: nat, ke: nat,
                     ghost goal: seq<Decision>)
    returns (k: nat)
    requires e.Valid() && 1 <= k0 <= ke <= se < 64 && ke == LastNonzero(b, al, se)
    requires e.log + RefineRun(t, b, al, k0, kex, ke, se) == goal
    modifies e
    ensures e.Valid() && e.base == old(e.base) && e.stats0 == old(e.stats0)
    ensures k0 <= k <= ke && PointAc(b[k], al) != 0
    ensures e.log + RefineRun(t, b, al, k, kex, ke, se) == goal
  {
    hide Encoder.Valid, PointAc, LastNonzero, RefineDecisions;
    k := k0;
    var st := 3 * (k - 1);
    var v := PointAc(b[k], al);
    while v == 0
      invariant e.Valid() && e.base == old(e.base) && e.stats0 == old(e.stats0)
      invariant k0 <= k <= ke && st == 3 * (k - 1) && v == PointAc(b[k], al)
      invariant e.log + RefineRun(t, b, al, k, kex, ke, se) == goal
      decreases ke - k
    {
      AppendOne(e.log, Decision(AcBin(t.tbl, st + 1), false), RefineRun(t, b, al, k + 1, kex, ke, se));
      e.Encode(AcBin(t.tbl, st + 1), false);
      st := st + 3;
      k := k + 1;
      v := PointAc(b[k], al);
    }
  }

  method EncodeRefineCoef(e: Encoder, t: AcTable, b: Block, al: nat, k: nat)
    requires e.Valid() && 1 <= k < 64
    modifies e
    ensures e.Valid() && e.base == old(e.base) && e.stats0 == old(e.stats0)
    ensures e.log == old(e.log) + RefineCoef(t, b, al, k)
  {
    hide Encoder.Valid, PointAc;
    var v, st := PointAc(b[k], al), 3 * (k - 1);
    if v / 2 != 0 {
      e.Encode(AcBin(t.tbl, st + 2), v % 2 == 1);
    } else {
      AppendTwoDecisions(e.log, Decision(AcBin(t.tbl, st + 1), true), Decision(FixedBin, b[k] < 0));
      e.Encode(AcBin(t.tbl, st + 1), true);
      e.Encode(FixedBin, b[k] < 0);
    }
  }

  /** The coefficient loop of `encode_mcu_AC_refine`. */
  method EncodeAcRefine(e: Encoder, t: AcTable, b: Block, ss: nat, se: nat, ah: nat, al: nat)
    requires e.Valid() && 1 <= ss <= se < 64 && ah == al + 1
    modifies e
    ensures e.Valid() && e.base == old(e.base) && e.stats0 == old(e.stats0)
    ensures var ke := LastNonzero(b, al, se);
            e.log == old(e.log) + RefineDecisions(t, b, al, ss, LastNonzero(b, ah, ke), ke, se)
  {
    hide Encoder.Valid, PointAc, LastNonzero, RefineCoef, RefineRun, RefineDecisions;
    var ke := FindLast(b, al, se);
    var kex := FindLast(b, ah, ke);
    ghost var goal := e.log + RefineDecisions(t, b, al, ss, kex, ke, se);
    var k := ss;
    while k <= ke
      invariant e.Valid() && e.base == old(e.base) && e.stats0 == old(e.stats0)
      invariant ss <= k && e.log + RefineDecisions(t, b, al, k, kex, ke, se) == goal
    {
      var st := 3 * (k - 1);
      RefineBegins(e.log, t, b, al, k, kex, ke, se);
      if k > kex {
        e.Encode(AcBin(t.tbl, st), false);
      }
      k := RefineZeros(e, t, b, se, al, k, kex, ke, goal);
      RefineNonzero(e.log, t, b, al, k, kex, ke, se);
      EncodeRefineCoef(e, t, b, al, k);
      k := k + 1;
    }
    RefineEnds(t, b, al, k, kex, ke, se);
    if k <= se {
      e.Encode(AcBin(t.tbl, 3 * (k - 1)), true);
    }
    assert e.log == goal;
  }

  lemma RefineBegins(l: seq<Decision>, t: AcTable, b: Block, al: nat, k: nat, kex: nat, ke: nat, se: nat)
    requires 1 <= k <= ke <= se < 64
    ensures l + RefineDecisions(t, b, al, k, kex, ke, se)
            == (if k > kex then l + [Decision(AcBin(t.tbl, 3 * (k - 1)), false)] else l)
               + RefineRun(t, b, al, k, kex, ke, se)
  {
    hide RefineRun;
    AppendOne(l, Decision(AcBin(t.tbl, 3 * (k - 1)), false), RefineRun(t, b, al, k, kex, ke, se));
    AppendNone(l, RefineRun(t, b, al, k, kex, ke, se));
  }

  lemma RefineNonzero(l: seq<Decision>, t: AcTable, b: Block, al: nat, k: nat, kex: nat, ke: nat, se: nat)
    requires 1 <= k <= ke <= se < 64 && PointAc(b[k], al) != 0
    ensures l + RefineRun(t, b, al, k, kex, ke, se)
            == (l + RefineCoef(t, b, al, k)) + RefineDecisions(t, b, al, k + 1, kex, ke, se)
  {
    hide PointAc, RefineCoef, RefineDecisions;
    Assoc(l, RefineCoef(t, b, al, k), RefineDecisions(t, b, al, k + 1, kex, ke, se));
  }

  lemma RefineEnds(t: AcTable, b: Block, al: nat, k: nat, kex: nat, ke: nat, se: nat)
    requires 1 <= k && ke < k && ke <= se < 64
    ensures RefineDecisions(t, b, al, k, kex, ke, se)
            == if k <= se then [Decision(AcBin(t.tbl, 3 * (k - 1)), true)] else []
  {
  }

  lemma AppendNone(l: seq<Decision>, s: seq<Decision>)
    ensures l + ([] + s) == l + s
  {
  }

  lemma Assoc(l: seq<Decision>, a: seq<Decision>, b: seq<Decision>)
    ensures l + (a + b) == l + a + b
  {
  }

  lemma AppendTwoDecisions(l: seq<Decision>, d1: Decision, d2: Decision)
    ensures l + [d1, d2] == l + [d1] + [d2]
  {
  }
}
