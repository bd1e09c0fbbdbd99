/** The MCU decoders of `jdarith.c`, inverting the binarisation of the encoder. */
module ArithMcuDecoder {
  import opened Numbers
  import opened IntervalCoder
  import opened ArithModel
  import opened ArithDecoder

  /** The decisions `ds` are what is left of the script. */
  ghost predicate Next(script: seq<Decision>, k: nat, ds: seq<Decision>) {
    k <= |script| && ds == script[k..]
  }

  lemma NextHead(script: seq<Decision>, k: nat, d: Decision, rest: seq<Decision>)
    requires Next(script, k, [d] + rest)
    ensures k < |script| && script[k] == d && Next(script, k + 1, rest)
  {
  }

  lemma Unfold(d: Decision, a: seq<Decision>, b: seq<Decision>)
    ensures ([d] + a) + b == [d] + (a + b)
  {
  }

  lemma {:induction false} Log2Bounds(w: nat)
    requires w > 0
    ensures Pow2(Log2(w)) <= w < 2 * Pow2(Log2(w))
  {
    if w > 1 {
      Log2Bounds(w / 2);
    }
  }

  /** Figure F.23 after its first decisions. Fails exactly when the category would reach 0x8000. */
  method DecodeCategory(d: Decoder, ac: bool, tbl: nat, x: nat, m0: nat, ghost bits: nat, ghost n: nat,
                        ghost rest: seq<Decision>)
    returns (ok: bool, st: nat, m: nat)
    requires d.Valid() && bits < 15 && m0 == Pow2(bits)
    requires Next(d.script, d.k, Climb(ac, tbl, x, n) + ([Decision(BinAt(ac, tbl, x + n), false)] + rest))
    modifies d`pos, d`unreadMarker, d`m, d`c, d`a, d`ct, d`iv, d`stats, d`k
    ensures ok <==> bits + n < 15
    ensures ok ==> d.Valid() && Next(d.script, d.k, rest) && st == x + n && m == Pow2(bits + n)
    ensures !ok ==> d.ct == -1
  {
    hide Decoder.Valid, Next, BinAt;
    ok, st, m := true, x, m0;
    ghost var j: nat := 0;
    ghost var last := [Decision(BinAt(ac, tbl, x + n), false)] + rest;
    ClimbStep(d.script, d.k, ac, tbl, x, n, rest);
    var bit := d.Decode(BinAt(ac, tbl, st));
    while bit
      invariant d.Valid() && j <= n && bits + j < 15 && st == x + j && m == Pow2(bits + j)
      invariant bit <==> j < n
      invariant if bit then Next(d.script, d.k, Climb(ac, tbl, st + 1, n - j - 1) + last) else Next(d.script, d.k, rest)
      decreases n - j
    {
      m := 2 * m;
      j := j + 1;
      PowerReached(bits + j);
      if m == 0x8000 {
        d.ct := -1;
        ok := false;
        return;
      }
      st := st + 1;
      ClimbStep(d.script, d.k, ac, tbl, st, n - j, rest);
      bit := d.Decode(BinAt(ac, tbl, st));
    }
  }

  lemma PowerReached(e: nat)
    ensures e <= 15 ==> (Pow2(e) == 0x8000 <==> e == 15)
  {
    Pow2Values();
    if e < 15 {
      Pow2Monotone(e, 14);
    }
  }

  /** The next category decision is a one, or the zero that ends the category. */
  lemma ClimbStep(script: seq<Decision>, k: nat, ac: bool, tbl: nat, x: nat, n: nat, rest: seq<Decision>)
    requires Next(script, k, Climb(ac, tbl, x, n) + ([Decision(BinAt(ac, tbl, x + n), false)] + rest))
    ensures k < |script| && script[k] == Decision(BinAt(ac, tbl, x), n > 0)
    ensures n > 0 ==>
              Next(script, k + 1, Climb(ac, tbl, x + 1, n - 1) + ([Decision(BinAt(ac, tbl, x + n), false)] + rest))
    ensures n == 0 ==> Next(script, k + 1, rest)
  {
  }

  /** Figure F.24: the low `n` bits of `w`. The bit `m` of `v` is clear when it is set. */
  method DecodePattern(d: Decoder, ac: bool, tbl: nat, st: nat, m0: nat, ghost n: nat, ghost w: nat,
                       ghost rest: seq<Decision>)
    returns (v: nat)
    requires d.Valid() && w > 0 && n == Log2(w) && m0 == Pow2(n)
    requires Next(d.script, d.k, Pattern(ac, tbl, st, w, n) + rest)
    modifies d`pos, d`unreadMarker, d`m, d`c, d`a, d`ct, d`iv, d`stats, d`k
    ensures d.Valid() && Next(d.script, d.k, rest) && v == w
  {
    hide Decoder.Valid, Next, BinAt, Log2, Pow2;
    v := m0;
    var m := m0;
    ghost var k: nat := n;
    Log2Bounds(w);
    TopBit(w, n);
    m := m / 2;
    while m > 0
      invariant d.Valid() && k <= n && m == Pow2(k) / 2
      invariant v == w / Pow2(k) * Pow2(k)
      invariant Next(d.script, d.k, Pattern(ac, tbl, st, w, k) + rest)
      decreases k
    {
      HalfPower(k);
      PatternStep(d.script, d.k, ac, tbl, st, w, k, rest);
      NextBit(w, k);
      assert v / m % 2 == 0;
      var bit := d.Decode(BinAt(ac, tbl, st));
      if bit {
        v := v + m;
      }
      k := k - 1;
      m := m / 2;
    }
    HalfPower(k);
    PatternDone(d.script, d.k, ac, tbl, st, w, rest);
  }

  lemma HalfPower(k: nat)
    ensures Pow2(0) == 1
    ensures k == 0 <==> Pow2(k) / 2 == 0
    ensures k > 0 ==> Pow2(k) == 2 * Pow2(k - 1)
  {
  }

  lemma TopBit(w: nat, n: nat)
    requires Pow2(n) <= w < 2 * Pow2(n)
    ensures w / Pow2(n) * Pow2(n) == Pow2(n)
  {
    DivUnique(w, Pow2(n), 1, w - Pow2(n));
  }

  lemma NextBit(w: nat, k: nat)
    requires k > 0
    ensures var m := Pow2(k - 1);
            && w / Pow2(k) * Pow2(k) / m % 2 == 0
            && w / m * m == w / Pow2(k) * Pow2(k) + (if w / m % 2 == 1 then m else 0)
  {
    hide Pow2;
    HalfPower(k);
    var m := Pow2(k - 1);
    QuotientNonneg(w, m);
    Halve(w, m);
    BitSum(w / m, m);
  }

  lemma BitSum(q: nat, m: nat)
    requires m > 0
    ensures q / 2 * (2 * m) / m % 2 == 0
    ensures q * m == q / 2 * (2 * m) + (if q % 2 == 1 then m else 0)
  {
    var h := q / 2;
    assert h * (2 * m) == m * (2 * h);
    DivUnique(m * (2 * h), m, 2 * h, 0);
    assert q == 2 * h + q % 2;
    assert q * m == 2 * h * m + q % 2 * m;
  }

  lemma PatternStep(script: seq<Decision>, k: nat, ac: bool, tbl: nat, st: nat, w: nat, n: nat, rest: seq<Decision>)
    requires n > 0 && Next(script, k, Pattern(ac, tbl, st, w, n) + rest)
    ensures k < |script| && script[k] == Decision(BinAt(ac, tbl, st), w / Pow2(n - 1) % 2 == 1)
    ensures Next(script, k + 1, Pattern(ac, tbl, st, w, n - 1) + rest)
  {
  }

  lemma PatternDone(script: seq<Decision>, k: nat, ac: bool, tbl: nat, st: nat, w: nat, rest: seq<Decision>)
    requires Next(script, k, Pattern(ac, tbl, st, w, 0) + rest)
    ensures Next(script, k, rest)
    ensures Pow2(0) == 1
  {
  }

  lemma CategorySplit(ac: bool, tbl: nat, x: nat, n: nat, w: nat, bits: nat, rest: seq<Decision>)
    ensures Category(ac, tbl, x, n, w, bits) + rest
         == Climb(ac, tbl, x, n) + ([Decision(BinAt(ac, tbl, x + n), false)]
                                    + (Pattern(ac, tbl, x + n + 14, w, bits) + rest))
  {
  }

  /** A magnitude the decoder can represent: its category stays below 0x8000. */
  predicate SmallMagnitude(w: nat) {
    w == 0 || Log2(w) < 15
  }

  lemma SmallMagnitudes(w: nat)
    ensures SmallMagnitude(w) <==> w < 0x8000
  {
    if w > 0 {
      Log2Bounds(w);
      PowerReached(15);
      if Log2(w) < 15 {
        Pow2Monotone(Log2(w), 14);
        assert Pow2(15) == 2 * Pow2(14);
      } else {
        Pow2Monotone(15, Log2(w));
      }
    }
  }

  /** Figures F.23 and F.24 for a DC difference of magnitude `w + 1`. */
  method DecodeDcMagnitude(d: Decoder, tbl: nat, st0: nat, ghost w: nat, ghost rest: seq<Decision>)
    returns (ok: bool, m: nat, v: nat)
    requires d.Valid() && Next(d.script, d.k, DcMagnitude(tbl, st0, w) + rest)
    modifies d`pos, d`unreadMarker, d`m, d`c, d`a, d`ct, d`iv, d`stats, d`k
    ensures ok <==> SmallMagnitude(w)
    ensures ok ==> d.Valid() && Next(d.script, d.k, rest) && v == w && m == if w == 0 then 0 else Pow2(Log2(w))
    ensures !ok ==> d.ct == -1
  {
    hide Decoder.Valid, Next, Log2, Pow2, Category, Climb, Pattern;
    ok, m, v := true, 0, 0;
    ghost var n := if w == 0 then 0 else Log2(w);
    ghost var body := if w == 0 then [] else Category(false, tbl, 20, n, w, n);
    assert DcMagnitude(tbl, st0, w) == [Decision(DcBin(tbl, st0), w != 0)] + body;
    Unfold(Decision(DcBin(tbl, st0), w != 0), body, rest);
    NextHead(d.script, d.k, Decision(DcBin(tbl, st0), w != 0), body + rest);
    var bit := d.Decode(DcBin(tbl, st0));
    if bit {
      HalfPower(0);
      CategorySplit(false, tbl, 20, n, w, n, rest);
      var st;
      ok, st, m := DecodeCategory(d, false, tbl, 20, 1, 0, n, Pattern(false, tbl, 20 + n + 14, w, n) + rest);
      if !ok {
        return;
      }
      v := DecodePattern(d, false, tbl, st + 14, m, n, w, rest);
    } else {
      assert body + rest == rest;
    }
  }

  /** Figure F.19 and section F.1.4.4.1.2: the difference and the next conditioning context. */
  method DecodeDcDiff(d: Decoder, t: DcTable, ctx: nat, ghost diff: int, ghost rest: seq<Decision>)
    returns (ok: bool, v: int, ctx': nat)
    requires d.Valid() && Next(d.script, d.k, DcDecisions(t, ctx, diff) + rest)
    modifies d`pos, d`unreadMarker, d`m, d`c, d`a, d`ct, d`iv, d`stats, d`k
    ensures ok <==> -0x8000 <= diff <= 0x8000
    ensures ok ==> d.Valid() && Next(d.script, d.k, rest) && v == diff && ctx' == DcContext(t, diff)
    ensures !ok ==> d.ct == -1
  {
    hide Decoder.Valid, Next, Log2, Pow2, DcMagnitude, SmallMagnitude;
    ok, v, ctx' := true, 0, 0;
    ghost var w := if diff == 0 then 0 else (if diff > 0 then diff else -diff) - 1;
    SmallMagnitudes(w);
    ghost var mag := DcMagnitude(t.tbl, ctx + (if diff > 0 then 2 else 3), w);
    if diff == 0 {
      NextHead(d.script, d.k, Decision(DcBin(t.tbl, ctx), false), rest);
    } else {
      UnfoldTwo(Decision(DcBin(t.tbl, ctx), true), Decision(DcBin(t.tbl, ctx + 1), diff < 0), mag, rest);
      NextHead(d.script, d.k, Decision(DcBin(t.tbl, ctx), true),
               [Decision(DcBin(t.tbl, ctx + 1), diff < 0)] + (mag + rest));
      NextHead(d.script, d.k + 1, Decision(DcBin(t.tbl, ctx + 1), diff < 0), mag + rest);
    }
    var bit := d.Decode(DcBin(t.tbl, ctx));
    if bit {
      var sign := d.Decode(DcBin(t.tbl, ctx + 1));
      var m, u;
      ok, m, u := DecodeDcMagnitude(d, t.tbl, ctx + 2 + (if sign then 1 else 0), w, rest);
      if !ok {
        return;
      }
      if m < Pow2(t.lower) / 2 {
        ctx' := 0;
      } else if m > Pow2(t.upper) / 2 {
        ctx' := 12 + (if sign then 4 else 0);
      } else {
        ctx' := 4 + (if sign then 4 else 0);
      }
      v := u + 1;
      if sign {
        v := -v;
      }
    }
  }

  lemma UnfoldTwo(d1: Decision, d2: Decision, a: seq<Decision>, b: seq<Decision>)
    ensures ([d1, d2] + a) + b == [d1] + ([d2] + (a + b))
  {
  }

  /** Figures F.23 and F.24 for an AC coefficient of magnitude `w + 1`. */
  method DecodeAcMagnitude(d: Decoder, t: AcTable, st0: nat, k: nat, ghost w: nat, ghost rest: seq<Decision>)
    returns (ok: bool, v: nat)
    requires d.Valid()
    requires Next(d.script, d.k, AcMagnitude(t.tbl, st0, if k <= t.kx then 189 else 217, w) + rest)
    modifies d`pos, d`unreadMarker, d`m, d`c, d`a, d`ct, d`iv, d`stats, d`k
    ensures ok <==> SmallMagnitude(w)
    ensures ok ==> d.Valid() && Next(d.script, d.k, rest) && v == w
    ensures !ok ==> d.ct == -1
  {
    hide Decoder.Valid, Next, Pow2, Category, Climb, Pattern;
    ok, v := true, 0;
    var x := if k <= t.kx then 189 else 217;
    ghost var n := if w <= 1 then 0 else Log2(w) - 1;
    ghost var one := Decision(AcBin(t.tbl, st0), true);
    ghost var body := if w <= 1 then [] else Category(true, t.tbl, x, n, w, n + 1);
    if w == 0 {
      NextHead(d.script, d.k, Decision(AcBin(t.tbl, st0), false), rest);
    } else {
      var second := Decision(AcBin(t.tbl, st0), w > 1);
      assert AcMagnitude(t.tbl, st0, x, w) == [one, second] + body;
      UnfoldTwo(one, second, body, rest);
      NextHead(d.script, d.k, one, [second] + (body + rest));
      NextHead(d.script, d.k + 1, second, body + rest);
    }
    var m := d.Decode(AcBin(t.tbl, st0));
    if m {
      var bit := d.Decode(AcBin(t.tbl, st0));
      if bit {
        HalfPower(1);
        CategorySplit(true, t.tbl, x, n, w, n + 1, rest);
        var st, m2;
        ok, st, m2 := DecodeCategory(d, true, t.tbl, x, 2, 1, n, Pattern(true, t.tbl, x + n + 14, w, n + 1) + rest);
        if !ok {
          return;
        }
        v := DecodePattern(d, true, t.tbl, st + 14, m2, n + 1, w, rest);
      } else {
        assert body + rest == rest;
        v := 1;
      }
    }
  }

  /** Coefficients `from` to `to - 1` are sent without their low `al` bits, the others are as in `blk0`. */
  ghost predicate Received(blk: Block, blk0: Block, b: Block, al: nat, from: nat, to: nat) {
    forall j :: 0 <= j < 64 ==> blk[j] == if from <= j < to then TruncAc(b[j], al) else blk0[j]
  }

  /** `decode_mcu_AC_first`, on a block whose band has not been received before. */
  method DecodeAcFirst(d: Decoder, t: AcTable, blk0: Block, ss: nat, se: nat, al: nat, ghost b: Block,
                       ghost rest: seq<Decision>)
    returns (ok: bool, blk: Block)
    requires d.Valid() && 1 <= ss <= se < 64 && IsBlock(b)
    requires forall j :: ss <= j <= se ==> blk0[j] == 0
    requires Next(d.script, d.k, AcDecisions(t, b, al, ss, LastNonzero(b, al, se), se) + rest)
    modifies d`pos, d`unreadMarker, d`m, d`c, d`a, d`ct, d`iv, d`stats, d`k
    ensures ok && d.Valid() && Next(d.script, d.k, rest)
    ensures Received(blk, blk0, b, al, ss, se + 1)
  {
    hide Decoder.Valid, Next, PointAc, LastNonzero, TruncAc, SmallMagnitude, AcMagnitude, Pow2, AcDecisions, AcRun,
         CoefTail;
    ghost var ke := LastNonzero(b, al, se);
    ok, blk := true, blk0;
    var k := ss;
    while k <= se
      invariant d.Valid() && ok && ss <= k && ke <= se
      invariant Next(d.script, d.k, AcDecisions(t, b, al, k, ke, se) + rest)
      invariant k <= se + 1 && Received(blk, blk0, b, al, ss, k)
    {
      var st := 3 * (k - 1);
      AcStep(d.script, d.k, t, b, al, k, ke, se, rest);
      var bit := d.Decode(AcBin(t.tbl, st));
      if bit {
        ZerosToEnd(blk, blk0, b, al, ss, se, k, ke);
        return;
      }
      AcRunStep(d.script, d.k, t, b, al, k, ke, se, rest);
      bit := d.Decode(AcBin(t.tbl, st + 1));
      while !bit
        invariant d.Valid() && ss <= k <= ke && st == 3 * (k - 1) && bit == (PointAc(b[k], al) != 0)
        invariant Received(blk, blk0, b, al, ss, k)
        invariant !bit ==> k < ke && Next(d.script, d.k, AcRun(t, b, al, k + 1, ke, se) + rest)
        invariant bit ==> Next(d.script, d.k, CoefTail(t, b, al, k, ke, se) + rest)
        decreases ke - k
      {
        PointBound(b[k], al);
        st := st + 3;
        k := k + 1;
        if k > se {
          assert false;
        }
        AcRunStep(d.script, d.k, t, b, al, k, ke, se, rest);
        bit := d.Decode(AcBin(t.tbl, st + 1));
      }
      CoefTailStep(d.script, d.k, t, b, al, k, ke, se, rest);
      var sign := d.Decode(FixedBin);
      PointBound(b[k], al);
      SmallMagnitudes(PointAc(b[k], al) - 1);
      var v;
      ok, v := DecodeAcMagnitude(d, t, st + 2, k, PointAc(b[k], al) - 1, AcDecisions(t, b, al, k + 1, ke, se) + rest);
      v := v + 1;
      SignedTrunc(b[k], al);
      blk := blk[k := (if sign then -v else v) * Pow2(al)];
      k := k + 1;
    }
    ZerosToEnd(blk, blk0, b, al, ss, se, k, ke);
    AcNone(d.script, d.k, t, b, al, k, ke, se, rest);
  }

  lemma SignedTrunc(x: int, al: nat)
    ensures TruncAc(x, al) == (if x < 0 then -PointAc(x, al) else PointAc(x, al)) * Pow2(al)
  {
  }

  /** What follows the decision that coefficient `k` is nonzero: its sign, its magnitude, and the rest. */
  ghost function CoefTail(t: AcTable, b: Block, al: nat, k: nat, ke: nat, se: nat): seq<Decision>
    requires 1 <= k <= ke <= se < 64 && PointAc(b[k], al) != 0
  {
    [Decision(FixedBin, b[k] < 0)]
    + (AcMagnitude(t.tbl, 3 * (k - 1) + 2, if k <= t.kx then 189 else 217, PointAc(b[k], al) - 1)
       + AcDecisions(t, b, al, k + 1, ke, se))
  }

  lemma CoefTailStep(script: seq<Decision>, n: nat, t: AcTable, b: Block, al: nat, k: nat, ke: nat, se: nat,
                     rest: seq<Decision>)
    requires 1 <= k <= ke <= se < 64 && PointAc(b[k], al) != 0
    requires Next(script, n, CoefTail(t, b, al, k, ke, se) + rest)
    ensures n < |script| && script[n] == Decision(FixedBin, b[k] < 0)
    ensures Next(script, n + 1,
                 AcMagnitude(t.tbl, 3 * (k - 1) + 2, if k <= t.kx then 189 else 217, PointAc(b[k], al) - 1)
                 + (AcDecisions(t, b, al, k + 1, ke, se) + rest))
  {
    hide PointAc, AcMagnitude, AcDecisions;
    var d := Decision(FixedBin, b[k] < 0);
    var x := AcMagnitude(t.tbl, 3 * (k - 1) + 2, if k <= t.kx then 189 else 217, PointAc(b[k], al) - 1);
    var y := AcDecisions(t, b, al, k + 1, ke, se);
    Unfold(d, x + y, rest);
    assert (x + y) + rest == x + (y + rest);
    NextHead(script, n, d, x + (y + rest));
  }

  lemma AcStep(script: seq<Decision>, n: nat, t: AcTable, b: Block, al: nat, k: nat, ke: nat, se: nat,
               rest: seq<Decision>)
    requires 1 <= k <= se < 64 && ke <= se && Next(script, n, AcDecisions(t, b, al, k, ke, se) + rest)
    ensures n < |script| && script[n] == Decision(AcBin(t.tbl, 3 * (k - 1)), k > ke)
    ensures k <= ke ==> Next(script, n + 1, AcRun(t, b, al, k, ke, se) + rest)
    ensures k > ke ==> Next(script, n + 1, rest)
  {
    hide AcRun;
    var d := Decision(AcBin(t.tbl, 3 * (k - 1)), k > ke);
    if k <= ke {
      Unfold(d, AcRun(t, b, al, k, ke, se), rest);
      NextHead(script, n, d, AcRun(t, b, al, k, ke, se) + rest);
    } else {
      NextHead(script, n, d, rest);
    }
  }

  lemma AcNone(script: seq<Decision>, n: nat, t: AcTable, b: Block, al: nat, k: nat, ke: nat, se: nat,
               rest: seq<Decision>)
    requires 1 <= k && k > se && ke <= se < 64 && Next(script, n, AcDecisions(t, b, al, k, ke, se) + rest)
    ensures Next(script, n, rest)
  {
  }

  lemma AcRunStep(script: seq<Decision>, n: nat, t: AcTable, b: Block, al: nat, k: nat, ke: nat, se: nat,
                  rest: seq<Decision>)
    requires 1 <= k <= ke <= se < 64 && ke == LastNonzero(b, al, se)
    requires Next(script, n, AcRun(t, b, al, k, ke, se) + rest)
    ensures n < |script| && script[n] == Decision(AcBin(t.tbl, 3 * (k - 1) + 1), PointAc(b[k], al) != 0)
    ensures PointAc(b[k], al) != 0 ==> Next(script, n + 1, CoefTail(t, b, al, k, ke, se) + rest)
    ensures PointAc(b[k], al) == 0 ==> k < ke && Next(script, n + 1, AcRun(t, b, al, k + 1, ke, se) + rest)
  {
    hide PointAc, LastNonzero, AcMagnitude, AcDecisions;
    var d := Decision(AcBin(t.tbl, 3 * (k - 1) + 1), PointAc(b[k], al) != 0);
    if PointAc(b[k], al) != 0 {
      var tail := CoefTail(t, b, al, k, ke, se);
      assert AcRun(t, b, al, k, ke, se) == [d] + tail;
      Unfold(d, tail, rest);
      NextHead(script, n, d, tail + rest);
    } else {
      Unfold(d, AcRun(t, b, al, k + 1, ke, se), rest);
      NextHead(script, n, d, AcRun(t, b, al, k + 1, ke, se) + rest);
    }
  }

  /** After the last nonzero coefficient nothing more needs to be stored. */
  lemma ZerosToEnd(blk: Block, blk0: Block, b: Block, al: nat, ss: nat, se: nat, k: nat, ke: nat)
    requires ss <= k <= se + 1 <= 64 && ke == LastNonzero(b, al, se) && ke < k
    requires Received(blk, blk0, b, al, ss, k)
    requires forall j :: ss <= j <= se ==> blk0[j] == 0
    ensures Received(blk, blk0, b, al, ss, se + 1)
  {
  }

  /** `decode_mcu_AC_refine`, on a block that holds the band without its low `al + 1` bits. */
  method DecodeAcRefine(d: Decoder, t: AcTable, blk0: Block, ss: nat, se: nat, al: nat, ghost b: Block,
                        ghost rest: seq<Decision>)
    returns (ok: bool, blk: Block)
    requires d.Valid() && 1 <= ss <= se < 64
    requires forall j :: ss <= j <= se ==> blk0[j] == TruncAc(b[j], al + 1)
    requires var ke := LastNonzero(b, al, se);
             Next(d.script, d.k, RefineDecisions(t, b, al, ss, LastNonzero(b, al + 1, ke), ke, se) + rest)
    modifies d`pos, d`unreadMarker, d`m, d`c, d`a, d`ct, d`iv, d`stats, d`k
    ensures ok && d.Valid() && Next(d.script, d.k, rest)
    ensures Received(blk, blk0, b, al, ss, se + 1)
  {
    hide Decoder.Valid, Next, PointAc, LastNonzero, TruncAc, RefineCoef, RefineRun, RefineDecisions;
    ghost var ke := LastNonzero(b, al, se);
    ghost var kexEnc := LastNonzero(b, al + 1, ke);
    ok, blk := true, blk0;
    var kex := se;
    while kex > 0 && blk[kex] == 0
      invariant kex <= se && forall j :: kex < j <= se ==> blk0[j] == 0
    {
      kex := kex - 1;
    }
    var k := ss;
    while k <= se
      invariant d.Valid() && ss <= k && ke <= se
      invariant Next(d.script, d.k, RefineDecisions(t, b, al, k, kexEnc, ke, se) + rest)
      invariant k <= se + 1 && Received(blk, blk0, b, al, ss, k)
    {
      SameKex(blk0, b, al, ss, se, kex, k);
      RefineStep(d.script, d.k, t, b, al, k, kexEnc, ke, se, rest);
      if k > kex {
        var eob := d.Decode(AcBin(t.tbl, 3 * (k - 1)));
        if eob {
          RefinedToEnd(blk, blk0, b, al, ss, se, k, ke);
          return;
        }
      }
      k, blk := RefineNext(d, t, blk0, blk, ss, se, al, k, b, rest, kexEnc, ke);
    }
    RefinedToEnd(blk, blk0, b, al, ss, se, k, ke);
    RefineNone(d.script, d.k, t, b, al, k, kexEnc, ke, se, rest);
  }

  /** The inner loop: zero coefficients, then one coefficient that gets a bit or becomes nonzero. */
  method RefineNext(d: Decoder, t: AcTable, ghost blk0: Block, blk1: Block, ghost ss: nat, se: nat, al: nat, k0: nat,
                    ghost b: Block, ghost rest: seq<Decision>, ghost kex: nat, ghost ke: nat)
    returns (k: nat, blk: Block)
    requires d.Valid() && 1 <= ss <= k0 <= ke <= se < 64 && ke == LastNonzero(b, al, se)
    requires forall j :: ss <= j <= se ==> blk0[j] == TruncAc(b[j], al + 1)
    requires Received(blk1, blk0, b, al, ss, k0)
    requires Next(d.script, d.k, RefineRun(t, b, al, k0, kex, ke, se) + rest)
    modifies d`pos, d`unreadMarker, d`m, d`c, d`a, d`ct, d`iv, d`stats, d`k
    ensures d.Valid() && k0 < k <= ke + 1 && Received(blk, blk0, b, al, ss, k)
    ensures Next(d.script, d.k, RefineDecisions(t, b, al, k, kex, ke, se) + rest)
  {
    hide Decoder.Valid, Next, PointAc, LastNonzero, TruncAc, RefineRun, RefineDecisions;
    k, blk := k0, blk1;
    var st := 3 * (k - 1);
    var p1 := Pow2(al);
    var m1 := -p1;
    while true
      invariant d.Valid() && k0 <= k <= ke && st == 3 * (k - 1)
      invariant Received(blk, blk0, b, al, ss, k)
      invariant Next(d.script, d.k, RefineRun(t, b, al, k, kex, ke, se) + rest)
      decreases ke - k
    {
      RefineRunStep(d.script, d.k, t, b, al, k, kex, ke, se, rest);
      Refined(b[k], al);
      if blk[k] != 0 {
        var bit := d.Decode(AcBin(t.tbl, st + 2));
        if bit {
          if blk[k] < 0 {
            blk := blk[k := blk[k] + m1];
          } else {
            blk := blk[k := blk[k] + p1];
          }
        }
        break;
      }
      var isNew := d.Decode(AcBin(t.tbl, st + 1));
      if isNew {
        var sign := d.Decode(FixedBin);
        blk := blk[k := if sign then m1 else p1];
        break;
      }
      st := st + 3;
      k := k + 1;
    }
    k := k + 1;
  }

  /** How the next bit of the magnitude extends a truncated coefficient. */
  lemma Refined(x: int, al: nat)
    ensures var v, p := PointAc(x, al), Pow2(al);
            && (TruncAc(x, al + 1) != 0 <==> v / 2 != 0)
            && (v / 2 != 0 ==> (TruncAc(x, al + 1) < 0 <==> x < 0))
            && (v / 2 != 0 && v % 2 == 0 ==> TruncAc(x, al) == TruncAc(x, al + 1))
            && (v / 2 != 0 && v % 2 == 1 ==> TruncAc(x, al) == TruncAc(x, al + 1) + (if x < 0 then -p else p))
            && (v == 1 ==> TruncAc(x, al) == if x < 0 then -p else p)
            && (v == 0 ==> TruncAc(x, al) == 0)
  {
    var v, p := PointAc(x, al), Pow2(al);
    hide PointAc;
    PointHalves(x, al);
    PointBound(x, al + 1);
    assert v == 2 * (v / 2) + v % 2;
    ScaleBit(v / 2, v % 2, p);
  }

  lemma ScaleBit(h: int, o: int, p: int)
    ensures (2 * h + o) * p == h * (2 * p) + o * p
    ensures (-(2 * h + o)) * p == (-h) * (2 * p) - o * p
  {
  }

  /** Encoder and decoder establish the same previous end of block, as far as the band can tell. */
  lemma SameKex(blk0: Block, b: Block, al: nat, ss: nat, se: nat, kex: nat, k: nat)
    requires 1 <= ss <= k <= se < 64 && kex <= se
    requires forall j :: ss <= j <= se ==> blk0[j] == TruncAc(b[j], al + 1)
    requires forall j :: kex < j <= se ==> blk0[j] == 0
    requires kex > 0 ==> blk0[kex] != 0
    ensures k > kex <==> k > LastNonzero(b, al + 1, LastNonzero(b, al, se))
  {
    hide PointAc, TruncAc, LastNonzero;
    var ke := LastNonzero(b, al, se);
    var kexEnc := LastNonzero(b, al + 1, ke);
    if kexEnc >= ss {
      PointBound(b[kexEnc], al + 1);
    }
    if kex >= ss {
      PointBound(b[kex], al + 1);
      PointHalves(b[kex], al);
    }
  }

  lemma RefineStep(script: seq<Decision>, n: nat, t: AcTable, b: Block, al: nat, k: nat, kex: nat, ke: nat, se: nat,
                   rest: seq<Decision>)
    requires 1 <= k <= se < 64 && ke <= se && kex <= ke
    requires Next(script, n, RefineDecisions(t, b, al, k, kex, ke, se) + rest)
    ensures k > kex ==> n < |script| && script[n] == Decision(AcBin(t.tbl, 3 * (k - 1)), k > ke)
    ensures k > ke ==> Next(script, n + 1, rest)
    ensures kex < k <= ke ==> Next(script, n + 1, RefineRun(t, b, al, k, kex, ke, se) + rest)
    ensures k <= kex ==> k <= ke && Next(script, n, RefineRun(t, b, al, k, kex, ke, se) + rest)
  {
    hide RefineRun, Next;
    var d := Decision(AcBin(t.tbl, 3 * (k - 1)), k > ke);
    if k > ke {
      NextHead(script, n, d, rest);
    } else {
      var run := RefineRun(t, b, al, k, kex, ke, se);
      if k > kex {
        Unfold(d, run, rest);
        NextHead(script, n, d, run + rest);
      } else {
        assert [] + run == run;
      }
    }
  }

  lemma RefineNone(script: seq<Decision>, n: nat, t: AcTable, b: Block, al: nat, k: nat, kex: nat, ke: nat, se: nat,
                   rest: seq<Decision>)
    requires 1 <= k && k > se && ke <= se < 64 && Next(script, n, RefineDecisions(t, b, al, k, kex, ke, se) + rest)
    ensures Next(script, n, rest)
  {
  }

  lemma RefineRunStep(script: seq<Decision>, n: nat, t: AcTable, b: Block, al: nat, k: nat, kex: nat, ke: nat, se: nat,
                      rest: seq<Decision>)
    requires 1 <= k <= ke <= se < 64 && ke == LastNonzero(b, al, se)
    requires Next(script, n, RefineRun(t, b, al, k, kex, ke, se) + rest)
    ensures var v := PointAc(b[k], al);
            && n < |script|
            && (v / 2 != 0 ==>
                  && script[n] == Decision(AcBin(t.tbl, 3 * (k - 1) + 2), v % 2 == 1)
                  && Next(script, n + 1, RefineDecisions(t, b, al, k + 1, kex, ke, se) + rest))
            && (v / 2 == 0 ==> script[n] == Decision(AcBin(t.tbl, 3 * (k - 1) + 1), v == 1))
            && (v == 1 ==>
                  && n + 1 < |script| && script[n + 1] == Decision(FixedBin, b[k] < 0)
                  && Next(script, n + 2, RefineDecisions(t, b, al, k + 1, kex, ke, se) + rest))
            && (v == 0 ==> k < ke && Next(script, n + 1, RefineRun(t, b, al, k + 1, kex, ke, se) + rest))
  {
    hide PointAc, LastNonzero, RefineDecisions, Next;
    var v, st := PointAc(b[k], al), 3 * (k - 1);
    var later := RefineDecisions(t, b, al, k + 1, kex, ke, se);
    if v / 2 != 0 {
      Unfold(Decision(AcBin(t.tbl, st + 2), v % 2 == 1), later, rest);
      NextHead(script, n, Decision(AcBin(t.tbl, st + 2), v % 2 == 1), later + rest);
    } else if v == 1 {
      var d1, d2 := Decision(AcBin(t.tbl, st + 1), true), Decision(FixedBin, b[k] < 0);
      UnfoldTwo(d1, d2, later, rest);
      NextHead(script, n, d1, [d2] + (later + rest));
      NextHead(script, n + 1, d2, later + rest);
    } else {
      Unfold(Decision(AcBin(t.tbl, st + 1), false), RefineRun(t, b, al, k + 1, kex, ke, se), rest);
      NextHead(script, n, Decision(AcBin(t.tbl, st + 1), false), RefineRun(t, b, al, k + 1, kex, ke, se) + rest);
    }
  }

  lemma RefinedToEnd(blk: Block, blk0: Block, b: Block, al: nat, ss: nat, se: nat, k: nat, ke: nat)
    requires ss <= k <= se + 1 <= 64 && ke == LastNonzero(b, al, se) && ke < k
    requires Received(blk, blk0, b, al, ss, k)
    requires forall j :: ss <= j <= se ==> blk0[j] == TruncAc(b[j], al + 1)
    ensures Received(blk, blk0, b, al, ss, se + 1)
  {
    hide PointAc, TruncAc, LastNonzero;
    forall j | k <= j <= se
      ensures TruncAc(b[j], al) == 0 && blk0[j] == 0
    {
      PointBound(b[j], al);
      PointHalves(b[j], al);
      PointBound(b[j], al + 1);
    }
  }
}
