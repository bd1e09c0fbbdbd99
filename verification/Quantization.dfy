/** Quantisation by multiplying with a reciprocal (`jcdctmgr.c`). DCTELEM is a `w`-bit integer, `w` being 16 (the
    SIMD build) or 32. */
module Quantization {
  import opened Numbers

  const DCTSIZE2 := 64

  /** Conversion to a signed and to an unsigned integer of `w` bits. */
  function Signed(x: int, w: nat): int
    requires w > 0
  {
    (x + Pow2(w - 1)) % Pow2(w) - Pow2(w - 1)
  }

  function Unsigned(x: int, w: nat): (u: nat)
    ensures u < Pow2(w)
  {
    ModRange(x, Pow2(w));
    x % Pow2(w)
  }

  lemma ModRange(x: int, p: int)
    requires p > 0
    ensures 0 <= x % p < p
  {
  }

  lemma StoreLoad(x: nat, w: nat)
    requires w > 0 && x < Pow2(w)
    ensures Unsigned(Signed(x, w), w) == x
    ensures x < Pow2(w - 1) ==> Signed(x, w) == x
  {
    hide Pow2;
    var p, h := Pow2(w), Pow2(w - 1);
    Pow2Half(w);
    SmallMod(if x + h < p then x + h else x + h - p, p);
    if x + h >= p {
      DivUnique(x + h, p, 1, x + h - p);
      DivUnique(x - p, p, -1, x);
    } else {
      DivUnique(x, p, 0, x);
    }
  }

  /** The rounded quotient the encoder wants: halves away from zero. */
  function Rounded(x: int, d: nat): int
    requires d > 0
  {
    if x < 0 then -((-x + d / 2) / d) else (x + d / 2) / d
  }

  /** What `quantize` computes from a magnitude: the top part of a product. */
  function Product(x: nat, recip: nat, corr: nat): nat {
    (x + corr) * recip
  }

  function TopPart(p: nat, s: nat): nat {
    QuotientNonneg(p, Pow2(s));
    p / Pow2(s)
  }

  /** The table entries give the rounded quotient for every magnitude, and nothing overflows. */
  ghost predicate Divides(recip: nat, corr: nat, s: nat, d: nat, w: nat)
    requires d > 0 && w > 0
  {
    && recip < Pow2(w) && corr < Pow2(w)
    && forall x: nat :: x < Pow2(w - 1) ==> DividesAt(recip, corr, s, d, w, x)
  }

  ghost predicate DividesAt(recip: nat, corr: nat, s: nat, d: nat, w: nat, x: nat)
    requires d > 0
  {
    && x + corr < Pow2(w) && Product(x, recip, corr) < Pow2(2 * w)
    && TopPart(Product(x, recip, corr), s) == (x + d / 2) / d
  }

  /** "Find the highest bit in an integer through binary search." `val` is a UINT16. */
  method Flss(val: nat) returns (bit: nat)
    requires val < 0x10000
    ensures val == 0 ==> bit == 0
    ensures val > 0 ==> 1 <= bit <= 16 && Pow2(bit - 1) <= val < Pow2(bit)
  {
    hide Pow2;
    var v := val;
    bit := 16;
    if v == 0 {
      return 0;
    }
    Pow2Values();
    ghost var s := 0;
    Pow2One();
    if v < 0x100 {
      ShiftedBy(val, v, 0, 8, bit);
      bit := bit - 8;
      v := v * 0x100;
      s := 8;
    }
    if v < 0x1000 {
      FourBits();
      ShiftedBy(val, v, s, 4, bit);
      bit := bit - 4;
      v := v * 0x10;
      s := s + 4;
    }
    if v < 0x4000 {
      FourBits();
      ShiftedBy(val, v, s, 2, bit);
      bit := bit - 2;
      v := v * 4;
      s := s + 2;
    }
    if v < 0x8000 {
      FourBits();
      ShiftedBy(val, v, s, 1, bit);
      bit := bit - 1;
      v := v * 2;
      s := s + 1;
    }
    Normalised(val, v, s, bit);
  }

  lemma FourBits()
    ensures Pow2(1) == 2 && Pow2(2) == 4 && Pow2(4) == 16
  {
  }

  lemma ShiftedBy(val: nat, v: nat, s: nat, e: nat, bit: nat)
    requires v == val * Pow2(s)
    ensures v * Pow2(e) == val * Pow2(s + e)
  {
    hide Pow2;
    Pow2Add(s, e);
    MulAssoc(val, Pow2(s), Pow2(e));
  }

  lemma Normalised(val: nat, v: nat, s: nat, bit: nat)
    requires v == val * Pow2(s) && 0x8000 <= v < 0x10000 && bit == 16 - s && s <= 15
    ensures Pow2(bit - 1) <= val < Pow2(bit)
  {
    hide Pow2;
    Pow2Values();
    Pow2Add(bit, s);
    Pow2Add(bit - 1, s);
    MulCompare(Pow2(bit - 1), val, Pow2(s));
    MulCompare(val, Pow2(bit), Pow2(s));
  }

  /** A product lies in the quotient's interval. */
  lemma TopPartIs(p: nat, s: nat, q: nat)
    requires q * Pow2(s) <= p < (q + 1) * Pow2(s)
    ensures TopPart(p, s) == q
  {
    hide Pow2;
    assert (q + 1) * Pow2(s) == q * Pow2(s) + Pow2(s);
    DivUnique(p, Pow2(s), q, p - q * Pow2(s));
  }

  /** The reciprocal is at least half the word: there is enough precision. */
  lemma ReciprocalRange(d: nat, b: nat, w: nat, fq: nat, fr: nat)
    requires 16 <= w && b <= 15 && Pow2(b) <= d < 2 * Pow2(b) && fq * d + fr == Pow2(w + b) && fr < d
    ensures fq >= Pow2(w - 1) && (fr > 0 ==> d != Pow2(b) && fq + 1 < Pow2(w))
  {
    hide Pow2;
    var h, c := Pow2(w - 1), Pow2(b);
    Pow2Half(w);
    Pow2Add(w, b);
    Pow2Monotone(b + 1, w);
    Pow2Half(b + 1);
    AtLeastHalf(d, c, h, fq, fr);
    if fr > 0 {
      BelowWord(d, c, 2 * h, fq, fr);
    }
  }

  lemma AtLeastHalf(d: nat, c: nat, h: nat, fq: nat, fr: nat)
    requires 0 < h && c <= d < 2 * c && fq * d + fr == 2 * h * c && fr < d
    ensures fq >= h
  {
    if fq < h {
      MulCompare(fq + 1, h, d);
      assert (fq + 1) * d == fq * d + d;
      MulCompare(d, 2 * c, h);
      assert false;
    }
  }

  lemma BelowWord(d: nat, c: nat, p: nat, fq: nat, fr: nat)
    requires c <= d < 2 * c <= p && fq * d + fr == p * c && 0 < fr < d
    ensures d != c && fq + 1 < p
  {
    if d == c {
      assert (p - fq) * c == fr;
      MulCompare(0, p - fq, c);
      MulCompare(p - fq, 1, c);
      assert false;
    }
    if fq + 1 >= p {
      MulCompare(p, fq + 1, d);
      assert (fq + 1) * d == fq * d + d;
      MulCompare(c + 1, d, p);
      assert false;
    }
  }

  lemma ExactBounds(y: nat, d: nat, q: nat, h: nat, p: nat)
    requires h > 0 && q * d <= y < (q + 1) * d && p == d * h
    ensures q * p <= y * h < (q + 1) * p
  {
    MulAssoc(q, d, h);
    MulAssoc(q + 1, d, h);
    MulCompare(q * d, y, h);
    MulCompare(y, (q + 1) * d, h);
  }

  /** `divisor` is a power of two. */
  lemma ExactCase(d: nat, b: nat, w: nat, fq: nat, x: nat)
    requires 16 <= w && b <= 15 && Pow2(b) <= d < 2 * Pow2(b) && fq * d == Pow2(w + b) && x < Pow2(w - 1) && d > 1
    ensures d == Pow2(b) && fq == Pow2(w) && fq / 2 == Pow2(w - 1) && b > 0
    ensures DividesAt(fq / 2, d / 2, w + b - 1, d, w, x)
  {
    hide Pow2, TopPart;
    Pow2Add(w, b);
    Pow2Half(w);
    PowerDivisor(w, b, d, fq);
    if b == 0 {
      Pow2One();
      assert false;
    }
    Pow2Half(b);
    var y, q := x + d / 2, (x + d / 2) / d;
    var h := Pow2(w - 1);
    DivBounds(y, d);
    Pow2Add(b, w - 1);
    ExactBounds(y, d, q, h, Pow2(w + b - 1));
    TopPartIs(y * h, w + b - 1, q);
    DivisorRange(d, b);
    SmallSum(x, d / 2, w);
    NoOverflow(y, h, w);
  }

  /** A divisor of a power of two is a power of two. */
  lemma {:induction false} PowerFactor(n: nat, d: nat, g: nat) returns (k: nat)
    requires g * d == Pow2(n)
    ensures d == Pow2(k)
  {
    if n == 0 {
      UnitFactor(g, d);
      k := 0;
    } else if d % 2 == 0 {
      assert g * d == 2 * (g * (d / 2));
      k := PowerFactor(n - 1, d / 2, g);
      k := k + 1;
    } else if g % 2 == 0 {
      assert g * d == 2 * (g / 2 * d);
      k := PowerFactor(n - 1, d, g / 2);
    } else {
      OddProduct(g, d);
      assert false;
    }
  }

  lemma UnitFactor(g: nat, d: nat)
    requires g * d == 1
    ensures d == 1
  {
  }

  lemma OddProduct(g: nat, d: nat)
    requires g % 2 == 1 && d % 2 == 1
    ensures (g * d) % 2 == 1
  {
    var a, b := g / 2, d / 2;
    assert g == 2 * a + 1 && d == 2 * b + 1;
    assert g * d == 2 * (2 * a * b + a + b) + 1;
  }

  /** So between two successive powers it is the lower one. */
  lemma PowerDivisor(w: nat, b: nat, d: nat, fq: nat)
    requires fq * d == Pow2(w) * Pow2(b) && Pow2(b) <= d < 2 * Pow2(b)
    ensures d == Pow2(b) && fq == Pow2(w)
  {
    hide Pow2;
    Pow2Add(w, b);
    var k := PowerFactor(w + b, d, fq);
    Pow2Half(b + 1);
    if k > b {
      Pow2Monotone(b + 1, k);
      assert false;
    }
    if k < b {
      Pow2Monotone(k + 1, b);
      Pow2Half(k + 1);
      assert false;
    }
    MulCompare(fq, Pow2(w), d);
  }

  lemma SmallSum(x: nat, c: nat, w: nat)
    requires 16 <= w && x < Pow2(w - 1) && c <= 0x8000
    ensures x + c < Pow2(w)
  {
    hide Pow2;
    Pow2Half(w);
    Pow2Values();
    Pow2Monotone(15, w - 1);
  }

  lemma NoOverflow(y: nat, recip: nat, w: nat)
    requires y < Pow2(w) && recip < Pow2(w)
    ensures y * recip < Pow2(2 * w)
  {
    hide Pow2;
    Pow2Add(w, w);
    if recip > 0 {
      MulCompare(y, Pow2(w), recip);
      MulCompare(recip, Pow2(w), Pow2(w));
      assert Pow2(w) * recip == recip * Pow2(w);
    }
  }

  /** The fractional part is less than a half: round the reciprocal down, and correct by one. */
  lemma DownCase(d: nat, b: nat, w: nat, fq: nat, fr: nat, x: nat, q: nat, s: nat)
    requires 16 <= w && b <= 15 && Pow2(b) <= d < 2 * Pow2(b) && fq * d + fr == Pow2(w + b) && x < Pow2(w - 1)
    requires 0 < fr <= d / 2 && x + d / 2 == d * q + s && s < d
    ensures DividesAt(fq, d / 2 + 1, w + b, d, w, x)
  {
    hide Pow2, TopPart;
    var y := x + d / 2;
    ReciprocalRange(d, b, w, fq, fr);
    DivisorRange(d, b);
    SmallSum(x, d / 2 + 1, w);
    NoOverflow(y + 1, fq, w);
    Pow2Half(w);
    DownLower(y, d, q, s, fq, fr, Pow2(w + b), Pow2(w - 1));
    DownUpper(y, d, q, s, fq, fr, Pow2(w + b));
    TopPartIs((y + 1) * fq, w + b, q);
    DivUnique(y, d, q, s);
  }

  lemma DivisorRange(d: nat, b: nat)
    requires b <= 15 && d < 2 * Pow2(b)
    ensures d / 2 + 1 <= 0x8000
  {
    hide Pow2;
    Pow2Values();
    Pow2Monotone(b, 15);
  }

  lemma Distribute(a: int, b: int, c: int)
    ensures a * (b + c) == a * b + a * c && (b + c) * a == b * a + c * a
  {
  }

  lemma Rotate(a: int, b: int, c: int)
    ensures a * (b * c) == (c * a) * b
  {
  }

  lemma DownLower(y: nat, d: nat, q: nat, s: nat, fq: nat, fr: nat, p: nat, h: nat)
    requires d > 0 && y == d * q + s && s < d && fq * d + fr == p && 0 < fr <= d / 2 && fq >= h && y < 2 * h
    ensures q * p <= (y + 1) * fq
  {
    Distribute(q, fq * d, fr);
    Rotate(q, fq, d);
    Distribute(fq, d * q, s + 1);
    Distribute(fq, s, 1);
    TwiceSmall(q, fr, d, y);
    NatProduct(s, fq);
  }

  lemma NatProduct(a: nat, b: nat)
    ensures a * b >= 0
  {
  }

  lemma DownUpper(y: nat, d: nat, q: nat, s: nat, fq: nat, fr: nat, p: nat)
    requires d > 0 && y == d * q + s && s < d && fq * d + fr == p && 0 < fr && fq > 0
    ensures (y + 1) * fq < (q + 1) * p
  {
    Distribute(q + 1, fq * d, fr);
    Rotate(q + 1, fq, d);
    Distribute(d, q, 1);
    MulCompare(y + 1, d * (q + 1), fq);
    MulCompare(0, q + 1, fr);
  }

  lemma TwiceSmall(q: nat, fr: nat, d: nat, y: nat)
    requires fr <= d / 2 && d * q <= y
    ensures 2 * (q * fr) <= y
  {
  }

  /** The fractional part is more than a half: round the reciprocal up. */
  lemma UpCase(d: nat, b: nat, w: nat, fq: nat, fr: nat, x: nat, q: nat, s: nat)
    requires (w == 16 || w == 32) && b <= 15 && Pow2(b) <= d < 2 * Pow2(b) && fq * d + fr == Pow2(w + b)
    requires x < Pow2(w - 1)
    requires d / 2 < fr < d && x + d / 2 == d * q + s && s < d
    ensures DividesAt(fq + 1, d / 2, w + b, d, w, x)
  {
    hide Pow2, TopPart;
    var y, e := x + d / 2, d - fr;
    ReciprocalRange(d, b, w, fq, fr);
    DivisorRange(d, b);
    SmallSum(x, d / 2, w);
    NoOverflow(y, fq + 1, w);
    Pow2Values();
    Pow2Monotone(15, w - 1);
    Distribute(d, fq, 1);
    ErrorFits(x, d, q, s, e, fq + 1, Pow2(w - 1));
    UpBounds(y, d, q, s, fq + 1, e, Pow2(w + b));
    TopPartIs(y * (fq + 1), w + b, q);
    DivUnique(y, d, q, s);
  }

  lemma UpBounds(y: nat, d: nat, q: nat, s: nat, g: nat, e: nat, p: nat)
    requires d > 0 && y == d * q + s && s < d && g * d == p + e && (q + 1) * e < (d - s) * g
    ensures q * p <= y * g < (q + 1) * p
  {
  }

  /** The accumulated error stays below one step, for every magnitude that can occur. */
  lemma ErrorFits(x: nat, d: nat, q: nat, s: nat, e: nat, g: nat, h: nat)
    requires h >= 0x8000 && x < h && 0 < d < 0x10000 && x + d / 2 == d * q + s && s < d && g > h && 2 * e <= d - 1
    ensures (q + 1) * e < (d - s) * g
  {
    MulCompare(1, d - s, g);
    if q == 0 {
      assert (q + 1) * e == e;
    } else if 3 * d <= 2 * h {
      MulCompare(2 * e, d - 1, q + 1);
      ManySteps(d, q, e);
    } else {
      QuotientIsOne(x, d, q, h);
      if d > h {
        MulCompare(2, d - s, g);
      }
    }
  }

  lemma ManySteps(d: nat, q: nat, e: nat)
    requires (2 * e) * (q + 1) <= (d - 1) * (q + 1)
    ensures 2 * ((q + 1) * e) <= d * q + d - q - 1
  {
  }

  lemma QuotientIsOne(x: nat, d: nat, q: nat, h: nat)
    requires x < h && 3 * d > 2 * h && d * q <= x + d / 2 && q > 0
    ensures q == 1
  {
    if q >= 2 {
      MulCompare(2, q, d);
      assert false;
    }
  }

  /** Reciprocal, correction and shift by the fractional part of 2^(w + b) / d. */
  lemma ReciprocalWorks(d: nat, b: nat, w: nat, fq: nat, fr: nat)
    requires (w == 16 || w == 32) && b <= 15 && Pow2(b) <= d < 2 * Pow2(b) && fq * d + fr == Pow2(w + b) && fr < d
    requires d > 1
    ensures fr == 0 ==> b > 0 && d == Pow2(b) && Divides(fq / 2, d / 2, w + b - 1, d, w)
    ensures 0 < fr <= d / 2 ==> Divides(fq, d / 2 + 1, w + b, d, w)
    ensures d / 2 < fr ==> Divides(fq + 1, d / 2, w + b, d, w)
  {
    hide Pow2, DividesAt;
    ReciprocalRange(d, b, w, fq, fr);
    DivisorRange(d, b);
    Pow2Half(w);
    Pow2Values();
    Pow2Monotone(16, w);
    FirstExact(d, b, w, fq, fr);
    var recip := if fr == 0 then fq / 2 else if fr <= d / 2 then fq else fq + 1;
    var corr := if 0 < fr <= d / 2 then d / 2 + 1 else d / 2;
    var shift := if fr == 0 then w + b - 1 else w + b;
    forall x: nat | x < Pow2(w - 1)
      ensures DividesAt(recip, corr, shift, d, w, x)
    {
      var q, s := QuotientOf(x + d / 2, d);
      if fr == 0 {
        ExactCase(d, b, w, fq, x);
      } else if fr <= d / 2 {
        DownCase(d, b, w, fq, fr, x, q, s);
      } else {
        UpCase(d, b, w, fq, fr, x, q, s);
      }
    }
  }

  lemma FirstExact(d: nat, b: nat, w: nat, fq: nat, fr: nat)
    requires (w == 16 || w == 32) && b <= 15 && Pow2(b) <= d < 2 * Pow2(b) && fq * d + fr == Pow2(w + b) && d > 1
    ensures fr == 0 ==> b > 0 && d == Pow2(b) && fq / 2 == Pow2(w - 1)
  {
    hide Pow2, DividesAt;
    if fr == 0 {
      ExactCase(d, b, w, fq, 0);
    }
  }

  lemma QuotientOf(y: nat, d: nat) returns (q: nat, s: nat)
    requires d > 0
    ensures y == d * q + s && s < d
  {
    q, s := y / d, y % d;
  }

  /** The SIMD form of the division: two "multiply and keep the top half" steps. */
  function ScaledProduct(x: nat, recip: nat, corr: nat, scale: nat): nat {
    TopPart(TopPart(Product(x, recip, corr), 16) * scale, 16)
  }

  ghost predicate ScaleWorks(recip: nat, corr: nat, scale: nat, d: nat)
    requires d > 0
  {
    forall x: nat :: x < 0x8000 ==> ScaledProduct(x, recip, corr, scale) == (x + d / 2) / d
  }

  lemma ScaleIsShift(p: nat, r: nat)
    requires 17 <= r <= 32
    ensures TopPart(TopPart(p, 16) * Pow2(32 - r), 16) == TopPart(p, r)
  {
    hide Pow2, TopPart;
    var a := TopPart(p, 16);
    Pow2Add(32 - r, r - 16);
    Pow2Add(16, r - 16);
    ScaledQuotient(a, Pow2(32 - r), Pow2(r - 16));
    NestedQuotient(p, Pow2(16), Pow2(r - 16));
    TopPartDef(p, 16);
    TopPartDef(p, r);
    NatProduct(a, Pow2(32 - r));
    TopPartDef(a * Pow2(32 - r), 16);
  }

  lemma TopPartDef(p: nat, s: nat)
    ensures TopPart(p, s) == p / Pow2(s)
  {
  }

  lemma ScaledQuotient(a: nat, u: nat, v: nat)
    requires u > 0 && v > 0
    ensures u * v > 0 && a * u / (u * v) == a / v
  {
    MulCompare(0, u, v);
    var q, t := QuotientOf(a, v);
    DivUnique(a, v, q, t);
    Distribute(u, v * q, t);
    MulAssoc(u, v, q);
    NatProduct(u, t);
    MulCompare(t, v, u);
    DivUnique(a * u, u * v, q, u * t);
  }

  lemma NestedQuotient(p: nat, m: nat, v: nat)
    requires m > 0 && v > 0
    ensures m * v > 0 && p / m / v == p / (m * v)
  {
    MulCompare(0, m, v);
    var a, s := QuotientOf(p, m);
    DivUnique(p, m, a, s);
    var q, t := QuotientOf(a, v);
    DivUnique(a, v, q, t);
    Distribute(m, v * q, t);
    MulAssoc(m, v, q);
    MulCompare(t + 1, v, m);
    Distribute(m, t, 1);
    NatProduct(m, t);
    DivUnique(p, m * v, q, m * t + s);
  }

  /** The table entries of one divisor. */
  ghost predicate GoodEntry(e: Entry, d: nat, w: nat)
    requires d > 0 && w > 0
  {
    e.shift + w >= 0 && Divides(Unsigned(e.recip, w), Unsigned(e.corr, w), e.shift + w, d, w)
  }

  /** Reciprocal, correction, scale and shift of coefficient `i`: each has its own table of 64. */
  datatype Entry = Entry(recip: int, corr: int, scale: int, shift: int)

  function EntryOf(dtbl: seq<int>, i: nat): Entry
    requires |dtbl| == 4 * DCTSIZE2 && i < DCTSIZE2
  {
    Entry(dtbl[i], dtbl[i + DCTSIZE2], dtbl[i + 2 * DCTSIZE2], dtbl[i + 3 * DCTSIZE2])
  }

  /** The multiplications with the scale entry give the quotient too. */
  ghost predicate SimdEntry(e: Entry, d: nat)
    requires d > 0
  {
    ScaleWorks(Unsigned(e.recip, 16), Unsigned(e.corr, 16), Unsigned(e.scale, 16), d)
  }

  lemma UnitDivides(w: nat)
    requires w == 16 || w == 32
    ensures Divides(1, 0, 0, 1, w)
  {
    hide Pow2;
    Pow2One();
    Pow2Half(w);
    Pow2Values();
    Pow2Monotone(15, w - 1);
    Pow2Monotone(w, 2 * w);
  }

  /** `compute_reciprocal` with a UINT16 divisor: fills the four table entries of coefficient `i`. In the 16-bit SIMD
      build, the result is 1 exactly when the scale entry works too. */
  method ComputeReciprocal(divisor: nat, dtbl: array<int>, i: nat, w: nat) returns (simdOk: int)
    requires 1 <= divisor < 0x10000 && dtbl.Length == 4 * DCTSIZE2 && i < DCTSIZE2 && (w == 16 || w == 32)
    modifies dtbl
    ensures simdOk == 0 || simdOk == 1
    ensures GoodEntry(EntryOf(dtbl[..], i), divisor, w)
    ensures w == 16 ==> (simdOk == 1 <==> SimdEntry(EntryOf(dtbl[..], i), divisor))
    ensures forall j :: 0 <= j < DCTSIZE2 && j != i ==> EntryOf(dtbl[..], j) == EntryOf(old(dtbl[..]), j)
  {
    hide Pow2, Divides, Signed, Unsigned, ScaleWorks, EntryOf;
    if divisor == 1 {
      StoreEntry(dtbl, i, 1, 0, 1, 0 - w);
      UnitDivides(w);
      SmallUnsigned(1, w);
      SmallUnsigned(0, w);
      UnitScaleFails();
      return 0;
    }
    var b := Flss(divisor);
    b := b - 1;
    Pow2Half(b + 1);
    var r := w + b;
    var fq, fr := Pow2(r) / divisor, Pow2(r) % divisor;
    Pow2Monotone(0, r);
    QuotientParts(Pow2(r), divisor);
    var c := divisor / 2;
    ReciprocalWorks(divisor, b, w, fq, fr);
    if fr == 0 {
      fq := fq / 2;
      r := r - 1;
    } else if fr <= divisor / 2 {
      c := c + 1;
    } else {
      fq := fq + 1;
    }
    EntriesFit(fq, c, r, divisor, w);
    StoreEntry(dtbl, i, Signed(fq, w), Signed(c, w), if w == 16 then Signed(Pow2(2 * w - r), w) else 1, r - w);
    if w == 16 {
      ScaleFits(fq, c, r, divisor, b);
    }
    simdOk := if r <= 16 then 0 else 1;
  }

  /** The four stores. */
  method StoreEntry(dtbl: array<int>, i: nat, recip: int, corr: int, scale: int, shift: int)
    requires dtbl.Length == 4 * DCTSIZE2 && i < DCTSIZE2
    modifies dtbl
    ensures EntryOf(dtbl[..], i) == Entry(recip, corr, scale, shift)
    ensures forall j :: 0 <= j < DCTSIZE2 && j != i ==> EntryOf(dtbl[..], j) == EntryOf(old(dtbl[..]), j)
  {
    dtbl[i] := recip;
    dtbl[i + DCTSIZE2] := corr;
    dtbl[i + 2 * DCTSIZE2] := scale;
    dtbl[i + 3 * DCTSIZE2] := shift;
  }

  lemma QuotientParts(p: nat, d: nat)
    requires d > 0
    ensures p / d >= 0 && 0 <= p % d < d && p / d * d + p % d == p
  {
  }

  lemma SmallUnsigned(x: nat, w: nat)
    requires x <= 1 && w >= 16
    ensures Unsigned(x, w) == x
  {
    hide Pow2;
    Pow2Values();
    Pow2Monotone(16, w);
    DivUnique(x, Pow2(w), 0, x);
  }

  lemma EntriesFit(fq: nat, c: nat, r: nat, d: nat, w: nat)
    requires d > 0 && w > 0 && Divides(fq, c, r, d, w)
    ensures Unsigned(Signed(fq, w), w) == fq && Unsigned(Signed(c, w), w) == c
  {
    hide Pow2, DividesAt;
    StoreLoad(fq, w);
    StoreLoad(c, w);
  }

  lemma UnitScaleFails()
    ensures !ScaleWorks(1, 0, 1, 1)
  {
    hide Pow2;
    Pow2Values();
    assert ScaledProduct(1, 1, 0, 1) == 0;
  }

  lemma ScaleFits(fq: nat, c: nat, r: nat, d: nat, b: nat)
    requires 1 < d < 0x10000 && b <= 15 && Pow2(b) <= d < 2 * Pow2(b) && Divides(fq, c, r, d, 16)
    requires r == 16 + b || (r == 15 + b && d == Pow2(b) && b > 0)
    ensures r > 16 <==> ScaleWorks(fq, c, Unsigned(Signed(Pow2(32 - r), 16), 16), d)
  {
    hide Pow2;
    Pow2Values();
    FourBits();
    if b == 0 {
      Pow2One();
      assert false;
    }
    if r > 16 {
      Pow2Monotone(32 - r, 15);
      var scale := Pow2(32 - r);
      StoreLoad(scale, 16);
      forall x: nat | x < 0x8000
        ensures ScaledProduct(x, fq, c, scale) == (x + d / 2) / d
      {
        assert DividesAt(fq, c, r, d, 16, x);
        ScaleIsShift(Product(x, fq, c), r);
      }
    } else {
      assert d == 2;
      assert Unsigned(Signed(0x10000, 16), 16) == 0;
      assert ScaledProduct(1, fq, c, 0) == 0;
      assert (1 + d / 2) / d == 1;
    }
  }

  /** The divisor table of a quantisation table: every coefficient has good entries for its divisor. */
  ghost predicate GoodTableFor(dtbl: seq<int>, divisors: seq<nat>, w: nat)
    requires w > 0
  {
    && |dtbl| == 4 * DCTSIZE2 && |divisors| == DCTSIZE2
    && forall i :: 0 <= i < DCTSIZE2 ==>
         divisors[i] > 0 && GoodEntry(EntryOf(dtbl, i), divisors[i], w)
  }

  /** What becomes of "quantval << 3" as the UINT16 parameter of `compute_reciprocal`. */
  function Divisor(quantval: nat): nat {
    quantval * 8 % 0x1_0000
  }

  /** It is the divisor meant exactly for quantisation steps below 8192, and zero exactly for the multiples of 8192. */
  lemma DivisorIsExact(quantval: nat)
    ensures Divisor(quantval) == 8 * quantval <==> quantval < 8192
    ensures Divisor(quantval) == 0 <==> quantval % 8192 == 0
  {
    var q, r := quantval / 8192, quantval % 8192;
    assert quantval == 8192 * q + r;
    DivUnique(quantval * 8, 0x1_0000, q, 8 * r);
  }

  function Divisors(quantval: seq<nat>): (d: seq<nat>)
    ensures |d| == |quantval| && forall i :: 0 <= i < |d| ==> d[i] == Divisor(quantval[i])
  {
    seq(|quantval|, i requires 0 <= i < |quantval| => Divisor(quantval[i]))
  }

  /** The case JDCT_ISLOW of `start_pass_fdctmgr`. The SIMD quantiser is kept only if it works for all coefficients. It
      fails, by a division by zero, exactly if a quantisation step is a multiple of 8192; steps that are not below 8192
      quantise with the remainder of their divisor instead. */
  method FillDivisors(quantval: seq<nat>, dtbl: array<int>, w: nat) returns (ok: bool, simd: bool)
    requires |quantval| == DCTSIZE2 && dtbl.Length == 4 * DCTSIZE2 && (w == 16 || w == 32)
    modifies dtbl
    ensures ok <==> forall i :: 0 <= i < DCTSIZE2 ==> quantval[i] % 8192 != 0
    ensures ok ==> GoodTableFor(dtbl[..], Divisors(quantval), w)
    ensures ok && (forall i :: 0 <= i < DCTSIZE2 ==> quantval[i] < 8192) ==>
              forall i :: 0 <= i < DCTSIZE2 ==> Divisors(quantval)[i] == 8 * quantval[i]
    ensures ok && w == 16 ==>
              (simd <==> forall i :: 0 <= i < DCTSIZE2 ==> SimdEntry(EntryOf(dtbl[..], i), Divisor(quantval[i])))
  {
    hide Pow2, GoodEntry, SimdEntry, EntryOf, Divisor;
    ok, simd := true, true;
    var i := 0;
    while i < DCTSIZE2
      invariant i <= DCTSIZE2 && forall j :: 0 <= j < i ==> quantval[j] % 8192 != 0 && Divisor(quantval[j]) > 0
      invariant forall j :: 0 <= j < i ==> GoodEntry(EntryOf(dtbl[..], j), Divisor(quantval[j]), w)
      invariant w == 16 ==> (simd <==> forall j :: 0 <= j < i ==> SimdEntry(EntryOf(dtbl[..], j), Divisor(quantval[j])))
    {
      var divisor := Divisor(quantval[i]);
      DivisorIsExact(quantval[i]);
      DivisorFits(quantval[i]);
      if divisor == 0 {
        return false, simd;
      }
      var works := ComputeReciprocal(divisor, dtbl, i, w);
      if works == 0 {
        simd := false;
      }
      i := i + 1;
    }
    forall j | 0 <= j < DCTSIZE2
      ensures Divisor(quantval[j]) == 8 * quantval[j] <==> quantval[j] < 8192
    {
      DivisorIsExact(quantval[j]);
    }
  }

  lemma DivisorFits(quantval: nat)
    ensures Divisor(quantval) < 0x1_0000
  {
  }

  /** `quantize`: every coefficient becomes the rounded quotient, stored as a 16-bit JCOEF. */
  method Quantize(coefs: array<int>, dtbl: array<int>, workspace: array<int>, ghost divisors: seq<nat>, w: nat)
    requires coefs.Length == workspace.Length == DCTSIZE2 && dtbl.Length == 4 * DCTSIZE2
    requires coefs != dtbl && coefs != workspace && (w == 16 || w == 32)
    requires GoodTableFor(dtbl[..], divisors, w)
    requires forall i :: 0 <= i < DCTSIZE2 ==> -Pow2(w - 1) < workspace[i] < Pow2(w - 1)
    modifies coefs
    ensures forall i :: 0 <= i < DCTSIZE2 ==> coefs[i] == Signed(Rounded(workspace[i], divisors[i]), 16)
    ensures w == 16 ==> forall i :: 0 <= i < DCTSIZE2 ==> coefs[i] == Rounded(workspace[i], divisors[i])
  {
    hide Pow2, GoodEntry, Signed, Unsigned, TopPart, Rounded;
    var i := 0;
    while i < DCTSIZE2
      invariant i <= DCTSIZE2
      invariant forall j :: 0 <= j < i ==> coefs[j] == Signed(Rounded(workspace[j], divisors[j]), 16)
      invariant w == 16 ==> forall j :: 0 <= j < i ==> coefs[j] == Rounded(workspace[j], divisors[j])
    {
      var temp := workspace[i];
      var recip, corr, shift := Unsigned(dtbl[i], w), Unsigned(dtbl[i + DCTSIZE2], w), dtbl[i + 3 * DCTSIZE2];
      EntryDivides(EntryOf(dtbl[..], i), divisors[i], w, temp);
      if temp < 0 {
        temp := -temp;
        var product := (temp + corr) * recip % Pow2(2 * w);
        temp := Signed(TopPart(product, shift + w), w);
        temp := -temp;
      } else {
        var product := (temp + corr) * recip % Pow2(2 * w);
        temp := Signed(TopPart(product, shift + w), w);
      }
      RoundedFits(workspace[i], divisors[i], w);
      coefs[i] := Signed(temp, 16);
      i := i + 1;
    }
  }

  lemma EntryDivides(e: Entry, d: nat, w: nat, x: int)
    requires d > 0 && (w == 16 || w == 32) && GoodEntry(e, d, w) && -Pow2(w - 1) < x < Pow2(w - 1)
    ensures e.shift + w >= 0
    ensures var m: nat := if x < 0 then -x else x;
            var p := Product(m, Unsigned(e.recip, w), Unsigned(e.corr, w));
            p % Pow2(2 * w) == p && TopPart(p, e.shift + w) == (m + d / 2) / d
  {
    hide Pow2, TopPart, Unsigned;
    var m: nat := if x < 0 then -x else x;
    assert DividesAt(Unsigned(e.recip, w), Unsigned(e.corr, w), e.shift + w, d, w, m);
    var p := Product(m, Unsigned(e.recip, w), Unsigned(e.corr, w));
    DivUnique(p, Pow2(2 * w), 0, p);
  }

  /** The quotient fits the type. */
  lemma RoundedFits(x: int, d: nat, w: nat)
    requires d > 0 && (w == 16 || w == 32) && -Pow2(w - 1) < x < Pow2(w - 1)
    ensures var q := ((if x < 0 then -x else x) + d / 2) / d;
            0 <= q < Pow2(w - 1) && Signed(q, w) == q && Rounded(x, d) == (if x < 0 then -q else q)
    ensures w == 16 ==> Signed(Rounded(x, d), 16) == Rounded(x, d)
  {
    hide Pow2;
    var m: nat := if x < 0 then -x else x;
    var q := (m + d / 2) / d;
    RoundedBound(m, d, q);
    Pow2Half(w);
    SignedSame(q, w);
    SignedSame(-q, w);
  }

  lemma RoundedBound(m: nat, d: nat, q: int)
    requires d > 0 && q == (m + d / 2) / d
    ensures 0 <= q <= m
  {
    QuotientNonneg(m + d / 2, d);
    DivBounds(m + d / 2, d);
    if q > m {
      MulCompare(m + 1, q, d);
      Distribute(d, m, 1);
      if m > 0 {
        MulCompare(1, d, m);
      }
      assert false;
    }
  }

  lemma SignedSame(x: int, w: nat)
    requires w > 0 && -Pow2(w - 1) <= x < Pow2(w - 1)
    ensures Signed(x, w) == x
  {
    hide Pow2;
    Pow2Half(w);
    DivUnique(x + Pow2(w - 1), Pow2(w), 0, x + Pow2(w - 1));
  }

  /** The quantised value times the divisor is nearest to the coefficient, and of two that are equally near the one away
      from zero; its sign is the coefficient's. */
  lemma RoundedIsNearest(x: int, d: nat)
    requires d > 0
    ensures var q, e := Rounded(x, d), Rounded(x, d) * d - x;
            if x >= 0 then q >= 0 && 0 < 2 * e + d <= 2 * d else q <= 0 && 0 <= 2 * e + d < 2 * d
  {
    var m: nat := if x < 0 then -x else x;
    var q, r := (m + d / 2) / d, (m + d / 2) % d;
    QuotientNonneg(m + d / 2, d);
    assert m + d / 2 == d * q + r;
    TimesMinus(q, d);
  }

  lemma TimesMinus(q: int, d: int)
    ensures -q * d == -(d * q) && q * d == d * q
  {
  }

  /** Conversions keep the low bits, and give a number of the type's range. */
  lemma ConversionsAre(x: int, w: nat)
    requires w > 0
    ensures (Signed(x, w) - x) % Pow2(w) == 0 && -Pow2(w - 1) <= Signed(x, w) < Pow2(w - 1)
    ensures (Unsigned(x, w) - x) % Pow2(w) == 0 && 0 <= Unsigned(x, w) < Pow2(w)
  {
    hide Pow2;
    Pow2Half(w);
    RestDivides(x + Pow2(w - 1), Pow2(w));
    RestDivides(x, Pow2(w));
  }

  lemma RestDivides(y: int, p: nat)
    requires p > 0
    ensures (y % p - y) % p == 0
  {
    Multiple(p, -(y / p));
    assert y == p * (y / p) + y % p && p * -(y / p) == -(p * (y / p));
  }
}
