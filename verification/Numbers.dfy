/** Powers of two, byte strings read as big-endian numbers, and bit strings. */
module Numbers {

  type Byte = b: int | 0 <= b < 256

  function Pow2(n: nat): (p: int)
    ensures p > 0
  {
    if n == 0 then 1 else 2 * Pow2(n - 1)
  }

  lemma MulAssoc(a: int, b: int, c: int)
    ensures a * (b * c) == (a * b) * c
  {
  }

  lemma {:induction false} Pow2Add(a: nat, b: nat)
    ensures Pow2(a + b) == Pow2(a) * Pow2(b)
  {
    if a > 0 {
      Pow2Add(a - 1, b);
      MulAssoc(2, Pow2(a - 1), Pow2(b));
    }
  }

  lemma {:induction false} Pow2Monotone(a: nat, b: nat)
    requires a <= b
    ensures Pow2(a) <= Pow2(b)
  {
    if a < b {
      Pow2Monotone(a, b - 1);
    }
  }

  /** The powers that the coders name by their hexadecimal values. */
  lemma Pow2Values()
    ensures Pow2(8) == 0x100 && Pow2(11) == 0x800 && Pow2(13) == 0x2000 && Pow2(15) == 0x8000
    ensures Pow2(16) == 0x10000 && Pow2(19) == 0x80000 && Pow2(24) == 0x100_0000 && Pow2(27) == 0x800_0000
  {
  }

  /** Multiplying both sides of a comparison by a positive factor changes nothing. */
  lemma MulCompare(a: int, b: int, k: int)
    requires k > 0
    ensures a * k <= b * k <==> a <= b
    ensures a * k < b * k <==> a < b
    ensures a * k == b * k <==> a == b
  {
  }

  /** The number whose base-256 digits, most significant first, are `s`. */
  function BytesVal(s: seq<Byte>): (v: int)
    ensures v >= 0
  {
    if s == [] then 0 else BytesVal(s[..|s| - 1]) * 256 + s[|s| - 1]
  }

  lemma BytesValSnoc(s: seq<Byte>, b: Byte)
    ensures BytesVal(s + [b]) == BytesVal(s) * 256 + b
  {
  }

  function Repeat(b: Byte, n: nat): (s: seq<Byte>)
    ensures |s| == n
    ensures forall i :: 0 <= i < n ==> s[i] == b
  {
    if n == 0 then [] else Repeat(b, n - 1) + [b]
  }

  lemma ThreeBytes(a: Byte, b: Byte, c: Byte)
    ensures BytesVal([a, b, c]) == a as int * 0x1_0000 + b as int * 0x100 + c as int
  {
    assert [a, b, c] == [a, b] + [c] && [a, b] == [a] + [b] && [a] == [] + [a];
    BytesValSnoc([a, b], c);
    BytesValSnoc([a], b);
    BytesValSnoc([], a);
  }

  lemma FourBytes(a: Byte, b: Byte, c: Byte, d: Byte)
    ensures BytesVal([a, b, c, d]) == a as int * 0x100_0000 + b as int * 0x1_0000 + c as int * 0x100 + d as int
  {
    assert [a, b, c, d] == [a, b, c] + [d];
    BytesValSnoc([a, b, c], d);
    ThreeBytes(a, b, c);
  }

  lemma Pow2Byte(n: nat)
    ensures Pow2(8 * (n + 1)) == Pow2(8 * n) * 256
  {
    hide Pow2;
    Pow2Values();
    Pow2Add(8 * n, 8);
  }

  lemma {:induction false} BytesValAppend(s: seq<Byte>, t: seq<Byte>)
    ensures BytesVal(s + t) == BytesVal(s) * Pow2(8 * |t|) + BytesVal(t)
  {
    if t == [] {
      assert s + t == s;
    } else {
      var u, b := t[..|t| - 1], t[|t| - 1];
      BytesValAppend(s, u);
      assert s + t == (s + u) + [b];
      BytesValSnoc(s + u, b);
      Pow2Byte(|u|);
      MulAssoc(BytesVal(s), Pow2(8 * |u|), 256);
    }
  }

  lemma {:induction false} BytesValZeros(n: nat)
    ensures BytesVal(Repeat(0, n)) == 0
  {
    if n > 0 {
      BytesValZeros(n - 1);
      BytesValSnoc(Repeat(0, n - 1), 0);
    }
  }

  lemma {:induction false} BytesValOnes(n: nat)
    ensures BytesVal(Repeat(255, n)) == Pow2(8 * n) - 1
  {
    if n > 0 {
      BytesValOnes(n - 1);
      BytesValSnoc(Repeat(255, n - 1), 255);
      Pow2Byte(n - 1);
    }
  }

  lemma {:induction false} BytesValBound(s: seq<Byte>)
    ensures BytesVal(s) < Pow2(8 * |s|)
  {
    if s != [] {
      BytesValBound(s[..|s| - 1]);
      Pow2Add(8, 8 * (|s| - 1));
      assert Pow2(8) == 256;
    }
  }

  lemma QuotientNonneg(x: int, p: int)
    requires x >= 0 && p > 0
    ensures x / p >= 0
  {
  }

  lemma DivUnique(v: int, d: nat, q: int, r: nat)
    requires d > 0 && v == d * q + r && r < d
    ensures v / d == q && v % d == r
  {
    var q', r' := v / d, v % d;
    assert d * (q - q') == r' - r;
    MulCompare(q - q', 1, d);
    MulCompare(-1, q - q', d);
  }

  lemma DivBounds(b: nat, d: nat)
    requires d > 0
    ensures b / d * d <= b < (b / d + 1) * d
  {
  }

  lemma SmallMod(x: int, p: int)
    requires p > 0 && -p <= x < p
    ensures x % p == if x < 0 then x + p else x
  {
  }

  lemma Split(a: int, b: int, k: int)
    ensures (a + b) * k == a * k + b * k
  {
  }

  lemma Pow2One()
    ensures Pow2(0) == 1
  {
  }

  lemma Pow2Half(n: nat)
    requires n > 0
    ensures Pow2(n) == 2 * Pow2(n - 1)
  {
  }

  lemma Multiple(q: int, x: int)
    requires q > 0
    ensures (q * x) % q == 0
  {
    var r, e := (q * x) % q, (q * x) / q;
    assert q * (x - e) == r;
    assert q * (x - e) == (x - e) * q;
    MulCompare(0, x - e, q);
    MulCompare(x - e, 1, q);
  }

  lemma Pow2Step(e: nat)
    ensures Pow2(e + 1) == 2 * Pow2(e)
  {
  }

  /** Quotient and remainder as natural numbers. */
  lemma DivMod(x: nat, d: nat) returns (q: nat, r: nat)
    requires d > 0
    ensures q == x / d && r == x % d && x == q * d + r && r < d
  {
    QuotientNonneg(x, d);
    q, r := x / d, x % d;
    assert x == d * q + r;
  }
}
