/** The steps of `DesCipher.java` as FIPS 46-3 describes DES: the initial permutation, the choice of key bits, and what
    each S-box looks up. The contents of the S-boxes stay open. */
module DesStandard {
  import opened Numbers
  import opened Des
  import opened DesCipher

  /** Byte `b` of a number, and bit `i` of its word. */
  function ByteAt(n: nat, b: nat): nat {
    QuotientNonneg(n, Pow2(8 * b));
    n / Pow2(8 * b) % 256
  }

  lemma BitOfByte(n: nat, b: nat, i: nat)
    requires b < 4 && i < 8
    ensures Const(n)[8 * b + i] == (ByteAt(n, b) / Pow2(i) % 2 == 1)
  {
    hide Pow2;
    Pow2Add(8 * b, i);
    QuotientNonneg(n, Pow2(8 * b));
    Nested(n, Pow2(8 * b), Pow2(i));
    LowByte(n / Pow2(8 * b), i);
  }

  lemma Nested(n: nat, p: nat, q: nat)
    requires p > 0 && q > 0
    ensures p * q > 0 && n / (p * q) == n / p / q
  {
    var a, r := n / p, n % p;
    QuotientNonneg(n, p);
    var c, s := a / q, a % q;
    assert n == p * a + r && a == q * c + s;
    assert p * (q * c + s) == p * q * c + p * s;
    MulCompare(s, q - 1, p);
    assert p * s + r < p * q;
    assert p * q > 0;
    DivUnique(n, p * q, c, p * s + r);
  }

  lemma LowByte(x: nat, i: nat)
    requires i < 8
    ensures x / Pow2(i) % 2 == x % 256 / Pow2(i) % 2
  {
    hide Pow2;
    Pow2Add(i, 8 - i);
    Pow2Half(8 - i);
    BytePowers();
    LowPart(x, Pow2(i), Pow2(7 - i));
  }

  lemma LowPart(x: nat, p: nat, h: nat)
    requires p > 0 && p * (2 * h) == 256
    ensures x / p % 2 == x % 256 / p % 2
  {
    var n, l := x / 256, x % 256;
    Divided(x, 256);
    Divided(l, p);
    QuotientOf(x, p, h, n, l / p, l % p);
  }

  lemma QuotientOf(x: nat, p: nat, h: nat, n: int, a: int, r: nat)
    requires p > 0 && p * (2 * h) == 256 && x == 256 * n + (p * a + r) && r < p
    ensures x / p % 2 == a % 2
  {
    Rearranged(p, h, n, a);
    DivUnique(x, p, 2 * (h * n) + a, r);
  }

  lemma Divided(x: int, d: nat)
    requires d > 0
    ensures x == d * (x / d) + x % d && 0 <= x % d < d
  {
  }

  lemma Rearranged(p: int, h: int, n: int, a: int)
    ensures p * (2 * h) * n + p * a == p * (2 * (h * n) + a)
  {
    assert p * (2 * h) * n == p * (2 * (h * n));
    assert p * (2 * (h * n) + a) == p * (2 * (h * n)) + p * a;
  }

  lemma BytePowers()
    ensures Pow2(0) == 1 && Pow2(1) == 2 && Pow2(2) == 4 && Pow2(3) == 8
    ensures Pow2(4) == 16 && Pow2(5) == 32 && Pow2(6) == 64 && Pow2(7) == 128
    ensures Pow2(8) == 0x100 && Pow2(16) == 0x1_0000 && Pow2(24) == 0x100_0000
  {
    Pow2Values();
  }

  /** The bits of a byte that consists of repeated parts. */
  lemma ByteBits(k: nat)
    requires k < 8
    ensures 0 / Pow2(k) % 2 == 0 && 0xff / Pow2(k) % 2 == 1
    ensures 0x0f / Pow2(k) % 2 == 1 <==> k < 4
    ensures 0x33 / Pow2(k) % 2 == 1 <==> k % 4 < 2
    ensures 0xaa / Pow2(k) % 2 == 1 <==> k % 2 == 1
    ensures 1 / Pow2(k) % 2 == 1 <==> k == 0
  {
    hide Pow2;
    BytePowers();
  }

  /** The bits of the constants. */
  lemma Masks(i: nat)
    requires i < 32
    ensures Const(0x0f0f0f0f)[i] <==> i % 8 < 4
    ensures Const(0x0000ffff)[i] <==> i < 16
    ensures Const(0x33333333)[i] <==> i % 4 < 2
    ensures Const(0x00ff00ff)[i] <==> i % 16 < 8
    ensures Const(0xaaaaaaaa)[i] <==> i % 2 == 1
    ensures Const(1)[i] <==> i == 0
  {
    hide Const;
    var b, k := i / 8, i % 8;
    MaskBits(b, k);
  }

  lemma MaskBits(b: nat, k: nat)
    requires b < 4 && k < 8
    ensures Const(0x0f0f0f0f)[8 * b + k] <==> k < 4
    ensures Const(0x0000ffff)[8 * b + k] <==> b < 2
    ensures Const(0x33333333)[8 * b + k] <==> k % 4 < 2
    ensures Const(0x00ff00ff)[8 * b + k] <==> b % 2 == 0
    ensures Const(0xaaaaaaaa)[8 * b + k] <==> k % 2 == 1
    ensures Const(1)[8 * b + k] <==> b == 0 && k == 0
  {
    hide Const, Pow2, ByteAt;
    MaskBytes(b);
    ByteBits(k);
    BitOfByte(0x0f0f0f0f, b, k);
    BitOfByte(0x0000ffff, b, k);
    BitOfByte(0x33333333, b, k);
    BitOfByte(0x00ff00ff, b, k);
    BitOfByte(0xaaaaaaaa, b, k);
    BitOfByte(1, b, k);
  }

  lemma MaskBytes(b: nat)
    requires b < 4
    ensures ByteAt(0x0f0f0f0f, b) == 0x0f && ByteAt(0x33333333, b) == 0x33 && ByteAt(0xaaaaaaaa, b) == 0xaa
    ensures ByteAt(0x0000ffff, b) == (if b < 2 then 0xff else 0)
    ensures ByteAt(0x00ff00ff, b) == if b % 2 == 0 then 0xff else 0
    ensures ByteAt(1, b) == if b == 0 then 1 else 0
  {
    hide Pow2;
    BytePowers();
  }

  /** An exchange step swaps the bits under the mask with those `s` places higher in the other word. */
  lemma ExchangeBits(h: Halves, s: nat, mask: Word, i: nat)
    requires ShiftsWithin(mask, s) && i < 32
    ensures Exchange(h, s, mask).l[i] == if i >= s && mask[i - s] then h.r[i - s] else h.l[i]
    ensures Exchange(h, s, mask).r[i] == if i + s < 32 && mask[i] then h.l[i + s] else h.r[i]
  {
  }

  /** Bit `k` of byte `b` of a word, from the least significant ones. */
  function At(w: Word, b: nat, k: nat): bool
    requires b < 4 && k < 8
  {
    w[8 * b + k]
  }

  lemma By4Bits(h: Halves, b: nat, k: nat)
    requires b < 4 && k < 8
    ensures At(By4(h).l, b, k) == if k >= 4 then At(h.r, b, k - 4) else At(h.l, b, k)
    ensures At(By4(h).r, b, k) == if k < 4 then At(h.l, b, k + 4) else At(h.r, b, k)
  {
    hide Exchange, Const, ShiftsWithin, Pow2;
    Within();
    ExchangeBits(h, 4, Const(0x0f0f0f0f), 8 * b + k);
    MaskBits(b, k);
    if k >= 4 {
      MaskBits(b, k - 4);
    } else if b > 0 {
      MaskBits(b - 1, k + 4);
    }
  }

  lemma By16Bits(h: Halves, b: nat, k: nat)
    requires b < 4 && k < 8
    ensures At(By16(h).l, b, k) == if b >= 2 then At(h.r, b - 2, k) else At(h.l, b, k)
    ensures At(By16(h).r, b, k) == if b < 2 then At(h.l, b + 2, k) else At(h.r, b, k)
  {
    hide Exchange, Const, ShiftsWithin, Pow2;
    Within();
    ExchangeBits(h, 16, Const(0x0000ffff), 8 * b + k);
    MaskBits(b, k);
    if b >= 2 {
      MaskBits(b - 2, k);
    }
  }

  lemma By2Bits(h: Halves, b: nat, k: nat)
    requires b < 4 && k < 8
    ensures At(By2(h).l, b, k) == if k % 4 >= 2 then At(h.r, b, k - 2) else At(h.l, b, k)
    ensures At(By2(h).r, b, k) == if k % 4 < 2 then At(h.l, b, k + 2) else At(h.r, b, k)
  {
    hide Exchange, Const, ShiftsWithin, Pow2;
    Within();
    ExchangeBits(h, 2, Const(0x33333333), 8 * b + k);
    MaskBits(b, k);
    if k >= 2 {
      MaskBits(b, k - 2);
    } else if b > 0 {
      MaskBits(b - 1, k + 6);
    }
  }

  lemma By8Bits(h: Halves, b: nat, k: nat)
    requires b < 4 && k < 8
    ensures At(By8(h).l, b, k) == if b % 2 == 1 then At(h.r, b - 1, k) else At(h.l, b, k)
    ensures At(By8(h).r, b, k) == if b % 2 == 0 then At(h.l, b + 1, k) else At(h.r, b, k)
  {
    hide Exchange, Const, ShiftsWithin, Pow2;
    Within();
    ExchangeBits(h, 8, Const(0x00ff00ff), 8 * b + k);
    MaskBits(b, k);
    if b >= 1 {
      MaskBits(b - 1, k);
    }
  }

  lemma Within()
    ensures ShiftsWithin(Const(0x0f0f0f0f), 4) && ShiftsWithin(Const(0x0000ffff), 16)
    ensures ShiftsWithin(Const(0x33333333), 2) && ShiftsWithin(Const(0x00ff00ff), 8)
  {
    hide Const, ShiftsWithin, Pow2;
    Pow2Values();
    MaskSizes();
    ConstShiftsWithin(0x0f0f0f0f, 4);
    ConstShiftsWithin(0x0000ffff, 16);
    ConstShiftsWithin(0x33333333, 2);
    ConstShiftsWithin(0x00ff00ff, 8);
  }

  lemma RotatedBits(x: Word, i: nat)
    requires i < 32
    ensures RotateLeft(x)[i] == x[if i == 0 then 31 else i - 1]
    ensures RotateRight(x)[i] == x[if i == 31 then 0 else i + 1]
  {
    hide Const;
    Masks(i);
  }

  lemma AlternatedBits(h: Halves, i: nat)
    requires i < 32
    ensures Alternated(h).l[i] == (if i % 2 == 1 then h.r[i] else h.l[i])
    ensures Alternated(h).r[i] == (if i % 2 == 1 then h.l[i] else h.r[i])
  {
    hide Const;
    Masks(i);
  }

  /** Bit `p` of a block, numbered as the standard does, but from 0. */
  function BitAt(h: Halves, p: nat): bool
    requires p < 64
  {
    if p < 32 then h.l[31 - p] else h.r[63 - p]
  }

  /** Bit `j` of byte `7 - q` of a block, counted from its least significant byte. */
  function Source(h: Halves, q: nat, j: nat): bool
    requires q < 8 && j < 8
  {
    if q < 4 then At(h.l, 3 - q, j) else At(h.r, 7 - q, j)
  }

  /** The bits in front of the alternating exchange. */
  lemma BeforeAlternation(h: Halves, b: nat, k: nat)
    requires b < 4 && k < 8
    ensures var e := By8(By2(Swap(By16(By4(h)))));
            && At(e.l, b, k) == (if k % 2 == 0 then Source(h, k + 1, 2 * b) else Source(h, k, 2 * b + 1))
            && At(e.r, b, k) == if k % 2 == 0 then Source(h, k, 2 * b) else Source(h, k - 1, 2 * b + 1)
  {
    hide By2, By4, By8, By16, At;
    var c := By16(By4(h));
    var d := By2(Swap(c));
    var b' := if b % 2 == 0 then b + 1 else b - 1;
    var k' := if k % 4 >= 2 then k - 2 else k + 2;
    FirstSteps(h, b, k);
    FirstSteps(h, b, k');
    FirstSteps(h, b', k);
    FirstSteps(h, b', k');
    By2Bits(Swap(c), b, k);
    By2Bits(Swap(c), b', k);
    By8Bits(d, b, k);
  }

  lemma FirstSteps(h: Halves, b: nat, k: nat)
    requires b < 4 && k < 8
    ensures var c := By16(By4(h));
            && At(c.l, b, k) == (if b >= 2 then (if k < 4 then At(h.l, b - 2, k + 4) else At(h.r, b - 2, k))
                                 else if k >= 4 then At(h.r, b, k - 4) else At(h.l, b, k))
            && At(c.r, b, k) == (if b < 2 then (if k >= 4 then At(h.r, b + 2, k - 4) else At(h.l, b + 2, k))
                                 else if k < 4 then At(h.l, b, k + 4) else At(h.r, b, k))
  {
    hide By4, By16, At;
    By16Bits(By4(h), b, k);
    By4Bits(h, b, k);
    By4Bits(h, if b >= 2 then b - 2 else b + 2, k);
  }

  /** The permutation IP of FIPS 46-3: where bit `p` of the result comes from, both numbered from 0. */
  function Ip(p: nat): (q: nat)
    requires p < 64
    ensures q < 64
  {
    if p < 32 then 57 + 2 * (p / 8) - 8 * (p % 8) else 56 + 2 * ((p - 32) / 8) - 8 * ((p - 32) % 8)
  }

  /** Bit `p` of a block as bytes. */
  function BlockBit(b: seq<Octet>, p: nat): bool
    requires |b| == 8 && p < 64
  {
    b[p / 8][7 - p % 8]
  }

  lemma SquashedBit(b: seq<Octet>, p: nat)
    requires |b| == 8 && p < 64
    ensures BitAt(Squash(b), p) == BlockBit(b, p)
  {
  }

  /** The opening network is the initial permutation, with both halves rotated left by one bit. */
  lemma InitialPermutation(b: seq<Octet>, p: nat)
    requires |b| == 8 && p < 32
    ensures Opened(Squash(b)).l[(32 - p) % 32] == BlockBit(b, Ip(p))
    ensures Opened(Squash(b)).r[(32 - p) % 32] == BlockBit(b, Ip(32 + p))
  {
    hide By2, By4, By8, By16, Squash, RotateLeft, Alternated, BitAt, BlockBit;
    var h := Squash(b);
    var row, col := p / 8, p % 8;
    var k := 7 - col;
    var e := By8(By2(Swap(By16(By4(h)))));
    OpenedBits(h, 3 - row, k);
    assert 8 * (3 - row) + k == 31 - p;
    SourceIs(h, k, 2 * (3 - row));
    SourceIs(h, k, 2 * (3 - row) + 1);
    SquashedBit(b, Ip(p));
    SquashedBit(b, Ip(32 + p));
  }

  lemma SourceIs(h: Halves, q: nat, j: nat)
    requires q < 8 && j < 8
    ensures Source(h, q, j) == BitAt(h, 8 * q + 7 - j)
  {
  }

  lemma OpenedBits(h: Halves, b: nat, k: nat)
    requires b < 4 && k < 8
    ensures var i := if b == 3 && k == 7 then 0 else 8 * b + k + 1;
            Opened(h).l[i] == Source(h, k, 2 * b) && Opened(h).r[i] == Source(h, k, 2 * b + 1)
  {
    hide By2, By4, By8, By16, RotateLeft, Alternated, Source;
    var e := By8(By2(Swap(By16(By4(h)))));
    var i := 8 * b + k;
    var j := if i == 31 then 0 else i + 1;
    AfterAlternation(e, i, j);
    BeforeAlternation(h, b, k);
    if k % 2 == 0 {
      BeforeAlternation(h, b, k + 1);
    } else {
      BeforeAlternation(h, b, k - 1);
    }
  }

  lemma AfterAlternation(e: Halves, i: nat, j: nat)
    requires i < 32 && j == if i == 31 then 0 else i + 1
    ensures var o := RotatedLeft(Swap(Alternated(RotatedLeft(e))));
            && o.l[j] == (if i % 2 == 1 then e.l[i - 1] else e.r[i])
            && o.r[j] == if i % 2 == 1 then e.l[i] else e.r[i + 1]
  {
    hide RotateLeft, Alternated;
    var f := RotatedLeft(e);
    var g := Alternated(f);
    RotatedBits(g.r, j);
    RotatedBits(e.l, i);
    RotatedBits(e.l, j);
    AlternatedBits(f, i);
    AlternatedBits(f, j);
  }

  /** Power-of-two constants have one bit. */
  lemma OneBit(e: nat, i: nat)
    requires e < 32 && i < 32
    ensures Const(Pow2(e))[i] <==> i == e
  {
    hide Pow2;
    if i < e {
      Pow2Add(i, e - i);
      assert Pow2(e) == Pow2(i) * Pow2(e - i);
      Pow2Half(e - i);
      DivUnique(Pow2(e), Pow2(i), Pow2(e - i), 0);
    } else if i == e {
      DivUnique(Pow2(e), Pow2(i), 1, 0);
    } else {
      Pow2Monotone(e + 1, i);
      Pow2Step(e);
      DivUnique(Pow2(e), Pow2(i), 0, Pow2(e));
    }
  }

  lemma BigBytes(j: nat)
    requires j < 24
    ensures |BIGBYTE| == 24 && BIGBYTE[j] == Pow2(23 - j)
  {
    TableSizes();
    BytePowers();
    hide Pow2;
    Pow2Step(8);
    Pow2Step(9);
    Pow2Step(10);
    Pow2Step(11);
    Pow2Step(12);
    Pow2Step(13);
    Pow2Step(14);
    Pow2Step(16);
    Pow2Step(17);
    Pow2Step(18);
    Pow2Step(19);
    Pow2Step(20);
    Pow2Step(21);
    Pow2Step(22);
  }

  /** Half a raw round key holds the selected bits, the first in bit 23. */
  lemma {:induction false} RawBits(key: seq<Octet>, r: nat, half: nat, n: nat, i: nat)
    requires |key| == 8 && r < 16 && half <= 1 && n <= 24 && i < 32
    ensures |PC2| == 48
    ensures RawTo(key, r, half, n)[i] == (24 - n <= i < 24 && Pcr(key, r, PC2[23 - i + 24 * half]))
  {
    TableSizes();
    hide Pow2, Pcr, Const, PC2, BIGBYTE;
    if n == 0 {
      Zero(i);
    } else {
      RawBits(key, r, half, n - 1, i);
      BigBytes(n - 1);
      OneBit(24 - n, i);
    }
  }

  lemma Zero(i: nat)
    requires i < 32
    ensures !Const(0)[i]
  {
    DivUnique(0, Pow2(i), 0, 0);
  }

  /** The masks of `cookey`: the four groups of six bits. */
  lemma Groups(i: nat)
    requires i < 32
    ensures Const(0x00fc0000)[i] <==> 18 <= i < 24
    ensures Const(0x0003f000)[i] <==> 12 <= i < 18
    ensures Const(0x00000fc0)[i] <==> 6 <= i < 12
    ensures Const(0x0000003f)[i] <==> i < 6
  {
    hide Const;
    var b, k := i / 8, i % 8;
    GroupBits(b, k);
  }

  lemma GroupBits(b: nat, k: nat)
    requires b < 4 && k < 8
    ensures Const(0x00fc0000)[8 * b + k] <==> b == 2 && k >= 2
    ensures Const(0x0003f000)[8 * b + k] <==> (b == 1 && k >= 4) || (b == 2 && k < 2)
    ensures Const(0x00000fc0)[8 * b + k] <==> (b == 0 && k >= 6) || (b == 1 && k < 4)
    ensures Const(0x0000003f)[8 * b + k] <==> b == 0 && k < 6
  {
    hide Const, Pow2, ByteAt;
    GroupBytes(b);
    GroupByteBits(k);
    BitOfByte(0x00fc0000, b, k);
    BitOfByte(0x0003f000, b, k);
    BitOfByte(0x00000fc0, b, k);
    BitOfByte(0x0000003f, b, k);
  }

  lemma GroupBytes(b: nat)
    requires b < 4
    ensures ByteAt(0x00fc0000, b) == if b == 2 then 0xfc else 0
    ensures ByteAt(0x0003f000, b) == if b == 1 then 0xf0 else if b == 2 then 0x03 else 0
    ensures ByteAt(0x00000fc0, b) == if b == 0 then 0xc0 else if b == 1 then 0x0f else 0
    ensures ByteAt(0x0000003f, b) == if b == 0 then 0x3f else 0
  {
    hide Pow2;
    BytePowers();
  }

  lemma GroupByteBits(k: nat)
    requires k < 8
    ensures 0 / Pow2(k) % 2 == 0
    ensures 0xfc / Pow2(k) % 2 == 1 <==> k >= 2
    ensures 0xf0 / Pow2(k) % 2 == 1 <==> k >= 4
    ensures 0x03 / Pow2(k) % 2 == 1 <==> k < 2
    ensures 0xc0 / Pow2(k) % 2 == 1 <==> k >= 6
    ensures 0x0f / Pow2(k) % 2 == 1 <==> k < 4
    ensures 0x3f / Pow2(k) % 2 == 1 <==> k < 6
  {
    hide Pow2;
    BytePowers();
  }

  /** What `cookey` makes of a raw pair: groups 1, 3 of the first half and 1, 3 of the second in one word, groups 2
      and 4 of both in the other, each in the low bits of a byte. */
  lemma CookBits(raw0: Word, raw1: Word, i: nat)
    requires i < 6
    ensures var c := Cook(raw0, raw1);
            && c.k0[24 + i] == raw0[18 + i] && c.k0[16 + i] == raw0[6 + i]
            && c.k0[8 + i] == raw1[18 + i] && c.k0[i] == raw1[6 + i]
            && c.k1[24 + i] == raw0[12 + i] && c.k1[16 + i] == raw0[i]
            && c.k1[8 + i] == raw1[12 + i] && c.k1[i] == raw1[i]
  {
    hide Const, Cook;
    FirstWord(raw0, raw1, 24 + i);
    FirstWord(raw0, raw1, 16 + i);
    FirstWord(raw0, raw1, 8 + i);
    FirstWord(raw0, raw1, i);
    SecondWord(raw0, raw1, 24 + i);
    SecondWord(raw0, raw1, 16 + i);
    SecondWord(raw0, raw1, 8 + i);
    SecondWord(raw0, raw1, i);
  }

  /** A bit of a word, if it is one of the six from `from` on. */
  function Picked(w: Word, from: nat, i: int): bool
    requires from <= 18
  {
    from <= i < from + 6 && w[i]
  }

  lemma FirstWord(raw0: Word, raw1: Word, i: nat)
    requires i < 32
    ensures Cook(raw0, raw1).k0[i]
            == (Picked(raw0, 18, i - 6) || Picked(raw0, 6, i - 10) || Picked(raw1, 18, i + 10)
                || Picked(raw1, 6, i + 6))
  {
    hide Const;
    if i >= 6 {
      Groups(i - 6);
    }
    if i >= 10 {
      Groups(i - 10);
    }
    if i < 22 {
      Groups(i + 10);
    }
    if i < 26 {
      Groups(i + 6);
    }
  }

  lemma SecondWord(raw0: Word, raw1: Word, i: nat)
    requires i < 32
    ensures Cook(raw0, raw1).k1[i]
            == (Picked(raw0, 12, i - 12) || Picked(raw0, 0, i - 16) || Picked(raw1, 12, i + 4) || Picked(raw1, 0, i))
  {
    hide Const;
    Groups(i);
    if i >= 12 {
      Groups(i - 12);
    }
    if i >= 16 {
      Groups(i - 16);
    }
    if i < 28 {
      Groups(i + 4);
    }
  }

  /** The six bits that S-box `s` (from 1) looks up in a round, the least significant first. */
  function Index(x: Word, k: RoundKey, s: nat): (six: seq<bool>)
    requires 1 <= s <= 8
    ensures |six| == 6
  {
    var a, b := Xor(Or(Shl(x, 28), Shr(x, 4)), k.k0), Xor(x, k.k1);
    if s == 1 then Six(Shr(a, 24)) else if s == 2 then Six(Shr(b, 24))
    else if s == 3 then Six(Shr(a, 16)) else if s == 4 then Six(Shr(b, 16))
    else if s == 5 then Six(Shr(a, 8)) else if s == 6 then Six(Shr(b, 8))
    else if s == 7 then Six(a) else Six(b)
  }

  /** The round function is made of the eight S-boxes at these indexes. */
  lemma RoundLooksUp(sp: SpTables, x: Word, k: RoundKey, i: nat)
    requires i < 32
    ensures F(sp, x, k)[i]
            == (sp.sp1(Index(x, k, 1))[i] || sp.sp2(Index(x, k, 2))[i] || sp.sp3(Index(x, k, 3))[i]
                || sp.sp4(Index(x, k, 4))[i] || sp.sp5(Index(x, k, 5))[i] || sp.sp6(Index(x, k, 6))[i]
                || sp.sp7(Index(x, k, 7))[i] || sp.sp8(Index(x, k, 8))[i])
  {
  }

  /** The expansion E and the choice PC-2: in round `r`, S-box `s` looks up six adjacent bits of the right half,
      which is kept rotated left by one bit, each exclusive-or one key bit; its first bit is the one before its own
      four. */
  lemma IndexIs(key: seq<Octet>, r: nat, x: Word, s: nat, j: nat)
    requires |key| == 8 && r < 16 && 1 <= s <= 8 && j < 6
    ensures |PC2| == 48
    ensures Index(x, SubKey(key, r), s)[j] == (x[(32 - 4 * s + j) % 32] != Pcr(key, r, PC2[6 * s - 1 - j]))
  {
    TableSizes();
    hide Pcr, RawTo, Cook, Const, PC2, Index;
    var raw0, raw1 := RawTo(key, r, 0, 24), RawTo(key, r, 1, 24);
    CookBits(raw0, raw1, j);
    IndexBit(x, SubKey(key, r), s, j);
    if s <= 4 {
      RawBits(key, r, 0, 24, 24 - 6 * s + j);
    } else {
      RawBits(key, r, 1, 24, 48 - 6 * s + j);
    }
  }

  /** The bit of a round key that goes into bit `j` of the index. */
  function KeyBit(k: RoundKey, s: nat, j: nat): bool
    requires 1 <= s <= 8 && j < 6
  {
    if s == 1 then k.k0[24 + j] else if s == 2 then k.k1[24 + j] else if s == 3 then k.k0[16 + j]
    else if s == 4 then k.k1[16 + j] else if s == 5 then k.k0[8 + j] else if s == 6 then k.k1[8 + j]
    else if s == 7 then k.k0[j] else k.k1[j]
  }

  lemma IndexBit(x: Word, k: RoundKey, s: nat, j: nat)
    requires 1 <= s <= 8 && j < 6
    ensures Index(x, k, s)[j] == (x[(32 - 4 * s + j) % 32] != KeyBit(k, s, j))
  {
    Rotated4(x, if s == 1 then 24 + j else if s == 3 then 16 + j else if s == 5 then 8 + j else j);
  }

  lemma Rotated4(x: Word, i: nat)
    requires i < 32
    ensures Or(Shl(x, 28), Shr(x, 4))[i] == x[(i + 4) % 32]
  {
  }

  /** PC-1 in the standard's table, from 0. */
  function Choice(j: nat): int {
    if j < 28 then 56 - 8 * (j % 8) + j / 8
    else if j < 52 then 62 - 8 * ((j - 28) % 8) - (j - 28) / 8 else 27 - 8 * (j - 52)
  }

  lemma ChosenC()
    ensures |PC1| == 56 && forall j :: 0 <= j < 14 ==> PC1[j] == Choice(j)
  {
  }

  lemma RestOfC()
    ensures |PC1| == 56 && forall j :: 14 <= j < 28 ==> PC1[j] == Choice(j)
  {
  }

  lemma ChosenD()
    ensures |PC1| == 56 && forall j :: 28 <= j < 35 ==> PC1[j] == Choice(j)
  {
  }

  lemma MoreOfD()
    ensures |PC1| == 56 && forall j :: 35 <= j < 42 ==> PC1[j] == Choice(j)
  {
  }

  lemma RestOfD()
    ensures |PC1| == 56 && forall j :: 42 <= j < 56 ==> PC1[j] == Choice(j)
  {
  }

  /** PC-1 goes along the columns of the key from the last row up, from either side; the high bit of a byte is chosen
      for neither half. */
  lemma FirstChoice(j: nat)
    requires j < 56
    ensures |PC1| == 56 && PC1[j] == Choice(j) && PC1[j] % 8 != 7
  {
    hide PC1, Choice;
    NoParity(j);
    ChosenC();
    RestOfC();
    ChosenD();
    MoreOfD();
    RestOfD();
  }

  lemma NoParity(j: nat)
    requires j < 56
    ensures Choice(j) % 8 != 7
  {
  }

  /** The rotations add up to one turn, by one bit in rounds 1, 2, 9 and 16 and by two in the others. */
  lemma Rotations(r: nat)
    requires r < 16
    ensures |TOTROT| == 16 && TOTROT[15] == 28
    ensures TOTROT[r] == (if r == 0 then 0 else TOTROT[r - 1]) + if r == 0 || r == 1 || r == 8 || r == 15 then 1 else 2
  {
  }

  /** PC-2 takes 24 bits from each half. */
  lemma SecondChoice(j: nat)
    requires j < 48
    ensures |PC2| == 48 && (PC2[j] < 28 <==> j < 24)
  {
  }

  /** The high bit of every key byte is ignored. */
  lemma ParityIgnored(key: seq<Octet>, key': seq<Octet>)
    requires |key| == |key'| == 8 && forall b, i :: 0 <= b < 8 && 0 <= i < 7 ==> key[b][i] == key'[b][i]
    ensures Schedule(key) == Schedule(key')
  {
    hide SubKey, PC1;
    forall r | 0 <= r < 16
      ensures SubKey(key, r) == SubKey(key', r)
    {
      forall j: nat | j < 56
        ensures Pc1m(key, j) == Pc1m(key', j)
      {
        FirstChoice(j);
        PermutedBit(key, j);
        PermutedBit(key', j);
      }
      SameKey(key, key', r);
    }
  }

  lemma SameKey(key: seq<Octet>, key': seq<Octet>, r: nat)
    requires |key| == |key'| == 8 && r < 16 && forall j: nat :: j < 56 ==> Pc1m(key, j) == Pc1m(key', j)
    ensures SubKey(key, r) == SubKey(key', r)
  {
    TableSizes();
    hide PC1, PC2, BIGBYTE, TOTROT, Pc1m, Const, Cook, RawTo;
    forall j: nat | j < 56
      ensures Pcr(key, r, j) == Pcr(key', r, j)
    {
    }
    SameRaw(key, key', r, 0, 24);
    SameRaw(key, key', r, 1, 24);
  }

  lemma {:induction false} SameRaw(key: seq<Octet>, key': seq<Octet>, r: nat, half: nat, n: nat)
    requires |key| == |key'| == 8 && r < 16 && half <= 1 && n <= 24
    requires forall j: nat :: j < 56 ==> Pcr(key, r, j) == Pcr(key', r, j)
    ensures RawTo(key, r, half, n) == RawTo(key', r, half, n)
  {
    TableSizes();
    hide PC1, PC2, BIGBYTE, TOTROT, Pcr, Const;
    if n > 0 {
      SameRaw(key, key', r, half, n - 1);
    }
  }

  function NotWord(w: Word): Word {
    seq(32, i requires 0 <= i < 32 => !w[i])
  }

  function NotHalves(h: Halves): Halves {
    Halves(NotWord(h.l), NotWord(h.r))
  }

  function NotOctet(b: Octet): Octet {
    seq(8, i requires 0 <= i < 8 => !b[i])
  }

  function NotBlock(b: seq<Octet>): (c: seq<Octet>)
    requires |b| == 8
    ensures |c| == 8
  {
    seq<Octet>(8, i requires 0 <= i < 8 => NotOctet(b[i]))
  }

  /** A round key whose bits are all complemented, as far as S-boxes see them. */
  ghost predicate Opposite(k: RoundKey, k': RoundKey) {
    forall s, j :: 1 <= s <= 8 && 0 <= j < 6 ==> KeyBit(k', s, j) == !KeyBit(k, s, j)
  }

  lemma OppositeKeys(key: seq<Octet>, r: nat)
    requires |key| == 8 && r < 16
    ensures Opposite(SubKey(key, r), SubKey(NotBlock(key), r))
  {
    TableSizes();
    hide PC1, PC2, BIGBYTE, TOTROT, Pc1m, Const, SubKey, KeyBit, Index, Pcr;
    var x: Word := seq(32, _ => false);
    forall s: nat, j: nat | 1 <= s <= 8 && j < 6
      ensures KeyBit(SubKey(NotBlock(key), r), s, j) == !KeyBit(SubKey(key, r), s, j)
    {
      IndexIs(key, r, x, s, j);
      IndexIs(NotBlock(key), r, x, s, j);
      IndexBit(x, SubKey(key, r), s, j);
      IndexBit(x, SubKey(NotBlock(key), r), s, j);
      OppositeBit(key, r, PC2[6 * s - 1 - j]);
    }
  }

  lemma OppositeBit(key: seq<Octet>, r: nat, j: nat)
    requires |key| == 8 && r < 16 && j < 56
    ensures Pcr(NotBlock(key), r, j) == !Pcr(key, r, j)
  {
    TableSizes();
    hide PC1, TOTROT;
  }

  /** Complementing both the half and the key leaves the S-boxes' indexes, so the round function, as they are. */
  lemma SameIndex(x: Word, k: RoundKey, k': RoundKey, s: nat)
    requires Opposite(k, k') && 1 <= s <= 8
    ensures Index(NotWord(x), k', s) == Index(x, k, s)
  {
    hide Index, KeyBit;
    forall j: nat | j < 6
      ensures Index(NotWord(x), k', s)[j] == Index(x, k, s)[j]
    {
      IndexBit(x, k, s, j);
      IndexBit(NotWord(x), k', s, j);
    }
  }

  lemma SameRoundFunction(sp: SpTables, x: Word, k: RoundKey, k': RoundKey)
    requires Opposite(k, k')
    ensures F(sp, NotWord(x), k') == F(sp, x, k)
  {
    hide F, Index, Opposite, NotWord;
    forall s: nat | 1 <= s <= 8
      ensures Index(NotWord(x), k', s) == Index(x, k, s)
    {
      SameIndex(x, k, k', s);
    }
    forall i: nat | i < 32
      ensures F(sp, NotWord(x), k')[i] == F(sp, x, k)[i]
    {
      RoundLooksUp(sp, x, k, i);
      RoundLooksUp(sp, NotWord(x), k', i);
    }
  }

  lemma OppositeRound(sp: SpTables, h: Halves, k: RoundKey, k': RoundKey)
    requires Opposite(k, k')
    ensures Round(sp, NotHalves(h), k') == NotHalves(Round(sp, h, k))
  {
    hide F, Opposite;
    SameRoundFunction(sp, h.r, k, k');
    NotXor(h.l, F(sp, h.r, k));
  }

  lemma NotXor(a: Word, b: Word)
    ensures Xor(NotWord(a), b) == NotWord(Xor(a, b))
  {
  }

  lemma {:induction false} OppositeRounds(sp: SpTables, h: Halves, keys: seq<RoundKey>, keys': seq<RoundKey>, n: nat)
    requires n <= |keys| == |keys'| && forall i :: 0 <= i < |keys| ==> Opposite(keys[i], keys'[i])
    ensures Rounds(sp, NotHalves(h), keys', n) == NotHalves(Rounds(sp, h, keys, n))
  {
    hide Round, Opposite, NotHalves;
    if n > 0 {
      OppositeRounds(sp, h, keys, keys', n - 1);
      OppositeRound(sp, Rounds(sp, h, keys, n - 1), keys[n - 1], keys'[n - 1]);
    }
  }

  lemma OppositeExchange(h: Halves, s: nat, mask: Word)
    requires ShiftsWithin(mask, s)
    ensures Exchange(NotHalves(h), s, mask) == NotHalves(Exchange(h, s, mask))
  {
    hide Exchange;
    forall i: nat | i < 32
      ensures Exchange(NotHalves(h), s, mask).l[i] == !Exchange(h, s, mask).l[i]
      ensures Exchange(NotHalves(h), s, mask).r[i] == !Exchange(h, s, mask).r[i]
    {
      ExchangeBits(h, s, mask, i);
      ExchangeBits(NotHalves(h), s, mask, i);
    }
  }

  lemma OppositeSteps(h: Halves)
    ensures By4(NotHalves(h)) == NotHalves(By4(h)) && By16(NotHalves(h)) == NotHalves(By16(h))
    ensures By2(NotHalves(h)) == NotHalves(By2(h)) && By8(NotHalves(h)) == NotHalves(By8(h))
    ensures Swap(NotHalves(h)) == NotHalves(Swap(h))
  {
    hide Exchange, Const, ShiftsWithin, NotWord;
    Within();
    OppositeExchange(h, 4, Const(0x0f0f0f0f));
    OppositeExchange(h, 16, Const(0x0000ffff));
    OppositeExchange(h, 2, Const(0x33333333));
    OppositeExchange(h, 8, Const(0x00ff00ff));
  }

  lemma OppositeTurns(h: Halves)
    ensures Alternated(NotHalves(h)) == NotHalves(Alternated(h))
    ensures RotatedLeft(NotHalves(h)) == NotHalves(RotatedLeft(h))
    ensures RotatedRight(NotHalves(h)) == NotHalves(RotatedRight(h))
  {
    hide Alternated, RotateLeft, RotateRight;
    forall i: nat | i < 32
      ensures Alternated(NotHalves(h)).l[i] == !Alternated(h).l[i]
      ensures Alternated(NotHalves(h)).r[i] == !Alternated(h).r[i]
      ensures RotateLeft(NotWord(h.l))[i] == !RotateLeft(h.l)[i] && RotateRight(NotWord(h.l))[i] == !RotateRight(h.l)[i]
    {
      AlternatedBits(h, i);
      AlternatedBits(NotHalves(h), i);
      RotatedBits(h.l, i);
      RotatedBits(NotWord(h.l), i);
    }
  }

  lemma OppositeNetworks(h: Halves)
    ensures Opened(NotHalves(h)) == NotHalves(Opened(h)) && Closed(NotHalves(h)) == NotHalves(Closed(h))
  {
    hide By2, By4, By8, By16, Alternated, RotatedLeft, RotatedRight, Swap, NotHalves;
    OppositeSteps(h);
    OppositeSteps(By4(h));
    OppositeSteps(By16(By4(h)));
    var a := Swap(By16(By4(h)));
    OppositeSteps(a);
    OppositeSteps(By2(a));
    var b := By8(By2(a));
    OppositeTurns(b);
    OppositeTurns(RotatedLeft(b));
    OppositeSteps(Alternated(RotatedLeft(b)));
    OppositeTurns(Swap(Alternated(RotatedLeft(b))));
    var c := Swap(h);
    OppositeTurns(c);
    OppositeTurns(RotatedRight(c));
    OppositeSteps(Alternated(RotatedRight(c)));
    var d := Swap(Alternated(RotatedRight(c)));
    OppositeTurns(d);
    OppositeSteps(RotatedRight(d));
    OppositeSteps(By8(RotatedRight(d)));
    var e := By2(By8(RotatedRight(d)));
    OppositeSteps(e);
    OppositeSteps(Swap(e));
    OppositeSteps(By16(Swap(e)));
  }

  /** The complementation property: complementing key and block complements the result, in either direction and for any
      S-boxes. */
  lemma Complementation(sp: SpTables, b: seq<Octet>, key: seq<Octet>, encrypting: bool)
    requires |b| == |key| == 8
    ensures BlockOf(sp, NotBlock(b), KeysFor(NotBlock(key), encrypting))
            == NotBlock(BlockOf(sp, b, KeysFor(key, encrypting)))
  {
    hide Opened, Closed, Rounds, Squash, Spread, NotHalves, Opposite, SubKey;
    var keys, keys' := KeysFor(key, encrypting), KeysFor(NotBlock(key), encrypting);
    forall i | 0 <= i < 16
      ensures Opposite(keys[i], keys'[i])
    {
      OppositeKeys(key, if encrypting then i else 15 - i);
    }
    var h := Squash(b);
    OppositeBlock(b);
    OppositeNetworks(h);
    OppositeRounds(sp, Opened(h), keys, keys', 16);
    OppositeNetworks(Rounds(sp, Opened(h), keys, 16));
    OppositeSpread(DesOf(sp, h, keys));
  }

  lemma OppositeBlock(b: seq<Octet>)
    requires |b| == 8
    ensures Squash(NotBlock(b)) == NotHalves(Squash(b))
  {
    assert Squash(NotBlock(b)).l == NotWord(Squash(b).l);
    assert Squash(NotBlock(b)).r == NotWord(Squash(b).r);
  }

  lemma OppositeSpread(h: Halves)
    ensures Spread(NotHalves(h)) == NotBlock(Spread(h))
  {
    OppositeByte(h.l);
    OppositeByte(h.r);
  }

  lemma OppositeByte(w: Word)
    ensures forall n: nat :: n <= 3 ==> ByteOf(NotWord(w), n) == NotOctet(ByteOf(w, n))
  {
    forall n: nat | n <= 3
      ensures ByteOf(NotWord(w), n) == NotOctet(ByteOf(w, n))
    {
    }
  }
}
