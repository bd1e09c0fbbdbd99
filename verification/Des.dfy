/** `DesCipher.java`: the DES function, key setting, and CBC on whole texts. The S-boxes are a parameter: the round
    trip holds for any. */
module Des {
  import opened Numbers

  /** A Java int as its 32 bits, least significant first. */
  type Word = w: seq<bool> | |w| == 32 witness seq(32, _ => false)

  function Xor(a: Word, b: Word): Word {
    seq(32, i requires 0 <= i < 32 => a[i] != b[i])
  }

  function And(a: Word, b: Word): Word {
    seq(32, i requires 0 <= i < 32 => a[i] && b[i])
  }

  function Or(a: Word, b: Word): Word {
    seq(32, i requires 0 <= i < 32 => a[i] || b[i])
  }

  /** The operators >>> and <<. */
  function Shr(a: Word, n: nat): Word {
    seq(32, i requires 0 <= i < 32 => i + n < 32 && a[i + n])
  }

  function Shl(a: Word, n: nat): Word {
    seq(32, i requires 0 <= i < 32 => i >= n && a[i - n])
  }

  /** A constant. */
  function Const(n: nat): Word {
    seq(32, i requires 0 <= i < 32 => n / Pow2(i) % 2 == 1)
  }

  /** The tables SP1 to SP8, indexed by six bits. */
  datatype SpTables = SpTables(sp1: seq<bool> -> Word, sp2: seq<bool> -> Word, sp3: seq<bool> -> Word,
                               sp4: seq<bool> -> Word,
                               sp5: seq<bool> -> Word, sp6: seq<bool> -> Word, sp7: seq<bool> -> Word,
                                 sp8: seq<bool> -> Word)

  /** The two halves of a block; `l` is the one that the next round changes. */
  datatype Halves = Halves(l: Word, r: Word)

  /** The two subkeys of a round. */
  datatype RoundKey = RoundKey(k0: Word, k1: Word)

  /** `x & 0x3f`, as an index. */
  function Six(x: Word): seq<bool> {
    x[..6]
  }

  /** The round function. */
  function F(sp: SpTables, x: Word, k: RoundKey): Word {
    var a := Xor(Or(Shl(x, 28), Shr(x, 4)), k.k0);
    var b := Xor(x, k.k1);
    var f := Or(Or(Or(sp.sp7(Six(a)), sp.sp5(Six(Shr(a, 8)))), sp.sp3(Six(Shr(a, 16)))), sp.sp1(Six(Shr(a, 24))));
    Or(Or(Or(Or(f, sp.sp8(Six(b))), sp.sp6(Six(Shr(b, 8)))), sp.sp4(Six(Shr(b, 16)))), sp.sp2(Six(Shr(b, 24))))
  }

  /** One round; the halves change places. */
  function Round(sp: SpTables, h: Halves, k: RoundKey): Halves {
    Halves(h.r, Xor(h.l, F(sp, h.r, k)))
  }

  /** The first `n` rounds. */
  function Rounds(sp: SpTables, h: Halves, keys: seq<RoundKey>, n: nat): Halves
    requires n <= |keys|
  {
    if n == 0 then h else Round(sp, Rounds(sp, h, keys, n - 1), keys[n - 1])
  }

  function Swap(h: Halves): Halves {
    Halves(h.r, h.l)
  }

  function Reversed(keys: seq<RoundKey>): (r: seq<RoundKey>)
    ensures |r| == |keys|
  {
    seq(|keys|, i requires 0 <= i < |keys| => keys[|keys| - 1 - i])
  }

  lemma XorTwice(a: Word, b: Word)
    ensures Xor(Xor(a, b), b) == a
  {
  }

  /** A round undoes itself on swapped halves, whatever the round function is. */
  lemma RoundUndone(sp: SpTables, h: Halves, k: RoundKey)
    ensures Round(sp, Swap(Round(sp, h, k)), k) == Swap(h)
  {
  }

  /** Running the rounds with the key pairs in reverse order leads back to the start. */
  lemma {:induction false} RoundsUndone(sp: SpTables, h: Halves, keys: seq<RoundKey>, m: nat)
    requires m <= |keys|
    ensures Rounds(sp, Swap(Rounds(sp, h, keys, |keys|)), Reversed(keys), m) == Swap(Rounds(sp, h, keys, |keys| - m))
  {
    hide Round, Swap;
    if m > 0 {
      RoundsUndone(sp, h, keys, m - 1);
      var n := |keys| - m;
      assert Reversed(keys)[m - 1] == keys[n];
      RoundUndone(sp, Rounds(sp, h, keys, n), keys[n]);
    }
  }

  /** "work = ((leftt >>> s) ^ right) & mask; right ^= work; leftt ^= (work << s);" */
  function Exchange(h: Halves, s: nat, mask: Word): Halves {
    var work := And(Xor(Shr(h.l, s), h.r), mask);
    Halves(Xor(h.l, Shl(work, s)), Xor(h.r, work))
  }

  /** No bit of the mask is lost in a shift left by `s`. */
  ghost predicate ShiftsWithin(mask: Word, s: nat) {
    forall i :: 0 <= i < 32 && mask[i] ==> i + s < 32
  }

  lemma ConstShiftsWithin(n: nat, s: nat)
    requires s < 32 && n < Pow2(32 - s)
    ensures ShiftsWithin(Const(n), s)
  {
    hide Pow2;
    forall i | 0 <= i < 32 && Const(n)[i]
      ensures i + s < 32
    {
      if i + s >= 32 {
        Pow2Monotone(32 - s, i);
        DivUnique(n, Pow2(i), 0, n);
        assert false;
      }
    }
  }

  lemma ExchangeTwice(h: Halves, s: nat, mask: Word)
    requires ShiftsWithin(mask, s)
    ensures Exchange(Exchange(h, s, mask), s, mask) == h
  {
    var e := Exchange(h, s, mask);
    var w, w1 := And(Xor(Shr(h.l, s), h.r), mask), And(Xor(Shr(e.l, s), e.r), mask);
    forall i | 0 <= i < 32
      ensures w1[i] == w[i]
    {
      if mask[i] {
        assert e.l[i + s] == (h.l[i + s] != w[i]);
      }
    }
    assert w1 == w;
    XorTwice(h.l, Shl(w, s));
    XorTwice(h.r, w);
  }

  /** "work = (leftt ^ right) & 0xaaaaaaaa; leftt ^= work; right ^= work;" */
  function Alternated(h: Halves): Halves {
    var work := And(Xor(h.l, h.r), Const(0xaaaaaaaa));
    Halves(Xor(h.l, work), Xor(h.r, work))
  }

  lemma AlternatedTwice(h: Halves)
    ensures Alternated(Alternated(h)) == h && Alternated(Swap(h)) == Swap(Alternated(h))
  {
  }

  function RotateLeft(x: Word): Word {
    Or(Shl(x, 1), And(Shr(x, 31), Const(1)))
  }

  function RotateRight(x: Word): Word {
    Or(Shl(x, 31), Shr(x, 1))
  }

  lemma RotateBack(x: Word)
    ensures RotateLeft(RotateRight(x)) == x && RotateRight(RotateLeft(x)) == x
  {
  }

  function RotatedLeft(h: Halves): Halves {
    Halves(RotateLeft(h.l), h.r)
  }

  function RotatedRight(h: Halves): Halves {
    Halves(RotateRight(h.l), h.r)
  }

  function By4(h: Halves): Halves {
    Exchange(h, 4, Const(0x0f0f0f0f))
  }

  function By16(h: Halves): Halves {
    Exchange(h, 16, Const(0x0000ffff))
  }

  function By2(h: Halves): Halves {
    Exchange(h, 2, Const(0x33333333))
  }

  function By8(h: Halves): Halves {
    Exchange(h, 8, Const(0x00ff00ff))
  }

  lemma StepsUndone(h: Halves)
    ensures By4(By4(h)) == By16(By16(h)) == By2(By2(h)) == By8(By8(h)) == Swap(Swap(h)) == h
    ensures Alternated(Alternated(h)) == h && Alternated(Swap(h)) == Swap(Alternated(h))
    ensures RotatedLeft(RotatedRight(h)) == h && RotatedRight(RotatedLeft(h)) == h
  {
    hide Exchange, Alternated, Const, RotateLeft, RotateRight, ShiftsWithin, Pow2;
    Pow2Values();
    MaskSizes();
    ConstShiftsWithin(0x0f0f0f0f, 4);
    ConstShiftsWithin(0x0000ffff, 16);
    ConstShiftsWithin(0x33333333, 2);
    ConstShiftsWithin(0x00ff00ff, 8);
    ExchangeTwice(h, 4, Const(0x0f0f0f0f));
    ExchangeTwice(h, 16, Const(0x0000ffff));
    ExchangeTwice(h, 2, Const(0x33333333));
    ExchangeTwice(h, 8, Const(0x00ff00ff));
    AlternatedTwice(h);
    RotateBack(h.l);
  }

  lemma MaskSizes()
    ensures Pow2(28) == 0x1000_0000 && Pow2(30) == 0x4000_0000
  {
    hide Pow2;
    Pow2Values();
    Pow2Half(28);
    Pow2Half(29);
    Pow2Half(30);
  }

  /** The opening network on the two words of a block. */
  function Opened(h: Halves): Halves {
    RotatedLeft(Swap(Alternated(RotatedLeft(By8(By2(Swap(By16(By4(h)))))))))
  }

  /** The closing network; the words leave in reverse order. */
  function Closed(h: Halves): Halves {
    By4(By16(Swap(By2(By8(RotatedRight(Swap(Alternated(RotatedRight(Swap(h))))))))))
  }

  /** The opening network takes the closing network apart, up to the order of the halves. */
  lemma OpenedClosed(h: Halves)
    ensures Opened(Closed(h)) == Swap(h)
  {
    hide By4, By16, By2, By8, Alternated, RotatedLeft, RotatedRight, Swap;
    StepsUndone(h);
    StepsUndone(Swap(h));
    var a := RotatedRight(Swap(h));
    StepsUndone(a);
    StepsUndone(Alternated(a));
    var b := Swap(Alternated(a));
    StepsUndone(b);
    var c := RotatedRight(b);
    StepsUndone(c);
    StepsUndone(By8(c));
    var d := By2(By8(c));
    StepsUndone(d);
    StepsUndone(Swap(d));
    StepsUndone(By16(Swap(d)));
  }

  /** And the closing network takes the opening network apart. */
  lemma ClosedOpened(h: Halves)
    ensures Closed(Swap(Opened(h))) == h
  {
    hide By4, By16, By2, By8, Alternated, RotatedLeft, RotatedRight, Swap;
    StepsUndone(h);
    StepsUndone(By4(h));
    var a := By16(By4(h));
    StepsUndone(a);
    StepsUndone(Swap(a));
    StepsUndone(By2(Swap(a)));
    var b := By8(By2(Swap(a)));
    StepsUndone(b);
    var c := RotatedLeft(b);
    StepsUndone(c);
    StepsUndone(Alternated(c));
    StepsUndone(Swap(Alternated(c)));
    StepsUndone(RotatedLeft(Swap(Alternated(c))));
  }

  /** The DES function on a block of two words. */
  function DesOf(sp: SpTables, h: Halves, keys: seq<RoundKey>): Halves
    requires |keys| == 16
  {
    Closed(Rounds(sp, Opened(h), keys, 16))
  }

  /** With the key pairs in reverse order, the function inverts itself. */
  lemma DesInverse(sp: SpTables, h: Halves, keys: seq<RoundKey>)
    requires |keys| == 16
    ensures DesOf(sp, DesOf(sp, h, keys), Reversed(keys)) == h
  {
    hide Opened, Closed, Rounds;
    OpenedClosed(Rounds(sp, Opened(h), keys, 16));
    RoundsUndone(sp, Opened(h), keys, 16);
    NoRounds(sp, Opened(h), keys);
    ClosedOpened(h);
  }

  lemma NoRounds(sp: SpTables, h: Halves, keys: seq<RoundKey>)
    ensures Rounds(sp, h, keys, 0) == h
  {
  }
}
