/** The class of `DesCipher.java`: internal keys, block encryption, and cipher block chaining over texts. */
module DesCipher {
  import opened Des

  /** A Java byte as its eight bits, least significant first. */
  type Octet = b: seq<bool> | |b| == 8 witness seq(8, _ => false)

  type Below64 = n: nat | n < 64
  type Below56 = n: nat | n < 56
  type Below29 = n: nat | n < 29

  const PC1: seq<Below64> := [
    56, 48, 40, 32, 24, 16, 8, 0, 57, 49, 41, 33, 25, 17, 9, 1, 58, 50, 42, 34, 26, 18, 10, 2, 59, 51, 43, 35
  ] + [
    62, 54, 46, 38, 30, 22, 14, 6, 61, 53, 45, 37, 29, 21, 13, 5, 60, 52, 44, 36, 28, 20, 12, 4, 27, 19, 11, 3
  ]

  const TOTROT: seq<Below29> := [1, 2, 4, 6, 8, 10, 12, 14, 15, 17, 19, 21, 23, 25, 27, 28]

  const PC2: seq<Below56> := [
    13, 16, 10, 23, 0, 4, 2, 27, 14, 5, 20, 9, 22, 18, 11, 3, 25, 7, 15, 6, 26, 19, 12, 1
  ] + [
    40, 51, 30, 36, 46, 54, 29, 39, 50, 44, 32, 47, 43, 48, 38, 55, 33, 52, 45, 41, 49, 35, 28, 31
  ]

  const BIGBYTE: seq<nat> := [
    0x800000, 0x400000, 0x200000, 0x100000, 0x080000, 0x040000, 0x020000, 0x010000,
    0x008000, 0x004000, 0x002000, 0x001000, 0x000800, 0x000400, 0x000200, 0x000100,
    0x000080, 0x000040, 0x000020, 0x000010, 0x000008, 0x000004, 0x000002, 0x000001]

  lemma TableSizes()
    ensures |PC1| == 56 && |TOTROT| == 16 && |PC2| == 48 && |BIGBYTE| == 24
  {
  }

  /** Key bit `j` after the first permutation. */
  function Pc1m(key: seq<Octet>, j: nat): bool
    requires |key| == 8 && j < 56
  {
    TableSizes();
    key[PC1[j] / 8][PC1[j] % 8]
  }

  lemma PermutedBit(key: seq<Octet>, j: nat)
    requires |key| == 8 && j < 56
    ensures |PC1| == 56 && PC1[j] / 8 < 8 && Pc1m(key, j) == key[PC1[j] / 8][PC1[j] % 8]
  {
  }

  /** The permuted key rotated for round `i`: each half by itself. */
  function Pcr(key: seq<Octet>, i: nat, j: nat): bool
    requires |key| == 8 && i < 16 && j < 56
  {
    TableSizes();
    var l := j + TOTROT[i];
    if l < (if j < 28 then 28 else 56) then Pc1m(key, l) else Pc1m(key, l - 28)
  }

  /** The first `n` selected bits of half `half` of the round key. */
  function RawTo(key: seq<Octet>, i: nat, half: nat, n: nat): Word
    requires |key| == 8 && i < 16 && half <= 1 && n <= 24
  {
    TableSizes();
    if n == 0 then Const(0)
    else if Pcr(key, i, PC2[n - 1 + 24 * half]) then Or(RawTo(key, i, half, n - 1), Const(BIGBYTE[n - 1]))
    else RawTo(key, i, half, n - 1)
  }

  lemma NoRaw(key: seq<Octet>, i: nat)
    requires |key| == 8 && i < 16
    ensures RawTo(key, i, 0, 0) == RawTo(key, i, 1, 0) == Const(0)
  {
  }

  lemma RawNext(key: seq<Octet>, i: nat, half: nat, n: nat)
    requires |key| == 8 && i < 16 && half <= 1 && n < 24
    ensures |PC2| == 48 && |BIGBYTE| == 24
    ensures RawTo(key, i, half, n + 1)
            == if Pcr(key, i, PC2[n + 24 * half]) then Or(RawTo(key, i, half, n), Const(BIGBYTE[n]))
               else RawTo(key, i, half, n)
  {
    TableSizes();
    hide Pcr, Const, Or, PC2, BIGBYTE;
  }

  /** `cookey` on one pair. */
  function Cook(raw0: Word, raw1: Word): RoundKey {
    RoundKey(
      Or(Or(Or(Shl(And(raw0, Const(0x00fc0000)), 6), Shl(And(raw0, Const(0x00000fc0)), 10)),
            Shr(And(raw1, Const(0x00fc0000)), 10)), Shr(And(raw1, Const(0x00000fc0)), 6)),
      Or(Or(Or(Shl(And(raw0, Const(0x0003f000)), 12), Shl(And(raw0, Const(0x0000003f)), 16)),
            Shr(And(raw1, Const(0x0003f000)), 4)), And(raw1, Const(0x0000003f))))
  }

  function SubKey(key: seq<Octet>, i: nat): RoundKey
    requires |key| == 8 && i < 16
  {
    Cook(RawTo(key, i, 0, 24), RawTo(key, i, 1, 24))
  }

  /** The sixteen key pairs for encryption. */
  function Schedule(key: seq<Octet>): (s: seq<RoundKey>)
    requires |key| == 8
    ensures |s| == 16
  {
    seq(16, i requires 0 <= i < 16 => SubKey(key, i))
  }

  /** An internal key array as pairs. */
  function Pairs(k: seq<Word>): (s: seq<RoundKey>)
    requires |k| == 32
    ensures |s| == 16
  {
    seq(16, i requires 0 <= i < 16 => RoundKey(k[2 * i], k[2 * i + 1]))
  }

  function KeysFor(key: seq<Octet>, encrypting: bool): (s: seq<RoundKey>)
    requires |key| == 8
    ensures |s| == 16
  {
    if encrypting then Schedule(key) else Reversed(Schedule(key))
  }

  /** Two words from eight bytes, most significant byte first, and back. */
  function Squash(b: seq<Octet>): Halves
    requires |b| == 8
  {
    Halves(WordOf(b[0], b[1], b[2], b[3]), WordOf(b[4], b[5], b[6], b[7]))
  }

  /** `(a << 24) | (b << 16) | (c << 8) | d`, for bytes. */
  function WordOf(a: Octet, b: Octet, c: Octet, d: Octet): Word {
    var low: seq<bool> := d;
    low + c + b + a
  }

  function ByteOf(w: Word, n: nat): Octet
    requires n <= 3
  {
    w[8 * n..8 * n + 8]
  }

  function Spread(h: Halves): (b: seq<Octet>)
    ensures |b| == 8
  {
    [ByteOf(h.l, 3), ByteOf(h.l, 2), ByteOf(h.l, 1), ByteOf(h.l, 0),
     ByteOf(h.r, 3), ByteOf(h.r, 2), ByteOf(h.r, 1), ByteOf(h.r, 0)]
  }

  lemma WordOfBytes(a: Octet, b: Octet, c: Octet, d: Octet)
    ensures var w := WordOf(a, b, c, d);
            ByteOf(w, 3) == a && ByteOf(w, 2) == b && ByteOf(w, 1) == c && ByteOf(w, 0) == d
  {
  }

  lemma SpreadSquash(b: seq<Octet>)
    requires |b| == 8
    ensures Spread(Squash(b)) == b
  {
    hide ByteOf, WordOf;
    WordOfBytes(b[0], b[1], b[2], b[3]);
    WordOfBytes(b[4], b[5], b[6], b[7]);
  }

  lemma SquashSpread(h: Halves)
    ensures Squash(Spread(h)) == h
  {
  }

  /** One block through DES. */
  function BlockOf(sp: SpTables, b: seq<Octet>, keys: seq<RoundKey>): (c: seq<Octet>)
    requires |b| == 8 && |keys| == 16
    ensures |c| == 8
  {
    Spread(DesOf(sp, Squash(b), keys))
  }

  /** Decrypting a block undoes encrypting it, for every key. */
  lemma BlockInverse(sp: SpTables, b: seq<Octet>, key: seq<Octet>)
    requires |b| == 8 && |key| == 8
    ensures BlockOf(sp, BlockOf(sp, b, KeysFor(key, true)), KeysFor(key, false)) == b
  {
    hide DesOf, Squash, Spread, SubKey;
    SquashSpread(DesOf(sp, Squash(b), Schedule(key)));
    DesInverse(sp, Squash(b), Schedule(key));
    SpreadSquash(b);
  }

  function XorOctet(a: Octet, b: Octet): Octet {
    seq(8, i requires 0 <= i < 8 => a[i] != b[i])
  }

  function XorBlock(a: seq<Octet>, b: seq<Octet>): (c: seq<Octet>)
    requires |a| == |b| == 8
    ensures |c| == 8
  {
    seq<Octet>(8, j requires 0 <= j < 8 => XorOctet(a[j], b[j]))
  }

  lemma XorBlockTwice(a: seq<Octet>, b: seq<Octet>)
    requires |a| == |b| == 8
    ensures XorBlock(XorBlock(a, b), b) == a
  {
    forall j | 0 <= j < 8
      ensures XorOctet(XorOctet(a[j], b[j]), b[j]) == a[j]
    {
    }
  }

  /** Block `k` of a text. */
  function Nth(t: seq<Octet>, k: nat): (b: seq<Octet>)
    requires 8 * k + 8 <= |t|
    ensures |b| == 8
  {
    t[8 * k..8 * k + 8]
  }

  /** The block in front of block `k`; the initial vector in front of the first. */
  function Previous(c: seq<Octet>, iv: seq<Octet>, k: nat): (b: seq<Octet>)
    requires |iv| == 8 && 8 * k <= |c|
    ensures |b| == 8
  {
    if k == 0 then iv else Nth(c, k - 1)
  }

  /** The first `n` blocks in cipher block chaining. */
  function CbcEncrypted(sp: SpTables, t: seq<Octet>, key: seq<Octet>, iv: seq<Octet>, n: nat): (c: seq<Octet>)
    requires |key| == |iv| == 8 && 8 * n <= |t|
    ensures |c| == 8 * n
  {
    if n == 0 then []
    else
      var c := CbcEncrypted(sp, t, key, iv, n - 1);
      c + BlockOf(sp, XorBlock(Nth(t, n - 1), Previous(c, iv, n - 1)), KeysFor(key, true))
  }

  function PlainBlock(sp: SpTables, c: seq<Octet>, key: seq<Octet>, iv: seq<Octet>, k: nat): (b: seq<Octet>)
    requires |key| == |iv| == 8 && 8 * k + 8 <= |c|
    ensures |b| == 8
  {
    XorBlock(BlockOf(sp, Nth(c, k), KeysFor(key, false)), Previous(c, iv, k))
  }

  /** Block `k` of what chaining makes of a text is decrypted to block `k` of the text. */
  lemma {:induction false} CbcInverse(sp: SpTables, t: seq<Octet>, key: seq<Octet>, iv: seq<Octet>, n: nat, k: nat)
    requires |key| == |iv| == 8 && k < n && 8 * n <= |t|
    ensures PlainBlock(sp, CbcEncrypted(sp, t, key, iv, n), key, iv, k) == Nth(t, k)
  {
    hide BlockOf, KeysFor, XorBlock;
    var c := CbcEncrypted(sp, t, key, iv, n - 1);
    var last := BlockOf(sp, XorBlock(Nth(t, n - 1), Previous(c, iv, n - 1)), KeysFor(key, true));
    var c' := CbcEncrypted(sp, t, key, iv, n);
    assert c' == c + last;
    if k < n - 1 {
      CbcInverse(sp, t, key, iv, n - 1, k);
      assert Nth(c', k) == Nth(c, k);
      assert Previous(c', iv, k) == Previous(c, iv, k);
    } else {
      assert Nth(c', k) == last;
      assert Previous(c', iv, k) == Previous(c, iv, k);
      BlockInverse(sp, XorBlock(Nth(t, k), Previous(c, iv, k)), key);
      XorBlockTwice(Nth(t, k), Previous(c, iv, k));
    }
  }

  class DesCipher {
    const sp: SpTables
    const encryptKeys: array<Word>
    const decryptKeys: array<Word>
    const tempInts: array<Word>
    ghost var key: seq<Octet>

    /** The internal keys are those of `key`. */
    ghost predicate Valid()
      reads this, encryptKeys, decryptKeys
    {
      && encryptKeys.Length == decryptKeys.Length == 32 && tempInts.Length == 2 && |key| == 8
      && encryptKeys != decryptKeys && encryptKeys != tempInts && decryptKeys != tempInts
      && Pairs(encryptKeys[..]) == KeysFor(key, true) && Pairs(decryptKeys[..]) == KeysFor(key, false)
    }

    constructor (sp: SpTables, key: array<Octet>)
      requires key.Length == 8
      ensures Valid() && this.sp == sp && this.key == key[..]
      ensures fresh(encryptKeys) && fresh(decryptKeys) && fresh(tempInts)
    {
      hide KeysFor, Pairs;
      this.sp := sp;
      encryptKeys := new Word[32](_ => seq(32, _ => false));
      decryptKeys := new Word[32](_ => seq(32, _ => false));
      tempInts := new Word[2](_ => seq(32, _ => false));
      this.key := key[..];
      new;
      Deskey(key, true, encryptKeys);
      Deskey(key, false, decryptKeys);
    }

    /** "Turn an 8-byte key into internal keys." */
    static method Deskey(keyBlock: array<Octet>, encrypting: bool, knL: array<Word>)
      requires keyBlock.Length == 8 && knL.Length == 32
      modifies knL
      ensures Pairs(knL[..]) == KeysFor(keyBlock[..], encrypting)
    {
      hide Pcr, Pc1m, RawTo, Cook, SubKey, KeysFor, Pairs;
      ghost var key := keyBlock[..];
      var pc1m := PermuteKey(keyBlock);
      var kn := new Word[32](_ => seq(32, _ => false));
      var i := 0;
      while i < 16
        invariant i <= 16 && keyBlock[..] == key && forall x :: 0 <= x < 56 ==> pc1m[x] == Pc1m(key, x)
        invariant forall y :: 0 <= y < 16 && RoundOf(y, encrypting) < i ==> RawPair(kn, key, y, encrypting)
      {
        var m := if encrypting then 2 * i else 2 * (15 - i);
        var pcr := RotateKey(pc1m, i, key);
        SelectBits(pcr, kn, i, m, key);
        i := i + 1;
      }
      Cookey(kn, knL, key, encrypting);
    }

    /** The first loop of `deskey`: permuted choice 1. */
    static method PermuteKey(keyBlock: array<Octet>) returns (pc1m: array<bool>)
      requires keyBlock.Length == 8
      ensures fresh(pc1m) && pc1m.Length == 56 && forall x :: 0 <= x < 56 ==> pc1m[x] == Pc1m(keyBlock[..], x)
    {
      hide Pc1m;
      ghost var key := keyBlock[..];
      pc1m := new bool[56](_ => false);
      var j := 0;
      while j < 56
        invariant j <= 56 && keyBlock[..] == key
        invariant forall x :: 0 <= x < j ==> pc1m[x] == Pc1m(key, x)
      {
        PermutedBit(key, j);
        pc1m[j] := keyBlock[PC1[j] / 8][PC1[j] % 8];
        j := j + 1;
      }
    }

    /** The round whose key is pair `y`. */
    static function RoundOf(y: nat, encrypting: bool): (x: nat)
      requires y < 16
      ensures x < 16
    {
      if encrypting then y else 15 - y
    }

    static ghost predicate RawPair(kn: array<Word>, key: seq<Octet>, y: nat, encrypting: bool)
      reads kn
      requires kn.Length == 32 && |key| == 8 && y < 16
    {
      && kn[2 * y] == RawTo(key, RoundOf(y, encrypting), 0, 24)
      && kn[2 * y + 1] == RawTo(key, RoundOf(y, encrypting), 1, 24)
    }

    /** The loops of `deskey` that rotate both halves of the permuted key. */
    static method RotateKey(pc1m: array<bool>, i: nat, ghost key: seq<Octet>) returns (pcr: array<bool>)
      requires pc1m.Length == 56 && i < 16 && |key| == 8 && forall x :: 0 <= x < 56 ==> pc1m[x] == Pc1m(key, x)
      ensures fresh(pcr) && pcr.Length == 56 && forall x :: 0 <= x < 56 ==> pcr[x] == Pcr(key, i, x)
    {
      hide Pc1m;
      TableSizes();
      pcr := new bool[56](_ => false);
      var j := 0;
      while j < 28
        invariant j <= 28 && forall x :: 0 <= x < j ==> pcr[x] == Pcr(key, i, x)
      {
        var l: nat := j + TOTROT[i] as nat;
        pcr[j] := if l < 28 then pc1m[l] else pc1m[l - 28];
        j := j + 1;
      }
      while j < 56
        invariant 28 <= j <= 56 && forall x :: 0 <= x < j ==> pcr[x] == Pcr(key, i, x)
      {
        var l: nat := j + TOTROT[i] as nat;
        pcr[j] := if l < 56 then pc1m[l] else pc1m[l - 28];
        j := j + 1;
      }
    }

    /** The loop of `deskey` that selects the bits of a pair of raw keys. */
    static method SelectBits(pcr: array<bool>, kn: array<Word>, i: nat, m: nat, ghost key: seq<Octet>)
      requires pcr.Length == 56 && kn.Length == 32 && i < 16 && m + 1 < 32 && |key| == 8
      requires forall x :: 0 <= x < 56 ==> pcr[x] == Pcr(key, i, x)
      modifies kn
      ensures kn[m] == RawTo(key, i, 0, 24) && kn[m + 1] == RawTo(key, i, 1, 24)
      ensures forall x :: 0 <= x < 32 && x != m && x != m + 1 ==> kn[x] == old(kn[x])
    {
      TableSizes();
      hide Pcr, Const, Or, PC2, BIGBYTE, RawTo;
      NoRaw(key, i);
      var n := m + 1;
      kn[m] := Const(0);
      kn[n] := Const(0);
      var j := 0;
      while j < 24
        invariant j <= 24
        invariant kn[m] == RawTo(key, i, 0, j) && kn[n] == RawTo(key, i, 1, j)
        invariant forall x :: 0 <= x < 32 && x != m && x != n ==> kn[x] == old(kn[x])
      {
        RawNext(key, i, 0, j);
        RawNext(key, i, 1, j);
        if pcr[PC2[j]] {
          kn[m] := Or(kn[m], Const(BIGBYTE[j]));
        }
        if pcr[PC2[j + 24]] {
          kn[n] := Or(kn[n], Const(BIGBYTE[j]));
        }
        j := j + 1;
      }
    }

    /** `cookey`. */
    static method Cookey(raw: array<Word>, knL: array<Word>, ghost key: seq<Octet>, ghost encrypting: bool)
      requires raw.Length == knL.Length == 32 && raw != knL && |key| == 8
      requires forall y :: 0 <= y < 16 ==> RawPair(raw, key, y, encrypting)
      modifies knL
      ensures Pairs(knL[..]) == KeysFor(key, encrypting)
    {
      hide RawTo, Cook;
      var i := 0;
      while i < 16
        invariant i <= 16 && forall y :: 0 <= y < 16 ==> RawPair(raw, key, y, encrypting)
        invariant forall y :: 0 <= y < i ==> CookedPair(knL[..], key, y, encrypting)
      {
        assert RawPair(raw, key, i, encrypting);
        ghost var before := knL[..];
        knL[2 * i], knL[2 * i + 1] := CookOne(raw[2 * i], raw[2 * i + 1]);
        CookedMore(before, knL[..], key, i, encrypting);
        i := i + 1;
      }
      CookedAll(knL, key, encrypting);
    }

    static method CookOne(raw0: Word, raw1: Word) returns (k0: Word, k1: Word)
      ensures RoundKey(k0, k1) == Cook(raw0, raw1)
    {
      hide Const, Or, And, Shl, Shr;
      k0 := Shl(And(raw0, Const(0x00fc0000)), 6);
      k0 := Or(k0, Shl(And(raw0, Const(0x00000fc0)), 10));
      k0 := Or(k0, Shr(And(raw1, Const(0x00fc0000)), 10));
      k0 := Or(k0, Shr(And(raw1, Const(0x00000fc0)), 6));
      k1 := Shl(And(raw0, Const(0x0003f000)), 12);
      k1 := Or(k1, Shl(And(raw0, Const(0x0000003f)), 16));
      k1 := Or(k1, Shr(And(raw1, Const(0x0003f000)), 4));
      k1 := Or(k1, And(raw1, Const(0x0000003f)));
    }

    static ghost predicate CookedPair(knL: seq<Word>, key: seq<Octet>, y: nat, encrypting: bool)
      requires |knL| == 32 && |key| == 8 && y < 16
    {
      RoundKey(knL[2 * y], knL[2 * y + 1]) == SubKey(key, RoundOf(y, encrypting))
    }

    static lemma CookedMore(before: seq<Word>, knL: seq<Word>, key: seq<Octet>, i: nat, encrypting: bool)
      requires |before| == |knL| == 32 && |key| == 8 && i < 16
      requires forall x :: 0 <= x < 32 && x != 2 * i && x != 2 * i + 1 ==> knL[x] == before[x]
      requires forall y :: 0 <= y < i ==> CookedPair(before, key, y, encrypting)
      requires CookedPair(knL, key, i, encrypting)
      ensures forall y :: 0 <= y < i + 1 ==> CookedPair(knL, key, y, encrypting)
    {
      hide SubKey;
      forall y | 0 <= y < i
        ensures CookedPair(knL, key, y, encrypting)
      {
        assert CookedPair(before, key, y, encrypting);
      }
    }

    static lemma CookedAll(knL: array<Word>, key: seq<Octet>, encrypting: bool)
      requires knL.Length == 32 && |key| == 8
      requires forall y :: 0 <= y < 16 ==> CookedPair(knL[..], key, y, encrypting)
      ensures Pairs(knL[..]) == KeysFor(key, encrypting)
    {
      hide SubKey;
      forall y | 0 <= y < 16
        ensures Pairs(knL[..])[y] == KeysFor(key, encrypting)[y]
      {
        assert CookedPair(knL[..], key, y, encrypting);
      }
    }

    /** The round function, table by table. */
    method RoundFunction(x: Word, k0: Word, k1: Word) returns (fval: Word)
      ensures fval == F(sp, x, RoundKey(k0, k1))
    {
      hide Or, Xor, Shl, Shr;
      var work := Or(Shl(x, 28), Shr(x, 4));
      work := Xor(work, k0);
      fval := sp.sp7(Six(work));
      fval := Or(fval, sp.sp5(Six(Shr(work, 8))));
      fval := Or(fval, sp.sp3(Six(Shr(work, 16))));
      fval := Or(fval, sp.sp1(Six(Shr(work, 24))));
      work := Xor(x, k1);
      fval := Or(fval, sp.sp8(Six(work)));
      fval := Or(fval, sp.sp6(Six(Shr(work, 8))));
      fval := Or(fval, sp.sp4(Six(Shr(work, 16))));
      fval := Or(fval, sp.sp2(Six(Shr(work, 24))));
    }

    /** The opening network. */
    static method Open(left0: Word, right0: Word) returns (leftt: Word, right: Word)
      ensures Halves(leftt, right) == Opened(Halves(left0, right0))
    {
      hide Or, Xor, Shl, Shr, And, Const;
      leftt, right := left0, right0;
      var work := And(Xor(Shr(leftt, 4), right), Const(0x0f0f0f0f));
      right := Xor(right, work);
      leftt := Xor(leftt, Shl(work, 4));
      work := And(Xor(Shr(leftt, 16), right), Const(0x0000ffff));
      right := Xor(right, work);
      leftt := Xor(leftt, Shl(work, 16));
      work := And(Xor(Shr(right, 2), leftt), Const(0x33333333));
      leftt := Xor(leftt, work);
      right := Xor(right, Shl(work, 2));
      work := And(Xor(Shr(right, 8), leftt), Const(0x00ff00ff));
      leftt := Xor(leftt, work);
      right := Xor(right, Shl(work, 8));
      right := Or(Shl(right, 1), And(Shr(right, 31), Const(1)));
      SameAlternation(leftt, right);
      work := And(Xor(leftt, right), Const(0xaaaaaaaa));
      leftt := Xor(leftt, work);
      right := Xor(right, work);
      leftt := Or(Shl(leftt, 1), And(Shr(leftt, 31), Const(1)));
    }

    /** The closing network. */
    static method Close(left0: Word, right0: Word) returns (out0: Word, out1: Word)
      ensures Halves(out0, out1) == Closed(Halves(left0, right0))
    {
      hide Or, Xor, Shl, Shr, And, Const;
      var leftt, right := left0, right0;
      right := Or(Shl(right, 31), Shr(right, 1));
      SameAlternation(leftt, right);
      var work := And(Xor(leftt, right), Const(0xaaaaaaaa));
      leftt := Xor(leftt, work);
      right := Xor(right, work);
      leftt := Or(Shl(leftt, 31), Shr(leftt, 1));
      work := And(Xor(Shr(leftt, 8), right), Const(0x00ff00ff));
      right := Xor(right, work);
      leftt := Xor(leftt, Shl(work, 8));
      work := And(Xor(Shr(leftt, 2), right), Const(0x33333333));
      right := Xor(right, work);
      leftt := Xor(leftt, Shl(work, 2));
      work := And(Xor(Shr(right, 16), leftt), Const(0x0000ffff));
      leftt := Xor(leftt, work);
      right := Xor(right, Shl(work, 16));
      work := And(Xor(Shr(right, 4), leftt), Const(0x0f0f0f0f));
      leftt := Xor(leftt, work);
      right := Xor(right, Shl(work, 4));
      out0, out1 := right, leftt;
    }

    static lemma SameAlternation(x: Word, y: Word)
      ensures Xor(x, y) == Xor(y, x)
    {
    }

    /** "The DES function." Input and output may be the same array. */
    method DesInts(inInts: array<Word>, outInts: array<Word>, keys: array<Word>)
      requires inInts.Length == outInts.Length == 2 && keys.Length == 32 && keys != outInts
      modifies outInts
      ensures Halves(outInts[0], outInts[1]) == DesOf(sp, Halves(old(inInts[0]), old(inInts[1])), Pairs(keys[..]))
    {
      hide Opened, Closed, F, Xor;
      ghost var start := Opened(Halves(inInts[0], inInts[1]));
      ghost var pairs := Pairs(keys[..]);
      var leftt, right := Open(inInts[0], inInts[1]);
      var keysi := 0;
      var round := 0;
      NoRounds(sp, start, pairs);
      while round < 8
        invariant round <= 8 && keysi == 4 * round && pairs == Pairs(keys[..])
        invariant Halves(leftt, right) == Rounds(sp, start, pairs, 2 * round)
      {
        assert pairs[2 * round] == RoundKey(keys[keysi], keys[keysi + 1]);
        assert pairs[2 * round + 1] == RoundKey(keys[keysi + 2], keys[keysi + 3]);
        var fval := RoundFunction(right, keys[keysi], keys[keysi + 1]);
        leftt := Xor(leftt, fval);
        fval := RoundFunction(leftt, keys[keysi + 2], keys[keysi + 3]);
        right := Xor(right, fval);
        TwoRounds(start, pairs, 2 * round);
        keysi := keysi + 4;
        round := round + 1;
      }
      outInts[0], outInts[1] := Close(leftt, right);
    }

    lemma TwoRounds(h: Halves, keys: seq<RoundKey>, n: nat)
      requires n + 2 <= |keys|
      ensures Rounds(sp, h, keys, n + 2) == Round(sp, Round(sp, Rounds(sp, h, keys, n), keys[n]), keys[n + 1])
    {
    }

    /** `squashBytesToInts` for two ints. */
    static method SquashBytesToInts(inBytes: array<Octet>, inOff: nat, outInts: array<Word>)
      requires inOff + 8 <= inBytes.Length && outInts.Length == 2
      modifies outInts
      ensures Halves(outInts[0], outInts[1]) == Squash(inBytes[inOff..inOff + 8])
    {
      hide WordOf;
      ghost var b := inBytes[inOff..inOff + 8];
      var i := 0;
      while i < 2
        invariant i <= 2 && inBytes[inOff..inOff + 8] == b
        invariant i > 0 ==> outInts[0] == WordOf(b[0], b[1], b[2], b[3])
        invariant i > 1 ==> outInts[1] == WordOf(b[4], b[5], b[6], b[7])
      {
        assert forall j :: 0 <= j < 8 ==> b[j] == inBytes[inOff + j];
        outInts[i] := WordOf(inBytes[inOff + i * 4], inBytes[inOff + i * 4 + 1], inBytes[inOff + i * 4 + 2],
                             inBytes[inOff + i * 4 + 3]);
        i := i + 1;
      }
    }

    /** `spreadIntsToBytes` for two ints. */
    static method SpreadIntsToBytes(inInts: array<Word>, outBytes: array<Octet>, outOff: nat)
      requires inInts.Length == 2 && outOff + 8 <= outBytes.Length
      modifies outBytes
      ensures outBytes[outOff..outOff + 8] == Spread(Halves(old(inInts[0]), old(inInts[1])))
      ensures outBytes[..outOff] == old(outBytes[..outOff]) && outBytes[outOff + 8..] == old(outBytes[outOff + 8..])
    {
      hide ByteOf;
      var first, second := inInts[0], inInts[1];
      var i := 0;
      while i < 2
        invariant i <= 2
        invariant forall j :: 0 <= j < outBytes.Length && !(outOff <= j < outOff + 8) ==>
                  outBytes[j] == old(outBytes[j])
        invariant forall j :: 0 <= j < 4 * i ==> outBytes[outOff + j] == Spread(Halves(first, second))[j]
      {
        var x := if i == 0 then first else second;
        outBytes[outOff + i * 4] := ByteOf(x, 3);
        outBytes[outOff + i * 4 + 1] := ByteOf(x, 2);
        outBytes[outOff + i * 4 + 2] := ByteOf(x, 1);
        outBytes[outOff + i * 4 + 3] := ByteOf(x, 0);
        i := i + 1;
      }
    }

    /** "Encrypt a block of eight bytes." */
    method Encrypt(clearText: array<Octet>, clearOff: nat, cipherText: array<Octet>, cipherOff: nat)
      requires Valid() && clearOff + 8 <= clearText.Length && cipherOff + 8 <= cipherText.Length
      modifies tempInts, cipherText
      ensures Valid()
      ensures cipherText[cipherOff..cipherOff + 8]
              == BlockOf(sp, old(clearText[clearOff..clearOff + 8]), KeysFor(key, true))
      ensures cipherText[..cipherOff] == old(cipherText[..cipherOff])
      ensures cipherText[cipherOff + 8..] == old(cipherText[cipherOff + 8..])
    {
      hide DesOf, Squash, Spread, KeysFor, Pairs;
      SquashBytesToInts(clearText, clearOff, tempInts);
      DesInts(tempInts, tempInts, encryptKeys);
      SpreadIntsToBytes(tempInts, cipherText, cipherOff);
    }

    /** "Decrypt a block of eight bytes." */
    method Decrypt(cipherText: array<Octet>, cipherOff: nat, clearText: array<Octet>, clearOff: nat)
      requires Valid() && clearOff + 8 <= clearText.Length && cipherOff + 8 <= cipherText.Length
      modifies tempInts, clearText
      ensures Valid()
      ensures clearText[clearOff..clearOff + 8]
              == BlockOf(sp, old(cipherText[cipherOff..cipherOff + 8]), KeysFor(key, false))
      ensures clearText[..clearOff] == old(clearText[..clearOff])
      ensures clearText[clearOff + 8..] == old(clearText[clearOff + 8..])
    {
      hide DesOf, Squash, Spread, KeysFor, Pairs;
      SquashBytesToInts(cipherText, cipherOff, tempInts);
      DesInts(tempInts, tempInts, decryptKeys);
      SpreadIntsToBytes(tempInts, clearText, clearOff);
    }

    /** "for (j = 0; j < 8; j++) text[i + j] ^= mask[m + j]" */
    static method XorInto(text: array<Octet>, i: nat, mask: array<Octet>, m: nat)
      requires i + 8 <= text.Length && m + 8 <= mask.Length && (text == mask ==> m + 8 <= i)
      modifies text
      ensures text[i..i + 8] == XorBlock(old(text[i..i + 8]), old(mask[m..m + 8]))
      ensures text[..i] == old(text[..i]) && text[i + 8..] == old(text[i + 8..])
    {
      hide XorOctet;
      ghost var a, b := text[i..i + 8], mask[m..m + 8];
      var j := 0;
      while j < 8
        invariant j <= 8 && mask[m..m + 8] == b
        invariant forall x :: 0 <= x < text.Length && !(i <= x < i + j) ==> text[x] == old(text[x])
        invariant forall x :: 0 <= x < j ==> text[i + x] == XorOctet(a[x], b[x])
      {
        assert b[j] == mask[m + j] && a[j] == text[i + j];
        text[i + j] := XorOctet(text[i + j], mask[m + j]);
        j := j + 1;
      }
    }

    /** "Encrypt a text which is a multiple of 8 bytes." The two texts may be the same array; otherwise the clear text
        is overwritten by what was encrypted. */
    method EncryptText(clearText: array<Octet>, cipherText: array<Octet>, iv: array<Octet>)
      requires Valid() && clearText.Length == cipherText.Length > 0 && clearText.Length % 8 == 0 && iv.Length == 8
      requires iv != clearText && iv != cipherText
      modifies tempInts, clearText, cipherText
      ensures Valid() && iv[..] == old(iv[..])
      ensures cipherText[..] == CbcEncrypted(sp, old(clearText[..]), key, iv[..], clearText.Length / 8)
    {
      hide BlockOf, KeysFor, XorBlock, Pairs, Nth;
      ghost var t, n := clearText[..], clearText.Length / 8;
      EncryptFirst(clearText, cipherText, iv);
      FirstBlock(sp, t, key, iv[..]);
      var i := 8;
      ghost var k := 1;
      while i < clearText.Length
        invariant 1 <= k <= n && i == 8 * k && Valid() && iv[..] == old(iv[..])
        invariant cipherText[..i] == CbcEncrypted(sp, t, key, iv[..], k)
        invariant clearText[i..] == t[i..]
      {
        ghost var c := cipherText[..i];
        NextBlock(sp, t, key, iv[..], k, c);
        SameTail(clearText[..], t, i);
        LastEight(cipherText[..], i);
        EncryptNext(clearText, cipherText, i);
        i := i + 8;
        k := k + 1;
      }
    }

    /** "Decrypt a text which is a multiple of 8 bytes.", from the last block to the first. The two texts may be the
        same array. */
    method DecryptText(cipherText: array<Octet>, clearText: array<Octet>, iv: array<Octet>)
      requires Valid() && clearText.Length == cipherText.Length > 0 && clearText.Length % 8 == 0 && iv.Length == 8
      requires iv != clearText && iv != cipherText
      modifies tempInts, clearText
      ensures Valid() && iv[..] == old(iv[..])
      ensures forall k :: 0 <= k < clearText.Length / 8 ==>
              Nth(clearText[..], k) == PlainBlock(sp, old(cipherText[..]), key, iv[..], k)
    {
      hide BlockOf, KeysFor, XorBlock, Pairs, PlainBlock, Valid;
      KeyOf();
      ghost var c, n := cipherText[..], clearText.Length / 8;
      var i := cipherText.Length - 8;
      ghost var k := n - 1;
      while i > 0
        invariant 0 <= k < n && i == 8 * k && Valid() && iv[..] == old(iv[..])
        invariant cipherText[..i + 8] == c[..i + 8]
        invariant forall j :: k < j < n ==> Nth(clearText[..], j) == PlainBlock(sp, c, key, iv[..], j)
      {
        PlainIs(sp, c, key, iv[..], k);
        ghost var before := clearText[..];
        SameSlice(cipherText[..], c, i - 8, i + 8);
        DecryptAt(cipherText, clearText, i);
        SameBlocks(before, clearText[..], k, n);
        assert Nth(clearText[..], k) == clearText[i..i + 8];
        i := i - 8;
        k := k - 1;
      }
      PlainIs(sp, c, key, iv[..], 0);
      ghost var before := clearText[..];
      assert cipherText[0..8] == c[0..8] by {
        assert cipherText[..8] == c[..8];
      }
      DecryptFirst(cipherText, clearText, iv);
      SameBlocks(before, clearText[..], 0, n);
      assert Nth(clearText[..], 0) == clearText[0..8];
    }

    lemma KeyOf()
      requires Valid()
      ensures |key| == 8
    {
    }

    /** One round of the decryption loop. */
    method DecryptAt(cipherText: array<Octet>, clearText: array<Octet>, i: nat)
      requires Valid() && clearText.Length == cipherText.Length && 8 <= i && i + 8 <= clearText.Length
      modifies tempInts, clearText
      ensures Valid() && cipherText[..i] == old(cipherText[..i])
      ensures clearText[i..i + 8]
              == XorBlock(BlockOf(sp, old(cipherText[i..i + 8]), KeysFor(key, false)), old(cipherText[i - 8..i]))
      ensures clearText[i + 8..] == old(clearText[i + 8..])
    {
      hide BlockOf, KeysFor, XorBlock, Pairs;
      ghost var c := cipherText[..i];
      Decrypt(cipherText, i, clearText, i);
      assert cipherText[..i] == c;
      assert cipherText[i - 8..i] == c[i - 8..];
      XorInto(clearText, i, cipherText, i - 8);
    }

    method EncryptFirst(clearText: array<Octet>, cipherText: array<Octet>, iv: array<Octet>)
      requires Valid() && clearText.Length == cipherText.Length >= 8 && iv.Length == 8
      requires iv != clearText && iv != cipherText
      modifies tempInts, clearText, cipherText
      ensures Valid() && iv[..] == old(iv[..])
      ensures cipherText[..8] == BlockOf(sp, XorBlock(old(clearText[..])[0..8], iv[..]), KeysFor(key, true))
      ensures clearText[8..] == old(clearText[8..])
    {
      hide BlockOf, KeysFor, XorBlock, Pairs;
      assert iv[0..8] == iv[..] && clearText[..][0..8] == clearText[0..8];
      XorInto(clearText, 0, iv, 0);
      Encrypt(clearText, 0, cipherText, 0);
      assert cipherText[..8] == cipherText[0..8];
      assert clearText[8..] == old(clearText[8..]);
    }

    /** The end of the decryption: the first block. */
    method DecryptFirst(cipherText: array<Octet>, clearText: array<Octet>, iv: array<Octet>)
      requires Valid() && clearText.Length == cipherText.Length >= 8 && iv.Length == 8
      requires iv != clearText && iv != cipherText
      modifies tempInts, clearText
      ensures Valid() && iv[..] == old(iv[..])
      ensures clearText[0..8] == XorBlock(BlockOf(sp, old(cipherText[0..8]), KeysFor(key, false)), iv[..])
      ensures clearText[8..] == old(clearText[8..])
    {
      hide BlockOf, KeysFor, XorBlock, Pairs;
      assert iv[0..8] == iv[..];
      Decrypt(cipherText, 0, clearText, 0);
      XorInto(clearText, 0, iv, 0);
    }

    /** One round of the encryption loop. */
    method EncryptNext(clearText: array<Octet>, cipherText: array<Octet>, i: nat)
      requires Valid() && clearText.Length == cipherText.Length && 8 <= i && i + 8 <= clearText.Length
      modifies tempInts, clearText, cipherText
      ensures Valid()
      ensures cipherText[..i + 8] == old(cipherText[..i])
                + BlockOf(sp, XorBlock(old(clearText[i..i + 8]), old(cipherText[i - 8..i])), KeysFor(key, true))
      ensures clearText[i + 8..] == old(clearText[i + 8..])
    {
      hide BlockOf, KeysFor, XorBlock, Pairs;
      XorInto(clearText, i, cipherText, i - 8);
      Encrypt(clearText, i, cipherText, i);
      assert cipherText[..i + 8] == cipherText[..i] + cipherText[i..i + 8];
    }
  }

  lemma SameTail(s: seq<Octet>, t: seq<Octet>, i: nat)
    requires i + 8 <= |s| == |t| && s[i..] == t[i..]
    ensures s[i..i + 8] == t[i..i + 8] && s[i + 8..] == t[i + 8..]
  {
    assert s[i..][..8] == t[i..][..8];
    assert s[i..][8..] == t[i..][8..];
  }

  lemma LastEight(s: seq<Octet>, i: nat)
    requires 8 <= i <= |s|
    ensures s[i - 8..i] == s[..i][i - 8..i]
  {
  }

  lemma FirstBlock(sp: SpTables, t: seq<Octet>, key: seq<Octet>, iv: seq<Octet>)
    requires |key| == |iv| == 8 && |t| >= 8
    ensures CbcEncrypted(sp, t, key, iv, 1) == BlockOf(sp, XorBlock(t[0..8], iv), KeysFor(key, true))
  {
    hide BlockOf, KeysFor, XorBlock;
    assert CbcEncrypted(sp, t, key, iv, 0) == [];
  }

  lemma NextBlock(sp: SpTables, t: seq<Octet>, key: seq<Octet>, iv: seq<Octet>, k: nat, c: seq<Octet>)
    requires |key| == |iv| == 8 && 0 < k && 8 * k + 8 <= |t| && c == CbcEncrypted(sp, t, key, iv, k)
    ensures CbcEncrypted(sp, t, key, iv, k + 1)
            == c + BlockOf(sp, XorBlock(t[8 * k..8 * k + 8], c[8 * k - 8..8 * k]), KeysFor(key, true))
  {
    hide BlockOf, KeysFor, XorBlock;
  }

  lemma PlainIs(sp: SpTables, c: seq<Octet>, key: seq<Octet>, iv: seq<Octet>, k: nat)
    requires |key| == |iv| == 8 && 8 * k + 8 <= |c|
    ensures PlainBlock(sp, c, key, iv, k)
            == XorBlock(BlockOf(sp, c[8 * k..8 * k + 8], KeysFor(key, false)),
                        if k == 0 then iv else c[8 * k - 8..8 * k])
  {
    hide BlockOf, KeysFor, XorBlock;
  }

  lemma SameSlice(a: seq<Octet>, c: seq<Octet>, m: nat, n: nat)
    requires m + 8 <= n <= |a| && n <= |c| && a[..n] == c[..n]
    ensures a[m..m + 8] == c[m..m + 8] && a[n - 8..n] == c[n - 8..n]
  {
    assert a[m..m + 8] == a[..n][m..m + 8];
    assert a[n - 8..n] == a[..n][n - 8..n];
  }

  /** Blocks behind block `k` are untouched. */
  lemma SameBlocks(a: seq<Octet>, b: seq<Octet>, k: nat, n: nat)
    requires |a| == |b| == 8 * n && k < n && a[8 * k + 8..] == b[8 * k + 8..]
    ensures forall j :: k < j < n ==> Nth(a, j) == Nth(b, j)
  {
  }

  /** Decrypting what was encrypted gives back the text, for every key, in place or not. */
  method RoundTrip(sp: SpTables, key: array<Octet>, clearText: array<Octet>, cipherText: array<Octet>, iv: array<Octet>)
    requires key.Length == iv.Length == 8 && clearText.Length == cipherText.Length > 0 && clearText.Length % 8 == 0
    requires iv != clearText && iv != cipherText
    modifies clearText, cipherText
    ensures clearText[..] == old(clearText[..])
  {
    hide CbcEncrypted, PlainBlock, DesCipher.Valid;
    ghost var t, n := clearText[..], clearText.Length / 8;
    var d := new DesCipher(sp, key);
    d.KeyOf();
    d.EncryptText(clearText, cipherText, iv);
    d.DecryptText(cipherText, clearText, iv);
    forall k | 0 <= k < n
      ensures Nth(clearText[..], k) == Nth(t, k)
    {
      CbcInverse(sp, t, d.key, iv[..], n, k);
    }
    BlocksAreText(clearText[..], t, n);
  }

  lemma {:induction false} BlocksAreText(a: seq<Octet>, b: seq<Octet>, n: nat)
    requires |a| == |b| == 8 * n && forall k :: 0 <= k < n ==> Nth(a, k) == Nth(b, k)
    ensures a == b
  {
    forall i | 0 <= i < 8 * n
      ensures a[i] == b[i]
    {
      assert Nth(a, i / 8)[i % 8] == Nth(b, i / 8)[i % 8];
    }
  }
}
