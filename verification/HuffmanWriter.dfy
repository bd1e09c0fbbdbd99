/** The bit buffer and block encoder of `jchuff.c`. */
module HuffmanWriter {
  import opened Numbers
  import opened ByteStuffing
  import opened ArithModel
  import opened DerivedTable
  import opened HuffmanLimit
  import opened HuffmanBits
  import opened HuffmanBlock

  const BUFSIZE := 512

  /** 0x0101...01 with `n` bytes. */
  function Units(n: nat): nat {
    if n == 0 then 0 else 256 * Units(n - 1) + 1
  }

  /** `p & 0x8080...80 & ~q`, nonzero: in some byte, `p` has the high bit and `q` has not. */
  predicate HighBitLost(p: nat, q: nat, n: nat) {
    n > 0 && ((p % 256 >= 0x80 && q % 256 < 0x80) || HighBitLost(p / 256, q / 256, n - 1))
  }

  /** The test of FLUSH() on an `n`-byte word. */
  predicate FlushMask(p: nat, n: nat) {
    HighBitLost(p, (p + Units(n)) % Pow2(8 * n), n)
  }

  predicate HasOnes(p: nat, n: nat) {
    n > 0 && (p % 256 == 0xFF || HasOnes(p / 256, n - 1))
  }

  lemma {:induction false} LowBytesOnly(p: nat, q: nat, n: nat, m: nat)
    requires n <= m
    ensures HighBitLost(p, q % Pow2(8 * m), n) == HighBitLost(p, q, n)
  {
    hide Pow2;
    if n > 0 {
      Pow2Add(8, 8 * (m - 1));
      Pow2Values();
      ByteQuotient(q, Pow2(8 * (m - 1)));
      LowBytesOnly(p / 256, q / 256, n - 1, m - 1);
    }
  }

  lemma ByteQuotient(v: nat, h: nat)
    requires h > 0
    ensures v % (256 * h) / 256 == v / 256 % h && v % (256 * h) % 256 == v % 256
  {
    var q, r := v / 256 / h, v / 256 % h;
    assert v / 256 == h * q + r;
    assert v == 256 * (v / 256) + v % 256;
    assert 256 * (h * q) == (256 * h) * q;
    DivUnique(v, 256 * h, q, 256 * r + v % 256);
  }

  lemma {:induction false} NoCarryUnlessOnes(p: nat, n: nat)
    ensures HighBitLost(p, p + Units(n), n) <==> HasOnes(p, n)
  {
    if n > 0 {
      NoCarryUnlessOnes(p / 256, n - 1);
      if p % 256 < 0xFF {
        assert (p + Units(n)) / 256 == p / 256 + Units(n - 1);
      }
    }
  }

  /** The test of FLUSH() is nonzero exactly when some byte of the word is 0xFF. */
  lemma FlushMaskFindsOnes(p: nat, n: nat)
    ensures FlushMask(p, n) <==> HasOnes(p, n)
  {
    LowBytesOnly(p, p + Units(n), n, n);
    NoCarryUnlessOnes(p, n);
  }

  /** The same for the expression itself, on 64-bit and 32-bit words. */
  lemma FlushMask64(p: bv64)
    ensures p & 0x8080808080808080 & !(p + 0x0101010101010101) != 0
       <==> p & 0xFF == 0xFF || (p >> 8) & 0xFF == 0xFF || (p >> 16) & 0xFF == 0xFF || (p >> 24) & 0xFF == 0xFF
            || (p >> 32) & 0xFF == 0xFF || (p >> 40) & 0xFF == 0xFF || (p >> 48) & 0xFF == 0xFF
               || (p >> 56) & 0xFF == 0xFF
  {
  }

  lemma FlushMask32(p: bv32)
    ensures p & 0x80808080 & !(p + 0x01010101) != 0
       <==> p & 0xFF == 0xFF || (p >> 8) & 0xFF == 0xFF || (p >> 16) & 0xFF == 0xFF || (p >> 24) & 0xFF == 0xFF
  {
  }

  function ByteOf(p: nat, i: nat): Byte {
    QuotientNonneg(p, Pow2(8 * i));
    p / Pow2(8 * i) % 256
  }

  lemma {:induction false} OnesAtByte(p: nat, n: nat, i: nat)
    requires i < n && !HasOnes(p, n)
    ensures ByteOf(p, i) != 0xFF
  {
    if i == 0 {
      Pow2One();
    } else {
      OnesAtByte(p / 256, n - 1, i - 1);
      Pow2Add(8, 8 * (i - 1));
      Pow2Values();
      QuotientTwice(p, Pow2(8 * (i - 1)));
    }
  }

  lemma QuotientTwice(p: nat, h: nat)
    requires h > 0
    ensures p / 256 / h == p / (256 * h)
  {
    ByteQuotient(p, h);
    var q, r := p / 256 / h, p / 256 % h;
    assert p / 256 == h * q + r;
    assert p == 256 * (p / 256) + p % 256;
    assert 256 * (h * q) == (256 * h) * q;
    DivUnique(p, 256 * h, q, 256 * r + p % 256);
  }

  /** A table with codes of at most 16 bits; for DC, no symbol above 15 has a code. */
  ghost predicate GoodTable(t: Table, isDC: bool) {
    && |t.co| == |t.si| == 256
    && (forall a :: 0 <= a < 256 ==> t.si[a] <= 16 && (t.si[a] > 0 ==> t.co[a] < Pow2(t.si[a])))
    && (isDC ==> forall a :: 16 <= a < 256 ==> t.si[a] == 0)
  }

  lemma DerivedIsGood(bits: Bits16, v: seq<Byte>, t: Table, isDC: bool)
    requires |v| == 256 && Acceptable(bits, v, isDC) && Derives(SizesOf(bits), v, t)
    ensures GoodTable(t, isDC)
  {
    hide Pow2, Left, Canonical, SizesOf;
    forall a: Byte | true
      ensures t.si[a] <= 16 && (t.si[a] > 0 ==> t.co[a] < Pow2(t.si[a])) && (isDC && a >= 16 ==> t.si[a] == 0)
    {
      if t.si[a] > 0 {
        NoAllOnes(SizesOf(bits), v, t, a);
        var p := PositionOf(SizesOf(bits), v, t, a);
      }
    }
  }

  /** An upper bound on the bits of `AcItems(b, k, r)`. */
  function AcRoom(k: nat, r: nat): nat
    requires k <= 64
  {
    31 * (64 - k) + if r == 0 then 0 else 15 + r
  }

  function Ones(n: nat): seq<Bit> {
    seq(n, _ => 1)
  }

  /** The working state: bit accumulator and output buffer. */
  class Writer {
    const w: nat
    const buffer: array<Byte>
    var putBuffer: nat
    var freeBits: int
    var next: nat
    var out: seq<Byte>
    /** What the segment holds so far, before stuffing; what was out before the segment; and how much of `raw`
        was complete when the local buffer was last empty. */
    ghost var raw: seq<Byte>
    ghost var base: seq<Byte>
    ghost var loaded: nat

    ghost predicate Valid()
      reads this, buffer
    {
      && (w == 32 || w == 64) && buffer.Length == BUFSIZE
      && putBuffer < Pow2(w) && 0 <= freeBits <= w
      && loaded <= |raw| && next <= 2 * (|raw| - loaded) <= BUFSIZE
      && out + buffer[..next] == base + Stuff(raw)
    }

    /** The bit string of the segment so far. Only the low `w - freeBits` bits of the accumulator count. */
    ghost function Sent(): seq<Bit>
      reads this
    {
      BytesBits(raw) + Bits(putBuffer, if freeBits <= w then w - freeBits else 0)
    }

    /** There is room for `n` more bits before the local buffer is full. */
    ghost predicate Room(n: nat)
      reads this
    {
      8 * |raw| + w - freeBits + n <= 8 * loaded + 2048
    }

    /** The working state loaded from the saved state. */
    constructor (w: nat, putBuffer: nat, freeBits: int, out: seq<Byte>, ghost raw: seq<Byte>, ghost base: seq<Byte>)
      requires (w == 32 || w == 64) && putBuffer < Pow2(w) && 0 <= freeBits <= w && out == base + Stuff(raw)
      ensures Valid() && next == 0 && fresh(buffer) && this.w == w && this.out == out
      ensures this.putBuffer == putBuffer && this.freeBits == freeBits && this.raw == raw && this.base == base
    {
      hide Pow2, StuffTo;
      this.w, this.putBuffer, this.freeBits, this.out := w, putBuffer, freeBits, out;
      this.raw, this.base, loaded, next := raw, base, |raw|, 0;
      buffer := new Byte[BUFSIZE](_ => 0);
    }

    /** `emit_restart` after `flush_bits`: 0xFF and RSTn; a new segment begins. */
    method StartSegment(restartNum: nat)
      requires Valid() && next == 0 && restartNum < 8 && freeBits == w && out == base + Stuff(raw)
      modifies `out, `base, `raw, `loaded, `putBuffer
      ensures Valid() && next == 0 && raw == [] && out == base == old(out) + [0xFF] + [0xD0 + restartNum]
      ensures Sent() == []
    {
      hide Pow2;
      out := out + [0xFF];
      out := out + [0xD0 + restartNum];
      base := out;
      raw := [];
      loaded := 0;
    }

    /** EMIT_BYTE(). The speculative zero after 0xFF stays; after other bytes it will be overwritten. */
    method EmitByte(b: Byte)
      requires Valid() && |raw| - loaded < 256
      modifies `next, `raw, buffer
      ensures Valid() && raw == old(raw) + [b]
    {
      hide Pow2, StuffTo;
      StuffSnoc(raw, b);
      ghost var before := buffer[..next];
      buffer[next] := b;
      buffer[next + 1] := 0;
      next := next + 2 - if b < 0xFF then 1 else 0;
      raw := raw + [b];
      assert buffer[..next] == before + StuffByte(b);
      ConcatAssoc(out, before, StuffByte(b));
      ConcatAssoc(base, Stuff(old(raw)), StuffByte(b));
    }

    /** The branch of FLUSH() without 0xFF bytes: plain stores. */
    method StoreByte(b: Byte)
      requires Valid() && |raw| - loaded < 256 && b != 0xFF
      modifies `next, `raw, buffer
      ensures Valid() && raw == old(raw) + [b]
    {
      hide Pow2, StuffTo;
      StuffSnoc(raw, b);
      ghost var before := buffer[..next];
      buffer[next] := b;
      next := next + 1;
      raw := raw + [b];
      assert buffer[..next] == before + StuffByte(b);
      ConcatAssoc(out, before, StuffByte(b));
      ConcatAssoc(base, Stuff(old(raw)), StuffByte(b));
    }

    /** FLUSH(): writes all the bytes of the accumulator. (The source unrolls the two loops.) */
    method Flush()
      requires Valid() && |raw| - loaded + w / 8 <= 256
      modifies `next, `raw, buffer
      ensures Valid() && BytesBits(raw) == BytesBits(old(raw)) + Bits(putBuffer, w) && |raw| == |old(raw)| + w / 8
    {
      hide Pow2, StuffTo, Valid, BytesBits, Bits;
      var n := w / 8;
      var i := WordBytes();
      ghost var before := BytesBits(raw);
      FlushStart(putBuffer, w);
      if FlushMask(putBuffer, n) {
        while i > 0
          invariant 0 <= i <= n && Valid() && |raw| == |old(raw)| + n - i
          invariant BytesBits(raw) == before + Bits(TopBytes(putBuffer, i), w - 8 * i)
        {
          i := i - 1;
          NextByte(putBuffer, i, w, raw, before);
          EmitByte(ByteOf(putBuffer, i));
        }
      } else {
        FlushMaskFindsOnes(putBuffer, n);
        while i > 0
          invariant 0 <= i <= n && Valid() && |raw| == |old(raw)| + n - i
          invariant BytesBits(raw) == before + Bits(TopBytes(putBuffer, i), w - 8 * i)
        {
          i := i - 1;
          NextByte(putBuffer, i, w, raw, before);
          OnesAtByte(putBuffer, n, i);
          StoreByte(ByteOf(putBuffer, i));
        }
      }
      FlushEnd(putBuffer);
    }

    /** PUT_BITS(). Bits of the accumulator above the low `w - freeBits` are stale; shifting drops them. */
    method PutBits(code: nat, size: nat)
      requires Valid() && code < Pow2(size) && size <= 31 && Room(size)
      modifies this`putBuffer, `freeBits, `next, `raw, buffer
      ensures Valid() && Sent() == old(Sent()) + Bits(code, size)
    {
      hide Pow2, StuffTo, BytesBits, Bits;
      ghost var before := Sent();
      freeBits := freeBits - size;
      if freeBits < 0 {
        PutAndFlush(code, size);
      } else {
        ShiftIn(putBuffer, code, w - freeBits - size, size, w);
        putBuffer := (putBuffer * Pow2(size) + code) % Pow2(w);
        ConcatAssoc(BytesBits(raw), Bits(old(putBuffer), w - old(freeBits)), Bits(code, size));
      }
    }

    /** PUT_AND_FLUSH(): `0 - freeBits` low bits of `code` do not fit. */
    method PutAndFlush(code: nat, size: nat)
      requires (w == 32 || w == 64) && buffer.Length == BUFSIZE && putBuffer < Pow2(w) && loaded <= |raw|
      requires next <= 2 * (|raw| - loaded) <= BUFSIZE && out + buffer[..next] == base + Stuff(raw)
      requires code < Pow2(size) && size <= 31 && 0 <= size + freeBits < size && Room(0)
      modifies this`putBuffer, `freeBits, `next, `raw, buffer
      ensures Valid()
      ensures Sent() == BytesBits(old(raw)) + Bits(old(putBuffer), w - old(freeBits) - size) + Bits(code, size)
    {
      hide Pow2, StuffTo, BytesBits, Bits;
      var fit, rest := size + freeBits, -freeBits;
      ghost var p := putBuffer;
      SplitCode(code, fit, rest);
      ShiftIn(p, code / Pow2(rest), w - fit, fit, w);
      putBuffer := (putBuffer * Pow2(fit) + code / Pow2(rest)) % Pow2(w);
      freeBits := 0;
      Flush();
      freeBits := w - rest;
      putBuffer := code;
      Pow2Monotone(size, w);
      ConcatAssoc(BytesBits(old(raw)), Bits(p, w - fit), Bits(code / Pow2(rest), fit));
      ConcatAssoc(BytesBits(old(raw)) + Bits(p, w - fit), Bits(code / Pow2(rest), fit), Bits(code, rest));
    }

    /** PUT_CODE(): a code followed by the low `nbits` bits of `temp`. */
    method PutCode(temp: int, nbits: nat, code: nat, size: nat)
      requires Valid() && nbits <= 15 && size <= 16 && code < Pow2(size) && Room(nbits + size)
      modifies this`putBuffer, `freeBits, `next, `raw, buffer
      ensures Valid() && Sent() == old(Sent()) + (Bits(code, size) + Bits(temp % Pow2(nbits), nbits))
    {
      hide Pow2, StuffTo, BytesBits, Bits, Valid;
      var low := temp % Pow2(nbits);
      BitsJoin(code, low, size, nbits, code * Pow2(nbits) + low);
      JoinedFits(code, low, size, nbits);
      PutBits(code * Pow2(nbits) + low, nbits + size);
    }

    /** LOAD_BUFFER(), with the local buffer. */
    method LoadBuffer()
      requires Valid() && next == 0
      modifies `loaded
      ensures Valid() && loaded == |raw| && Room(2048 - 64)
    {
      loaded := |raw|;
    }

    /** STORE_BUFFER(). */
    method StoreBuffer()
      requires Valid()
      modifies `next, `out, `loaded
      ensures Valid() && next == 0 && out == base + Stuff(raw)
    {
      hide Pow2, StuffTo;
      out := out + buffer[..next];
      next := 0;
      loaded := |raw|;
    }

    /** `flush_bits`: complete bytes, then the last bits padded with ones; the accumulator is left empty. */
    method FlushBits()
      requires Valid() && next == 0
      modifies this`putBuffer, `freeBits, `next, `raw, `out, `loaded, buffer
      ensures Valid() && next == 0 && out == base + Stuff(raw) && freeBits == w
      ensures exists pad: nat :: pad < 8 && BytesBits(raw) == Sent() == old(Sent()) + Ones(pad)
    {
      hide Pow2, StuffTo, BytesBits, Bits, Valid;
      var putBits := PendingBits();
      ghost var before, p := BytesBits(raw), putBuffer;
      LoadBuffer();
      while putBits >= 8
        invariant 0 <= putBits <= w - old(freeBits) <= 64 && Valid() && freeBits == old(freeBits) && putBuffer == p
        invariant |raw| - loaded <= 8 && 8 * (|raw| - loaded) + putBits <= 64
        invariant BytesBits(raw) + Bits(p, putBits) == before + Bits(p, w - old(freeBits))
      {
        putBits := putBits - 8;
        LowByte(p, putBits, raw);
        EmitByte(HighPart(putBuffer, putBits) % 256);
      }
      ghost var pad := if putBits > 0 then 8 - putBits else 0;
      if putBits > 0 {
        LastByte(p, putBits, raw);
        EmitByte(PaddedByte(putBuffer, putBits));
      }
      ConcatAssoc(before, Bits(p, w - old(freeBits)), Ones(pad));
      Reset();
      StoreBuffer();
    }

    /** Between coefficients: what is still to come from index `k` on, with `r` zeros pending, completes `goal`. */
    ghost predicate Ahead(goal: seq<Bit>, ac: Table, b: Block, k: nat, r: nat, items: seq<Item>)
      reads this, buffer
      requires k <= 64
    {
      && Valid() && items == AcItems(b, k, r) && AllCoded(ac, items) && Room(AcRoom(k, r))
      && goal == Sent() + ItemsBits(ac, items)
    }

    /** A code without extra bits. */
    method PutPlain(t: Table, sym: nat, ghost goal: seq<Bit>, ghost b: Block, ghost k: nat, ghost r: nat, ghost r': nat,
                    ghost items: seq<Item>)
      requires GoodTable(t, false) && sym < 256 && k <= 64 && Ahead(goal, t, b, k, r, items)
      requires items != [] && items[0] == Item(sym, 0, 0) && items[1..] == AcItems(b, k, r')
      requires AcRoom(k, r') + 16 <= AcRoom(k, r)
      modifies this`putBuffer, `freeBits, `next, `raw, buffer
      ensures Ahead(goal, t, b, k, r', items[1..])
    {
      hide Pow2, Bits, BytesBits, AcItems, StuffTo, ItemBits;
      CodedBits(t, items[0]);
      assert Bits(0, 0) == [];
      PutBits(t.co[sym], t.si[sym]);
      NextItem(t, old(Sent()), items);
    }

    /** The symbol of a nonzero coefficient, and its extra bits. */
    method PutRun(t: Table, r16: nat, temp: int, nbits: nat, ghost goal: seq<Bit>, ghost b: Block, ghost k: nat,
                  ghost r: nat, ghost items: seq<Item>)
      requires GoodTable(t, false) && 1 <= k < 64 && r16 == 16 * r && Ahead(goal, t, b, k, r, items) && CodableAc(b)
      requires items != [] && items[0] == RunItem(r, b[k]) && items[1..] == AcItems(b, k + 1, 0)
      requires temp == (if b[k] < 0 then b[k] - 1 else b[k]) && nbits == Nbits(Abs(b[k]))
      requires r16 + nbits < 256
      modifies this`putBuffer, `freeBits, `next, `raw, buffer
      ensures Ahead(goal, t, b, k + 1, 0, items[1..])
    {
      hide Pow2, Bits, BytesBits, AcItems, StuffTo, Nbits, Extra, ItemBits, RunItem, ItemsBits, GoodTable, AllCoded,
           CodableAc;
      RunCode(t, b, k, r, items, r16 + nbits, nbits, temp);
      PutCode(temp, nbits, t.co[r16 + nbits], t.si[r16 + nbits]);
      NextItem(t, old(Sent()), items);
    }

    /** "kloop": one coefficient. `r` counts zeros in units of 16, like the high digit of a symbol. */
    method EncodeCoef(b: Block, k: nat, r: nat, actbl: Table, ghost goal: seq<Bit>, ghost items0: seq<Item>)
      returns (r': nat, ghost items: seq<Item>)
      requires GoodTable(actbl, false) && 1 <= k < 64 && r % 16 == 0 && CodableAc(b)
      requires Ahead(goal, actbl, b, k, r / 16, items0)
      modifies this`putBuffer, `freeBits, `next, `raw, buffer
      ensures r' % 16 == 0 && Ahead(goal, actbl, b, k + 1, r' / 16, items)
    {
      hide Pow2, Bits, BytesBits, StuffTo, Ahead, GoodTable, Nbits, Extra;
      items := items0;
      var temp := b[k];
      if temp == 0 {
        r' := r + 16;
        SkipZero(goal, actbl, b, k, r / 16, items);
        return;
      }
      r' := r;
      var nbits := if temp < 0 then -1 else 0;
      temp := temp + nbits;
      nbits := if nbits < 0 then -temp - 1 else temp;
      nbits := Nbits(nbits);
      while r' >= 16 * 16
        invariant r' % 16 == 0 && Ahead(goal, actbl, b, k, r' / 16, items)
      {
        ShapeAhead(goal, actbl, b, k, r' / 16, items);
        r' := r' - 16 * 16;
        PutPlain(actbl, 0xF0, goal, b, k, r' / 16 + 16, r' / 16, items);
        items := items[1..];
      }
      ShapeAhead(goal, actbl, b, k, r' / 16, items);
      SymbolFits(b, k, r' / 16);
      PutRun(actbl, r', temp, nbits, goal, b, k, r' / 16, items);
      items := items[1..];
      r' := 0;
    }

    lemma ShapeAhead(goal: seq<Bit>, ac: Table, b: Block, k: nat, r: nat, items: seq<Item>)
      requires k < 64 && Ahead(goal, ac, b, k, r, items) && b[k] != 0
      ensures items != []
      ensures if r > 15 then items[0] == ZRL && items[1..] == AcItems(b, k, r - 16)
              && AcRoom(k, r - 16) + 16 <= AcRoom(k, r)
              else items[0] == RunItem(r, b[k]) && items[1..] == AcItems(b, k + 1, 0)
    {
    }

    lemma SkipZero(goal: seq<Bit>, ac: Table, b: Block, k: nat, r: nat, items: seq<Item>)
      requires k < 64 && Ahead(goal, ac, b, k, r, items) && b[k] == 0
      ensures Ahead(goal, ac, b, k + 1, r + 1, items)
    {
    }

    /** `encode_one_block`. The local buffer cannot overflow. */
    method EncodeOneBlock(block: Block, lastDcVal: int, dctbl: Table, actbl: Table)
      requires Valid() && next == 0 && GoodTable(dctbl, true) && GoodTable(actbl, false) && CodableAc(block)
      requires Coded(dctbl, DcItem(block[0] - lastDcVal)) && AllCoded(actbl, AcItems(block, 1, 0))
      modifies this`putBuffer, `freeBits, `next, `raw, `out, `loaded, buffer
      ensures Valid() && next == 0 && out == base + Stuff(raw)
      ensures Sent() == old(Sent()) + BlockBits(dctbl, actbl, block, block[0] - lastDcVal)
    {
      hide Pow2, Bits, BytesBits, StuffTo, Ahead, GoodTable, AcItems, ItemBits, Nbits, Extra, Stuff;
      ghost var goal := Sent() + BlockBits(dctbl, actbl, block, block[0] - lastDcVal);
      ghost var items := AcItems(block, 1, 0);
      LoadBuffer();
      var temp := block[0] - lastDcVal;
      var nbits := if temp < 0 then -1 else 0;
      temp := temp + nbits;
      nbits := if nbits < 0 then -temp - 1 else temp;
      nbits := Nbits(nbits);
      PutDc(block[0] - lastDcVal, temp, nbits, dctbl, goal, actbl, block, items);
      var r := 0;
      var k := 1;
      while k < 64
        invariant 1 <= k <= 64 && r % 16 == 0 && Ahead(goal, actbl, block, k, r / 16, items)
      {
        r, items := EncodeCoef(block, k, r, actbl, goal, items);
        k := k + 1;
      }
      if r > 0 {
        LastItemIs(goal, actbl, block, r / 16, items);
        PutPlain(actbl, 0, goal, block, 64, r / 16, 0, items);
        items := items[1..];
      }
      NothingAhead(goal, actbl, block, items);
      StoreBuffer();
    }

    lemma LastItemIs(goal: seq<Bit>, ac: Table, b: Block, r: nat, items: seq<Item>)
      requires Ahead(goal, ac, b, 64, r, items) && r > 0
      ensures items == [EOB] && items[1..] == [] == AcItems(b, 64, 0) && AcRoom(64, 0) + 16 <= AcRoom(64, r)
    {
    }

    lemma NothingAhead(goal: seq<Bit>, ac: Table, b: Block, items: seq<Item>)
      requires Ahead(goal, ac, b, 64, 0, items)
      ensures Valid() && Sent() == goal
    {
    }

    /** The DC symbol and its extra bits. */
    method PutDc(diff: int, temp: int, nbits: nat, t: Table, ghost goal: seq<Bit>, ghost ac: Table, ghost b: Block,
                 ghost items: seq<Item>)
      requires Valid() && Room(2048 - 64) && GoodTable(t, true) && Coded(t, DcItem(diff))
      requires temp == (if diff < 0 then diff - 1 else diff) && nbits == Nbits(Abs(diff))
      requires items == AcItems(b, 1, 0) && AllCoded(ac, items)
      requires goal == Sent() + (ItemBits(t, DcItem(diff)) + ItemsBits(ac, items))
      modifies this`putBuffer, `freeBits, `next, `raw, buffer
      ensures Ahead(goal, ac, b, 1, 0, items)
    {
      hide Pow2, Bits, BytesBits, AcItems, StuffTo, Nbits, Extra, ItemsBits, ItemBits;
      LowBits(diff);
      CodedBits(t, DcItem(diff));
      assert nbits <= 15;
      PutCode(temp, nbits, t.co[nbits], t.si[nbits]);
      ConcatAssoc(old(Sent()), ItemBits(t, DcItem(diff)), ItemsBits(ac, items));
    }

    method PendingBits() returns (n: nat)
      requires Valid()
      ensures n == w - freeBits <= 64 && freeBits <= w
    {
      n := w - freeBits;
    }

    /** "and reset bit buffer to empty" */
    method Reset()
      requires Valid()
      modifies `putBuffer, `freeBits
      ensures Valid() && freeBits == w && Sent() == BytesBits(raw)
    {
      putBuffer := 0;
      freeBits := w;
    }

    method WordBytes() returns (n: nat)
      requires Valid()
      ensures n == w / 8 && w == 8 * n
    {
      n := w / 8;
    }
  }

  lemma ShiftIn(p: nat, code: nat, m: nat, size: nat, w: nat)
    requires code < Pow2(size) && m + size <= w
    ensures Bits((p * Pow2(size) + code) % Pow2(w), m + size) == Bits(p, m) + Bits(code, size)
    ensures 0 <= (p * Pow2(size) + code) % Pow2(w) < Pow2(w)
  {
    hide Pow2, Bits;
    var x := p * Pow2(size) + code;
    BitsJoin(p, code, m, size, x);
    var q, r := DivMod(x, Pow2(w));
    BitsModMore(x, m + size, w, r);
  }

  lemma BitsModMore(x: nat, n: nat, w: nat, r: nat)
    requires n <= w && r == x % Pow2(w)
    ensures Bits(r, n) == Bits(x, n)
  {
    hide Pow2, Bits;
    var q, low := DivMod(x, Pow2(n));
    Pow2Add(n, w - n);
    ModMod(x, Pow2(n), Pow2(w - n));
    BitsMod(r, n, low);
    BitsMod(x, n, low);
  }

  lemma ModMod(x: nat, a: nat, b: nat)
    requires a > 0 && b > 0
    ensures a * b > 0 && x % (a * b) % a == x % a
  {
    MulCompare(0, a, b);
    var q, r := x / (a * b), x % (a * b);
    var s, t := r / a, r % a;
    assert x == (a * b) * q + r && r == a * s + t;
    assert (a * b) * q == a * (b * q);
    assert x == a * (b * q + s) + t;
    DivUnique(x, a, b * q + s, t);
  }

  lemma SplitCode(code: nat, fit: nat, rest: nat)
    requires code < Pow2(fit + rest)
    ensures 0 <= code / Pow2(rest) < Pow2(fit)
    ensures Bits(code, fit + rest) == Bits(code / Pow2(rest), fit) + Bits(code, rest)
  {
    hide Pow2, Bits;
    var q, r := BitsSplit(code, fit, rest);
    BitsMod(code, rest, r);
    Pow2Add(fit, rest);
    MulCompare(q, Pow2(fit), Pow2(rest));
  }

  lemma JoinedFits(code: nat, low: nat, size: nat, nbits: nat)
    requires code < Pow2(size) && low < Pow2(nbits)
    ensures code * Pow2(nbits) + low < Pow2(nbits + size)
  {
    hide Pow2;
    Pow2Add(size, nbits);
    MulCompare(code + 1, Pow2(size), Pow2(nbits));
    Split(code, 1, Pow2(nbits));
  }

  function HighPart(p: nat, n: nat): nat {
    QuotientNonneg(p, Pow2(n));
    p / Pow2(n)
  }

  lemma LowByte(p: nat, n: nat, raw: seq<Byte>)
    ensures BytesBits(raw + [HighPart(p, n) % 256]) + Bits(p, n) == BytesBits(raw) + Bits(p, n + 8)
  {
    hide Pow2, Bits, BytesBits;
    var b := HighPart(p, n) % 256;
    BytesBitsSnoc(raw, b);
    var q, r := BitsSplit(p, 8, n);
    BitsMod(p, n, r);
    Pow2Values();
    BitsMod(HighPart(p, n), 8, b);
    ConcatAssoc(BytesBits(raw), Bits(b, 8), Bits(p, n));
  }

  /** `(put_buffer << (8 - put_bits)) | (0xFF >> put_bits)`, as a byte. */
  function PaddedByte(p: nat, n: nat): Byte
    requires n < 8
  {
    (p * Pow2(8 - n) + Pow2(8 - n) - 1) % 256
  }

  lemma {:induction false} BitsOfOnes(n: nat)
    ensures Bits(Pow2(n) - 1, n) == Ones(n)
  {
    if n > 0 {
      BitsOfOnes(n - 1);
    }
  }

  lemma LastByte(p: nat, n: nat, raw: seq<Byte>)
    requires 0 < n < 8
    ensures BytesBits(raw + [PaddedByte(p, n)]) == BytesBits(raw) + Bits(p, n) + Ones(8 - n)
  {
    hide Pow2, Bits, BytesBits;
    BytesBitsSnoc(raw, PaddedByte(p, n));
    Pow2Values();
    ShiftIn(p, Pow2(8 - n) - 1, n, 8 - n, 8);
    BitsOfOnes(8 - n);
    ConcatAssoc(BytesBits(raw), Bits(p, n), Ones(8 - n));
  }

  /** The bits of a whole block. */
  function BlockBits(dc: Table, ac: Table, b: Block, diff: int): seq<Bit> {
    ItemBits(dc, DcItem(diff)) + ItemsBits(ac, AcItems(b, 1, 0))
  }

  /** The branchless trick of the source: `v` less one if negative, cut to its number of bits. */
  lemma LowBits(v: int)
    ensures (if v < 0 then v - 1 else v) % Pow2(Nbits(Abs(v))) == Extra(v) >= 0
  {
    hide Pow2, Nbits;
    ExtendExtra(v);
    NbitsBounds(Abs(v));
    SmallMod(if v < 0 then v - 1 else v, Pow2(Nbits(Abs(v))));
  }

  /** The bits of the item for a nonzero coefficient, as PUT_CODE() takes them. */
  lemma RunCode(t: Table, b: Block, k: nat, r: nat, items: seq<Item>, sym: nat, nbits: nat, temp: int)
    requires GoodTable(t, false) && 1 <= k < 64 && CodableAc(b) && AllCoded(t, items)
    requires items != [] && items[0] == RunItem(r, b[k]) && sym < 256
    requires temp == (if b[k] < 0 then b[k] - 1 else b[k]) && nbits == Nbits(Abs(b[k])) && sym == 16 * r + nbits
    ensures nbits <= 15 && |t.co| == |t.si| == 256 && t.si[sym] <= 16 && t.co[sym] < Pow2(t.si[sym])
    ensures ItemBits(t, items[0]) == Bits(t.co[sym], t.si[sym]) + Bits(temp % Pow2(nbits), nbits)
  {
    hide Pow2, Bits, Nbits, Extra, ItemBits;
    Pow2Values();
    NbitsAtMost(Abs(b[k]), 15);
    LowBits(b[k]);
    CodedBits(t, items[0]);
  }

  lemma SymbolFits(b: Block, k: nat, r: nat)
    requires 1 <= k < 64 && r <= 15 && CodableAc(b)
    ensures 16 * r + Nbits(Abs(b[k])) < 256
  {
    hide Pow2;
    Pow2Values();
    NbitsAtMost(Abs(b[k]), 15);
  }

  lemma NextItem(t: Table, sent: seq<Bit>, items: seq<Item>)
    requires items != [] && AllCoded(t, items)
    ensures AllCoded(t, items[1..])
    ensures sent + ItemsBits(t, items) == sent + ItemBits(t, items[0]) + ItemsBits(t, items[1..])
  {
  }

  function TopBytes(p: nat, i: nat): nat {
    QuotientNonneg(p, Pow2(8 * i));
    p / Pow2(8 * i)
  }

  lemma FlushStart(p: nat, w: nat)
    requires w % 8 == 0
    ensures Bits(TopBytes(p, w / 8), 0) == []
  {
  }

  lemma FlushEnd(p: nat)
    ensures TopBytes(p, 0) == p
  {
  }

  lemma NextByte(p: nat, i: nat, w: nat, raw: seq<Byte>, before: seq<Bit>)
    requires 8 * (i + 1) <= w && BytesBits(raw) == before + Bits(TopBytes(p, i + 1), w - 8 * (i + 1))
    ensures BytesBits(raw + [ByteOf(p, i)]) == before + Bits(TopBytes(p, i), w - 8 * i)
  {
    hide Pow2, Bits, BytesBits;
    BytesBitsSnoc(raw, ByteOf(p, i));
    Pow2Add(8, 8 * i);
    Pow2Values();
    var q, r := BitsSplit(TopBytes(p, i), w - 8 * (i + 1), 8);
    ByteQuotient(p, Pow2(8 * i));
    QuotientSwap(p, Pow2(8 * i));
    ConcatAssoc(before, Bits(TopBytes(p, i + 1), w - 8 * (i + 1)), Bits(ByteOf(p, i), 8));
  }

  lemma QuotientSwap(p: nat, h: nat)
    requires h > 0
    ensures p / (256 * h) == p / h / 256
  {
    var q, r := p / h, p % h;
    assert p == h * q + r;
    var x, y := q / 256, q % 256;
    assert q == 256 * x + y;
    assert h * q == (256 * h) * x + h * y;
    MulCompare(y, 255, h);
    assert h * 255 + h == 256 * h;
    DivUnique(p, 256 * h, x, h * y + r);
  }
}
