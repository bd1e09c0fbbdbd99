/** Bit strings, and decoding one Huffman symbol: `jpeg_make_d_derived_tbl` and `jpeg_huff_decode` (`jdhuff.c`),
    Figures F.15 and F.16 of T.81. */
module HuffmanBits {
  import opened Numbers
  import opened ArithModel
  import opened HuffmanLimit
  import opened DerivedTable

  type Bit = b: int | 0 <= b < 2

  /** The low `n` bits of `v`, most significant first. */
  function Bits(v: nat, n: nat): (s: seq<Bit>)
    ensures |s| == n
  {
    if n == 0 then [] else Bits(v / 2, n - 1) + [v % 2]
  }

  /** Appending the `n` bits of `c` shifts `v` left by `n`. */
  lemma {:induction false} BitsJoin(v: nat, c: nat, m: nat, n: nat, x: nat)
    requires c < Pow2(n) && x == v * Pow2(n) + c
    ensures Bits(x, m + n) == Bits(v, m) + Bits(c, n)
  {
    hide Pow2;
    if n == 0 {
      Pow2One();
    } else {
      Pow2Half(n);
      MulAssoc(v, 2, Pow2(n - 1));
      HalfJoin(v * Pow2(n - 1), c, x);
      BitsJoin(v, c / 2, m, n - 1, x / 2);
    }
  }

  lemma HalfJoin(u: int, c: nat, x: nat)
    requires x == 2 * u + c
    ensures x / 2 == u + c / 2 && x % 2 == c % 2
  {
  }

  lemma BitsStep(v: nat, n: nat)
    requires n > 0
    ensures Bits(v, n) == Bits(v / 2, n - 1) + [v % 2]
  {
  }

  /** The other way round: the bits of a number are those of its quotient and its remainder. */
  lemma BitsSplit(v: nat, m: nat, n: nat) returns (q: nat, r: nat)
    ensures q == v / Pow2(n) && r == v % Pow2(n) && v == q * Pow2(n) + r && r < Pow2(n)
    ensures Bits(v, m + n) == Bits(q, m) + Bits(r, n)
  {
    hide Pow2, Bits;
    q, r := DivMod(v, Pow2(n));
    BitsJoin(q, r, m, n, v);
  }

  lemma BitsMod(v: nat, n: nat, r: nat)
    requires r == v % Pow2(n)
    ensures Bits(r, n) == Bits(v, n)
  {
    hide Pow2, Bits;
    var q, r' := BitsSplit(v, 0, n);
    assert Bits(q, 0) == [];
  }

  /** The number a bit string spells. */
  function BitsVal(s: seq<Bit>): nat {
    if s == [] then 0 else BitsVal(s[..|s| - 1]) * 2 + s[|s| - 1]
  }

  lemma {:induction false} ValOfBits(v: nat, n: nat)
    requires v < Pow2(n)
    ensures BitsVal(Bits(v, n)) == v
  {
    if n > 0 {
      ValOfBits(v / 2, n - 1);
      assert Bits(v, n)[..n - 1] == Bits(v / 2, n - 1);
    }
  }

  /** The bits of a byte string, in order. */
  function BytesBits(raw: seq<Byte>): (s: seq<Bit>)
    ensures |s| == 8 * |raw|
  {
    if raw == [] then [] else BytesBits(raw[..|raw| - 1]) + Bits(raw[|raw| - 1], 8)
  }

  /** The first bit of a byte string is the most significant one. */
  lemma {:induction false} BitsOfBytes(raw: seq<Byte>)
    ensures BitsVal(BytesBits(raw)) == BytesVal(raw)
  {
    if raw != [] {
      var init, b := raw[..|raw| - 1], raw[|raw| - 1];
      BitsOfBytes(init);
      Pow2Values();
      ValOfBits(b, 8);
      BitsValJoin(BytesBits(init), Bits(b, 8));
    }
  }

  lemma {:induction false} BitsValJoin(a: seq<Bit>, b: seq<Bit>)
    ensures BitsVal(a + b) == BitsVal(a) * Pow2(|b|) + BitsVal(b)
  {
    hide Pow2;
    if b == [] {
      Pow2One();
      assert a + b == a;
    } else {
      BitsValJoin(a, b[..|b| - 1]);
      assert (a + b)[..|a + b| - 1] == a + b[..|b| - 1];
      Pow2Half(|b|);
      MulAssoc(BitsVal(a), Pow2(|b| - 1), 2);
    }
  }

  lemma BytesBitsSnoc(raw: seq<Byte>, b: Byte)
    ensures BytesBits(raw + [b]) == BytesBits(raw) + Bits(b, 8)
  {
  }

  /** Decoding tables by code length; entry 17 is a sentinel. */
  datatype Decoding = Decoding(maxcode: seq<int>, valoffset: seq<int>, huffval: seq<Byte>)

  /** How many codes have at most `l` bits. */
  function CodesUpTo(bits: Bits16, l: nat): (n: nat)
    requires l <= 16
    ensures n <= |SizesOf(bits)|
  {
    ShortCodes(bits, l, 16);
    |SizesTo(bits, l)|
  }

  /** Figure F.15 for length `l`: the greatest code, and the distance from a code to its symbol's position. */
  ghost predicate LengthDecodes(bits: Bits16, l: nat, maxcode: int, valoffset: int)
    requires 1 <= l <= 16
  {
    var s, first, next := SizesOf(bits), CodesUpTo(bits, l - 1), CodesUpTo(bits, l);
    if bits[l] == 0 then maxcode == -1
    else first < next && maxcode >= 0 && Canonical(s, next - 1, maxcode)
         && first >= valoffset && Canonical(s, first, first - valoffset)
  }

  ghost predicate Decodes(bits: Bits16, v: seq<Byte>, d: Decoding) {
    && |d.maxcode| == |d.valoffset| == 18 && d.huffval == v && |v| == 256 && |SizesOf(bits)| <= 256
    && d.maxcode[17] == 0xFFFFF
    && forall l :: 1 <= l <= 16 ==> LengthDecodes(bits, l, d.maxcode[l], d.valoffset[l])
  }

  lemma CodesStep(bits: Bits16, l: nat)
    requires 1 <= l <= 16
    ensures CodesUpTo(bits, l) == CodesUpTo(bits, l - 1) + bits[l]
    ensures forall p :: CodesUpTo(bits, l - 1) <= p < CodesUpTo(bits, l) ==> SizesOf(bits)[p] == l
    ensures forall p :: 0 <= p < CodesUpTo(bits, l - 1) ==> SizesOf(bits)[p] < l
  {
    var t := SizesTo(bits, l);
    assert t == SizesTo(bits, l - 1) + Times(l, bits[l]);
    ShortCodes(bits, l, 16);
    ShortCodes(bits, l - 1, 16);
    assert forall p :: 0 <= p < |t| ==> SizesOf(bits)[p] == t[p];
  }

  /** `jpeg_make_d_derived_tbl`, without its lookahead tables. */
  method MakeDecodingTable(bits: Bits16, huffval: seq<Byte>, isDC: bool) returns (ok: bool, d: Decoding)
    requires |huffval| == 256
    ensures var s := SizesOf(bits);
            ok <==> |s| <= 256 && Left(s, |s|) < Pow2(16)
                    && (isDC ==> forall i :: 0 <= i < |s| ==> huffval[i] <= 15)
    ensures ok ==> Decodes(bits, huffval, d)
  {
    hide Pow2, Left, SizesOf, Canonical, Ascending, CodesUpTo, LengthDecodes;
    d := Decoding([], [], []);
    var huffsize := new nat[257](_ => 0);
    var numsymbols;
    ok, numsymbols := ListSizes(bits, huffsize);
    if !ok {
      return;
    }
    ghost var s: Sizes := SizesOf(bits);
    var huffcode := new nat[257](_ => 0);
    ok := AssignCodes(huffsize, huffcode, s);
    if !ok {
      return;
    }
    var maxcode := new int[18](_ => -1);
    var valoffset := new int[18](_ => 0);
    var p := 0;
    ghost var codes := huffcode[..];
    NoCodes(bits);
    var l := 1;
    while l <= 16
      invariant 1 <= l <= 17 && p == CodesUpTo(bits, l - 1)
      invariant huffcode[..] == codes
      invariant forall m :: 1 <= m < l ==> LengthDecodes(bits, m, maxcode[m], valoffset[m])
    {
      p := FillLength(bits, l, huffcode, maxcode, valoffset, p);
      l := l + 1;
    }
    valoffset[17] := 0;
    maxcode[17] := 0xFFFFF;
    if isDC {
      ok := CheckDcSymbols(huffval, numsymbols);
      if !ok {
        return;
      }
    }
    d := Decoding(maxcode[..], valoffset[..], huffval);
  }

  /** Codes of length `l`. */
  method FillLength(bits: Bits16, l: nat, huffcode: array<nat>, maxcode: array<int>, valoffset: array<int>, p0: nat)
    returns (p: nat)
    requires 1 <= l <= 16 && |SizesOf(bits)| <= huffcode.Length && p0 == CodesUpTo(bits, l - 1)
    requires maxcode.Length == valoffset.Length == 18 && maxcode != valoffset
    requires forall q :: 0 <= q < |SizesOf(bits)| ==> Canonical(SizesOf(bits), q, huffcode[q])
    modifies maxcode, valoffset
    ensures p == CodesUpTo(bits, l) && LengthDecodes(bits, l, maxcode[l], valoffset[l])
    ensures forall m :: 0 <= m < 18 && m != l ==> maxcode[m] == old(maxcode[m]) && valoffset[m] == old(valoffset[m])
  {
    hide SizesOf, Canonical, CodesUpTo, LengthDecodes;
    LengthStep(bits, l, huffcode[..]);
    p := p0;
    if bits[l] > 0 {
      valoffset[l] := p - huffcode[p];
      p := p + bits[l];
      maxcode[l] := huffcode[p - 1];
    } else {
      maxcode[l] := -1;
    }
  }

  lemma LengthStep(bits: Bits16, l: nat, huffcode: seq<nat>)
    requires 1 <= l <= 16 && |SizesOf(bits)| <= |huffcode|
    requires forall q :: 0 <= q < |SizesOf(bits)| ==> Canonical(SizesOf(bits), q, huffcode[q])
    ensures CodesUpTo(bits, l) == CodesUpTo(bits, l - 1) + bits[l] <= |SizesOf(bits)|
    ensures var first, next := CodesUpTo(bits, l - 1), CodesUpTo(bits, l);
            if bits[l] == 0 then forall x :: LengthDecodes(bits, l, -1, x)
            else LengthDecodes(bits, l, huffcode[next - 1], first - huffcode[first])
  {
    hide Canonical, SizesOf, CodesUpTo;
    CodesStep(bits, l);
  }

  /** "Validate symbols as being reasonable". */
  method CheckDcSymbols(huffval: seq<Byte>, numsymbols: nat) returns (ok: bool)
    requires numsymbols <= |huffval|
    ensures ok <==> forall i :: 0 <= i < numsymbols ==> huffval[i] <= 15
  {
    var i := 0;
    while i < numsymbols
      invariant i <= numsymbols && forall j :: 0 <= j < i ==> huffval[j] <= 15
    {
      if huffval[i] < 0 || huffval[i] > 15 {
        return false;
      }
      i := i + 1;
    }
    return true;
  }

  lemma NoCodes(bits: Bits16)
    ensures CodesUpTo(bits, 0) == 0
  {
  }

  datatype Decoded<T> = Failed | Decoded(value: T, pos: nat)

  /** Figure F.16 from length `l` on: `code` is what the `l` bits before `pos` spell. */
  function DecodeFrom(d: Decoding, bits: seq<Bit>, pos: nat, code: nat, l: nat): (r: Decoded<Byte>)
    requires |d.maxcode| == |d.valoffset| == 18 && 1 <= l <= 17 && pos <= |bits|
    ensures r.Decoded? ==> r.pos <= |bits|
    decreases 17 - l
  {
    if code > d.maxcode[l] then
      if l == 17 || pos == |bits| then Failed else DecodeFrom(d, bits, pos + 1, code * 2 + bits[pos], l + 1)
    else if l > 16 then Failed
    else
      var at := code + d.valoffset[l];
      if 0 <= at < |d.huffval| then Decoded(d.huffval[at], pos) else Failed
  }

  function DecodeSymbol(d: Decoding, bits: seq<Bit>, pos: nat): (r: Decoded<Byte>)
    requires |d.maxcode| == |d.valoffset| == 18 && pos <= |bits|
    ensures r.Decoded? ==> r.pos <= |bits|
  {
    if pos == |bits| then Failed else DecodeFrom(d, bits, pos + 1, bits[pos], 1)
  }

  /** Before all its bits are in, a code is greater than every shorter code. */
  lemma NotYet(bits: Bits16, l: nat, maxcode: int, valoffset: int, p: nat, code: nat)
    requires 1 <= l <= 16 && LengthDecodes(bits, l, maxcode, valoffset)
    requires p < |SizesOf(bits)| && l < SizesOf(bits)[p] && Canonical(SizesOf(bits), p, code)
    ensures code / Pow2(SizesOf(bits)[p] - l) > maxcode
  {
    hide Pow2, Left, SizesOf, CodesUpTo, Canonical;
    var s := SizesOf(bits);
    QuotientNonneg(code, Pow2(s[p] - l));
    CodesStep(bits, l);
    if bits[l] > 0 {
      GreaterThanShorter(s, CodesUpTo(bits, l) - 1, p, maxcode, code);
    }
  }

  lemma GreaterThanShorter(s: Sizes, m: nat, p: nat, short: nat, code: nat)
    requires m < p < |s| && s[m] < s[p] && Canonical(s, m, short) && Canonical(s, p, code)
    ensures code / Pow2(s[p] - s[m]) > short
  {
    hide Pow2, Left;
    var e := s[p] - s[m];
    CodeEnd(s, m, short);
    LeftMonotone(s, m + 1, p);
    Pow2Add(e, 16 - s[p]);
    MulAssoc(short + 1, Pow2(e), Pow2(16 - s[p]));
    MulCompare((short + 1) * Pow2(e), code, Pow2(16 - s[p]));
    QuotientAtLeast(code, Pow2(e), short + 1);
  }

  lemma QuotientAtLeast(x: nat, d: nat, q: nat)
    requires d > 0 && q * d <= x
    ensures q <= x / d
  {
    DivBounds(x, d);
    if x / d < q {
      MulCompare(x / d + 1, q, d);
      assert false;
    }
  }

  /** With all its bits in, a code leads to its own position. */
  lemma Arrived(bits: Bits16, p: nat, code: nat, maxcode: int, valoffset: int)
    requires p < |SizesOf(bits)| && Canonical(SizesOf(bits), p, code)
    requires LengthDecodes(bits, SizesOf(bits)[p], maxcode, valoffset)
    ensures code <= maxcode && code + valoffset == p
  {
    hide Pow2, Left, SizesOf, CodesUpTo;
    var s := SizesOf(bits);
    var l := s[p];
    CodesStep(bits, l);
    var first, next := CodesUpTo(bits, l - 1), CodesUpTo(bits, l);
    PositionInRange(bits, p);
    var x := first - valoffset;
    LeftOfRun(s, first, p, l);
    LeftOfRun(s, p, next - 1, l);
    Split(x, p - first, Pow2(16 - l));
    MulCompare(x + (p - first), code, Pow2(16 - l));
    Split(code, next - 1 - p, Pow2(16 - l));
    MulCompare(code + (next - 1 - p), maxcode, Pow2(16 - l));
  }

  lemma PositionInRange(bits: Bits16, p: nat)
    requires p < |SizesOf(bits)|
    ensures CodesUpTo(bits, SizesOf(bits)[p] - 1) <= p < CodesUpTo(bits, SizesOf(bits)[p])
  {
    hide CodesUpTo, SizesOf;
    var l := SizesOf(bits)[p];
    CodesStep(bits, l);
    AllCodes(bits);
    if p >= CodesUpTo(bits, l) {
      Beyond(bits, l, p);
    }
  }

  lemma AllCodes(bits: Bits16)
    ensures CodesUpTo(bits, 16) == |SizesOf(bits)|
  {
  }

  /** Positions beyond the codes of at most `l` bits have longer codes. */
  lemma {:induction false} Beyond(bits: Bits16, l: nat, p: nat)
    requires l <= 16 && p < |SizesOf(bits)| && p >= CodesUpTo(bits, l)
    ensures SizesOf(bits)[p] > l
    decreases 16 - l
  {
    hide CodesUpTo, SizesOf;
    if l == 16 {
      AllCodes(bits);
    } else {
      CodesStep(bits, l + 1);
      if p >= CodesUpTo(bits, l + 1) {
        Beyond(bits, l + 1, p);
      }
    }
  }

  /** Bit number `l` of an `n`-bit code follows its first `l` bits. */
  lemma NextBit(code: nat, n: nat, l: nat)
    requires 1 <= l < n
    ensures code / Pow2(n - l) * 2 + Bits(code, n)[l] == code / Pow2(n - l - 1)
  {
    hide Pow2, Bits;
    var e := n - l - 1;
    var q, r := BitsSplit(code, l + 1, e);
    BitsStep(q, l + 1);
    Pow2Half(n - l);
    Halve(code, Pow2(e));
  }

  lemma FirstBit(code: nat, n: nat)
    requires 1 <= n && code < Pow2(n)
    ensures Bits(code, n)[0] == code / Pow2(n - 1)
  {
    hide Pow2, Bits;
    var e := n - 1;
    var q, r := BitsSplit(code, 1, e);
    BitsStep(q, 1);
    Pow2Half(n);
    MulCompare(q, 2, Pow2(e));
  }

  ghost predicate At(bits: seq<Bit>, pos: nat, s: seq<Bit>) {
    pos + |s| <= |bits| && bits[pos..pos + |s|] == s
  }

  /** A code without its last `k` bits. */
  function Top(code: nat, k: nat): nat {
    QuotientNonneg(code, Pow2(k));
    code / Pow2(k)
  }

  lemma TopOnTheWay(bits: Bits16, l: nat, maxcode: int, valoffset: int, p: nat, code: nat, n: nat)
    requires p < |SizesOf(bits)| && n == SizesOf(bits)[p] && 1 <= l < n && l <= 16
    requires Canonical(SizesOf(bits), p, code) && LengthDecodes(bits, l, maxcode, valoffset)
    ensures Top(code, n - l) > maxcode && Top(code, n - l) * 2 + Bits(code, n)[l] == Top(code, n - l - 1)
  {
    hide Pow2, SizesOf, Canonical, Bits, LengthDecodes;
    NotYet(bits, l, maxcode, valoffset, p, code);
    NextBit(code, n, l);
  }

  lemma TopAtTheEnd(code: nat)
    ensures Top(code, 0) == code
  {
    Pow2One();
  }

  lemma {:induction false} DecodeOn(bits: Bits16, d: Decoding, str: seq<Bit>, pos: nat, p: nat, code: nat, n: nat,
                                    l: nat)
    requires Decodes(bits, d.huffval, d) && p < |SizesOf(bits)| && Canonical(SizesOf(bits), p, code)
    requires 1 <= l <= n == SizesOf(bits)[p] && At(str, pos, Bits(code, n))
    ensures DecodeFrom(d, str, pos + l, Top(code, n - l), l) == Decoded(d.huffval[p], pos + n)
    decreases 17 - l
  {
    hide Pow2, Left, SizesOf, CodesUpTo, Canonical, Bits, LengthDecodes, DecodeFrom, Top;
    if l == n {
      Arrived(bits, p, code, d.maxcode[l], d.valoffset[l]);
      TopAtTheEnd(code);
      Found(d, str, pos + l, code, l);
    } else {
      TopOnTheWay(bits, l, d.maxcode[l], d.valoffset[l], p, code, n);
      assert str[pos + l] == Bits(code, n)[l];
      OneMoreBit(d, str, pos + l, Top(code, n - l), l);
      DecodeOn(bits, d, str, pos, p, code, n, l + 1);
    }
  }

  lemma OneMoreBit(d: Decoding, str: seq<Bit>, pos: nat, c: nat, l: nat)
    requires |d.maxcode| == |d.valoffset| == 18 && 1 <= l <= 16 && pos < |str| && c > d.maxcode[l]
    ensures DecodeFrom(d, str, pos, c, l) == DecodeFrom(d, str, pos + 1, c * 2 + str[pos], l + 1)
  {
  }

  lemma Found(d: Decoding, str: seq<Bit>, pos: nat, c: nat, l: nat)
    requires |d.maxcode| == |d.valoffset| == 18 && 1 <= l <= 16 && pos <= |str| && c <= d.maxcode[l]
    requires 0 <= c + d.valoffset[l] < |d.huffval|
    ensures DecodeFrom(d, str, pos, c, l) == Decoded(d.huffval[c + d.valoffset[l]], pos)
  {
  }

  /** `jpeg_huff_decode` reads back the symbol whose code comes next. */
  lemma SymbolDecodes(bits: Bits16, v: seq<Byte>, t: Table, d: Decoding, str: seq<Bit>, pos: nat, a: Byte)
    requires Derives(SizesOf(bits), v, t) && Decodes(bits, v, d) && t.si[a] > 0
    requires At(str, pos, Bits(t.co[a], t.si[a]))
    ensures pos <= |str| && DecodeSymbol(d, str, pos) == Decoded(a, pos + t.si[a])
  {
    hide Pow2, Left, SizesOf, CodesUpTo, Canonical, Bits, LengthDecodes, Ascending;
    var p := PositionOf(SizesOf(bits), v, t, a);
    NoAllOnes(SizesOf(bits), v, t, a);
    FirstBit(t.co[a], t.si[a]);
    QuotientNonneg(t.co[a], Pow2(t.si[a] - 1));
    assert str[pos] == Bits(t.co[a], t.si[a])[0];
    DecodeOn(bits, d, str, pos, p, t.co[a], t.si[a], 1);
  }
}
