/** Sections F.1.2 and F.2.2 of T.81: the symbols and bits of one coefficient block, and reading them back. */
module HuffmanBlock {
  import opened Numbers
  import opened ArithModel
  import opened DerivedTable
  import opened HuffmanLimit
  import opened HuffmanBits

  /** Number of bits in a magnitude (`JPEG_NBITS`). */
  function Nbits(v: nat): nat {
    if v == 0 then 0 else 1 + Nbits(v / 2)
  }

  lemma {:induction false} NbitsBounds(v: nat)
    ensures v < Pow2(Nbits(v)) && (v > 0 ==> v >= Pow2(Nbits(v) - 1))
  {
    if v > 0 {
      NbitsBounds(v / 2);
    }
  }

  lemma {:induction false} NbitsAtMost(v: nat, n: nat)
    requires v < Pow2(n)
    ensures Nbits(v) <= n
  {
    if v > 0 {
      NbitsAtMost(v / 2, n - 1);
    }
  }

  function Abs(x: int): nat {
    if x < 0 then -x else x
  }

  /** The bits after the symbol: the value itself if positive, the complement of its magnitude if negative. */
  function Extra(v: int): (e: int) {
    if v < 0 then v - 1 + Pow2(Nbits(Abs(v))) else v
  }

  /** Figure F.12 (`HUFF_EXTEND`). */
  function Extend(r: nat, s: nat): int
    requires s > 0
  {
    if r < Pow2(s - 1) then r - Pow2(s) + 1 else r
  }

  lemma ExtendExtra(v: int)
    ensures 0 <= Extra(v) < Pow2(Nbits(Abs(v)))
    ensures v != 0 ==> Nbits(Abs(v)) > 0 && Extend(Extra(v), Nbits(Abs(v))) == v
  {
    hide Pow2;
    NbitsBounds(Abs(v));
    if v != 0 {
      Pow2Half(Nbits(Abs(v)));
    }
  }

  /** A Huffman symbol and the `n` extra bits that follow its code. */
  datatype Item = Item(sym: nat, extra: nat, n: nat)

  function DcItem(diff: int): Item {
    ExtendExtra(diff);
    Item(Nbits(Abs(diff)), Extra(diff), Nbits(Abs(diff)))
  }

  const ZRL := Item(0xF0, 0, 0)
  const EOB := Item(0, 0, 0)

  function RunItem(r: nat, v: int): Item {
    ExtendExtra(v);
    Item(16 * r + Nbits(Abs(v)), Extra(v), Nbits(Abs(v)))
  }

  /** The AC items from index `k` on, with `r` zeros pending. */
  function AcItems(b: Block, k: nat, r: nat): seq<Item>
    requires k <= 64
    decreases 64 - k, r
  {
    if k == 64 then (if r > 0 then [EOB] else [])
    else if b[k] == 0 then AcItems(b, k + 1, r + 1)
    else if r > 15 then [ZRL] + AcItems(b, k, r - 16)
    else [RunItem(r, b[k])] + AcItems(b, k + 1, 0)
  }

  function ItemBits(t: Table, i: Item): seq<Bit> {
    if |t.co| == |t.si| == 256 && i.sym < 256 then Bits(t.co[i.sym], t.si[i.sym]) + Bits(i.extra, i.n) else []
  }

  ghost predicate Coded(t: Table, i: Item) {
    |t.co| == |t.si| == 256 && i.sym < 256 && t.si[i.sym] > 0
  }

  ghost predicate AllCoded(t: Table, items: seq<Item>) {
    |t.co| == |t.si| == 256 && forall j :: 0 <= j < |items| ==> Coded(t, items[j])
  }

  lemma CodedBits(t: Table, i: Item)
    requires |t.co| == |t.si| == 256 && i.sym < 256
    ensures ItemBits(t, i) == Bits(t.co[i.sym], t.si[i.sym]) + Bits(i.extra, i.n)
    ensures |ItemBits(t, i)| == t.si[i.sym] + i.n
  {
  }

  function ItemsBits(t: Table, items: seq<Item>): seq<Bit> {
    if items == [] then [] else ItemBits(t, items[0]) + ItemsBits(t, items[1..])
  }

  /** Every magnitude has at most 15 bits, so that a run and a size fit a byte. */
  ghost predicate CodableAc(b: Block) {
    forall j :: 1 <= j < 64 ==> -0x8000 < b[j] < 0x8000
  }

  function Receive(bits: seq<Bit>, pos: nat, n: nat): nat
    requires pos + n <= |bits|
  {
    BitsVal(bits[pos..pos + n])
  }

  /** Section F.2.2.2 from index `k` on (`decode_mcu_slow`); zeroes are skipped. */
  function DecodeAc(d: Decoding, bits: seq<Bit>, pos: nat, k: nat, b: Block): (r: Decoded<Block>)
    requires |d.maxcode| == |d.valoffset| == 18 && pos <= |bits|
    ensures r.Decoded? ==> r.pos <= |bits|
    decreases 64 - k
  {
    if k >= 64 then Decoded(b, pos)
    else
      var s := DecodeSymbol(d, bits, pos);
      if s.Failed? then Failed
      else
        var run, size := s.value / 16, s.value % 16;
        if size != 0 then
          if k + run >= 64 || s.pos + size > |bits| then Failed
          else DecodeAc(d, bits, s.pos + size, k + run + 1, b[k + run := Extend(Receive(bits, s.pos, size), size)])
        else if run != 15 then Decoded(b, s.pos)
        else DecodeAc(d, bits, s.pos, k + 16, b)
  }

  /** Section F.2.2.1: a DC difference. */
  function DecodeDc(d: Decoding, bits: seq<Bit>, pos: nat): (r: Decoded<int>)
    requires |d.maxcode| == |d.valoffset| == 18 && pos <= |bits|
    ensures r.Decoded? ==> r.pos <= |bits|
  {
    var s := DecodeSymbol(d, bits, pos);
    if s.Failed? then Failed
    else if s.value == 0 then Decoded(0, s.pos)
    else if s.pos + s.value > |bits| then Failed
    else Decoded(Extend(Receive(bits, s.pos, s.value), s.value), s.pos + s.value)
  }

  /** An encoding table and a decoding table made from the same definition. */
  ghost predicate Paired(t: Table, d: Decoding) {
    exists bits: Bits16 :: PairedBy(bits, t, d)
  }

  ghost predicate PairedBy(bits: Bits16, t: Table, d: Decoding) {
    Derives(SizesOf(bits), d.huffval, t) && Decodes(bits, d.huffval, d)
  }

  lemma PairedShape(t: Table, d: Decoding)
    requires Paired(t, d)
    ensures |t.co| == |t.si| == 256 && |d.maxcode| == |d.valoffset| == 18
  {
  }

  lemma AtSplit(str: seq<Bit>, pos: nat, a: seq<Bit>, b: seq<Bit>)
    requires At(str, pos, a + b)
    ensures At(str, pos, a) && At(str, pos + |a|, b)
  {
    var s := str[pos..pos + |a + b|];
    assert s[..|a|] == a && s[|a|..] == b;
  }

  lemma ItemDecodes(t: Table, d: Decoding, str: seq<Bit>, pos: nat, i: Item)
    requires Paired(t, d) && Coded(t, i) && At(str, pos, ItemBits(t, i)) && i.extra < Pow2(i.n)
    ensures |d.maxcode| == |d.valoffset| == 18 && pos <= |str|
    ensures DecodeSymbol(d, str, pos) == Decoded(i.sym, pos + t.si[i.sym])
    ensures pos + |ItemBits(t, i)| == pos + t.si[i.sym] + i.n <= |str|
    ensures Receive(str, pos + t.si[i.sym], i.n) == i.extra
  {
    hide Derives, Decodes, Bits, Pow2, DecodeSymbol, ItemBits;
    CodedBits(t, i);
    var code := Bits(t.co[i.sym], t.si[i.sym]);
    AtSplit(str, pos, code, Bits(i.extra, i.n));
    PairedShape(t, d);
    var bits: Bits16 :| PairedBy(bits, t, d);
    SymbolDecodes(bits, d.huffval, t, d, str, pos, i.sym);
    ValOfBits(i.extra, i.n);
  }

  /** Section F.2.2.1 inverts section F.1.2.1. */
  lemma DcDecodes(t: Table, d: Decoding, str: seq<Bit>, pos: nat, diff: int)
    requires Paired(t, d) && Coded(t, DcItem(diff)) && At(str, pos, ItemBits(t, DcItem(diff)))
    ensures |d.maxcode| == |d.valoffset| == 18 && pos <= |str|
    ensures DecodeDc(d, str, pos) == Decoded(diff, pos + |ItemBits(t, DcItem(diff))|)
  {
    hide Paired, Pow2, DecodeSymbol, Receive, Extend, Extra;
    ExtendExtra(diff);
    ItemDecodes(t, d, str, pos, DcItem(diff));
  }

  /** `b` up to index `k`, zeros from there. */
  function Known(b: Block, k: nat): (r: Block)
  {
    seq(64, j requires 0 <= j < 64 => if j < k then b[j] else 0)
  }

  ghost predicate ZeroRun(b: Block, k: nat, r: nat)
    requires k <= 64
  {
    r < k && forall j :: k - r <= j < k ==> b[j] == 0
  }

  /** One nonzero coefficient after `r` zeros. */
  lemma RunDecodes(t: Table, d: Decoding, str: seq<Bit>, pos: nat, b: Block, k: nat, r: nat, items: seq<Item>)
    requires Paired(t, d) && 1 <= k < 64 && ZeroRun(b, k, r) && CodableAc(b) && b[k] != 0 && r <= 15
    requires items != [] && items[0] == RunItem(r, b[k]) && AllCoded(t, items) && At(str, pos, ItemsBits(t, items))
    ensures items[0].sym < 256 && |d.maxcode| == |d.valoffset| == 18 && pos + |ItemBits(t, items[0])| <= |str|
    ensures DecodeAc(d, str, pos, k - r, Known(b, k - r))
            == DecodeAc(d, str, pos + |ItemBits(t, items[0])|, k + 1, Known(b, k + 1))
    ensures AllCoded(t, items[1..]) && At(str, pos + |ItemBits(t, items[0])|, ItemsBits(t, items[1..]))
    ensures |ItemsBits(t, items)| == |ItemBits(t, items[0])| + |ItemsBits(t, items[1..])|
  {
    hide Paired, Pow2, DecodeSymbol, Receive, Extend, Extra, ItemBits, ItemsBits, AllCoded, At, RunItem;
    RunSays(r, b[k]);
    FirstItem(t, d, str, pos, items);
    assert Known(b, k - r)[k := b[k]] == Known(b, k + 1);
  }

  /** A code for sixteen zeros. */
  lemma ZrlDecodes(t: Table, d: Decoding, str: seq<Bit>, pos: nat, b: Block, k: nat, r: nat, items: seq<Item>)
    requires Paired(t, d) && 1 <= k < 64 && ZeroRun(b, k, r) && r > 15
    requires items != [] && items[0] == ZRL && AllCoded(t, items) && At(str, pos, ItemsBits(t, items))
    ensures |d.maxcode| == |d.valoffset| == 18 && pos + |ItemBits(t, items[0])| <= |str|
    ensures DecodeAc(d, str, pos, k - r, Known(b, k - r))
            == DecodeAc(d, str, pos + |ItemBits(t, items[0])|, k - r + 16, Known(b, k - r + 16))
    ensures AllCoded(t, items[1..]) && At(str, pos + |ItemBits(t, items[0])|, ItemsBits(t, items[1..]))
    ensures |ItemsBits(t, items)| == |ItemBits(t, items[0])| + |ItemsBits(t, items[1..])|
  {
    hide Paired, Pow2, DecodeSymbol, Receive, ItemBits, ItemsBits, AllCoded, At;
    Pow2One();
    FirstItem(t, d, str, pos, items);
    assert Known(b, k - r) == Known(b, k - r + 16);
  }

  /** The end of the block, with or without an end-of-block code. */
  lemma EndDecodes(t: Table, d: Decoding, str: seq<Bit>, pos: nat, b: Block, r: nat, items: seq<Item>)
    requires Paired(t, d) && ZeroRun(b, 64, r) && items == (if r > 0 then [EOB] else [])
    requires AllCoded(t, items) && At(str, pos, ItemsBits(t, items))
    ensures |d.maxcode| == |d.valoffset| == 18 && pos <= |str|
    ensures DecodeAc(d, str, pos, 64 - r, Known(b, 64 - r)) == Decoded(b, pos + |ItemsBits(t, items)|)
  {
    hide Paired, Pow2, DecodeSymbol, Receive, ItemBits;
    PairedShape(t, d);
    assert Known(b, 64 - r) == b;
    if r > 0 {
      LastItem(t, d, str, pos, items);
    }
  }

  /** Section F.2.2.2 inverts section F.1.2.2. */
  lemma {:induction false} AcDecodes(t: Table, d: Decoding, str: seq<Bit>, pos: nat, b: Block, k: nat, r: nat,
                                     items: seq<Item>)
    requires Paired(t, d) && 1 <= k <= 64 && ZeroRun(b, k, r) && CodableAc(b)
    requires items == AcItems(b, k, r) && AllCoded(t, items) && At(str, pos, ItemsBits(t, items))
    ensures |d.maxcode| == |d.valoffset| == 18 && pos <= |str|
    ensures DecodeAc(d, str, pos, k - r, Known(b, k - r)) == Decoded(b, pos + |ItemsBits(t, items)|)
    decreases 64 - k, r
  {
    hide Paired, Pow2, DecodeAc, ItemBits, ItemsBits, At, RunItem, CodableAc, AllCoded, Known;
    PairedShape(t, d);
    if k == 64 {
      EndDecodes(t, d, str, pos, b, r, items);
    } else if b[k] == 0 {
      AcDecodes(t, d, str, pos, b, k + 1, r + 1, items);
    } else if r > 15 {
      ZrlDecodes(t, d, str, pos, b, k, r, items);
      AcDecodes(t, d, str, pos + |ItemBits(t, items[0])|, b, k, r - 16, items[1..]);
    } else {
      RunDecodes(t, d, str, pos, b, k, r, items);
      AcDecodes(t, d, str, pos + |ItemBits(t, items[0])|, b, k + 1, 0, items[1..]);
    }
  }

  lemma FirstItem(t: Table, d: Decoding, str: seq<Bit>, pos: nat, items: seq<Item>)
    requires Paired(t, d) && items != [] && AllCoded(t, items) && At(str, pos, ItemsBits(t, items))
    requires items[0].extra < Pow2(items[0].n)
    ensures |d.maxcode| == |d.valoffset| == 18 && pos <= |str|
    ensures items[0].sym < 256 && AllCoded(t, items[1..])
    ensures var i := items[0];
            && DecodeSymbol(d, str, pos) == Decoded(i.sym, pos + t.si[i.sym])
            && |ItemBits(t, i)| == t.si[i.sym] + i.n && pos + t.si[i.sym] + i.n <= |str|
            && Receive(str, pos + t.si[i.sym], i.n) == i.extra
            && ItemsBits(t, items) == ItemBits(t, i) + ItemsBits(t, items[1..])
            && At(str, pos + |ItemBits(t, i)|, ItemsBits(t, items[1..]))
  {
    hide Paired, Pow2, DecodeSymbol, Receive, ItemBits;
    AtSplit(str, pos, ItemBits(t, items[0]), ItemsBits(t, items[1..]));
    ItemDecodes(t, d, str, pos, items[0]);
  }

  lemma LastItem(t: Table, d: Decoding, str: seq<Bit>, pos: nat, items: seq<Item>)
    requires Paired(t, d) && items == [EOB] && AllCoded(t, items) && At(str, pos, ItemsBits(t, items))
    ensures |d.maxcode| == |d.valoffset| == 18 && pos <= |str|
    ensures DecodeSymbol(d, str, pos) == Decoded(0, pos + |ItemsBits(t, items)|)
  {
    hide Paired, Pow2, DecodeSymbol, ItemBits;
    Pow2One();
    FirstItem(t, d, str, pos, items);
    assert items[1..] == [];
  }

  /** The extra bits number the values of one size from zero on, in order. */
  lemma ExtraOrders(u: int, v: int)
    requires u != 0 && v != 0 && Nbits(Abs(u)) == Nbits(Abs(v))
    ensures 0 <= Extra(v) < Pow2(Nbits(Abs(v)))
    ensures Extra(u) < Extra(v) <==> u < v
  {
    hide Pow2, Nbits;
    ExtendExtra(v);
    NbitsBounds(Abs(u));
    NbitsBounds(Abs(v));
    Pow2Step(Nbits(Abs(v)) - 1);
  }

  /** How many coefficients the symbols account for: the run in the high half and one more. */
  function Span(items: seq<Item>): nat {
    if items == [] then 0
    else
      QuotientNonneg(items[0].sym, 16);
      (if items[0].sym == 0 then 0 else items[0].sym / 16 + 1) + Span(items[1..])
  }

  /** The values behind the symbols, of the size in the low half. */
  function Values(items: seq<Item>): seq<int> {
    if items == [] then []
    else if items[0].sym % 16 == 0 then Values(items[1..])
    else [Extend(items[0].extra, items[0].sym % 16)] + Values(items[1..])
  }

  function Nonzeros(b: Block, k: nat): seq<int>
    requires k <= 64
    decreases 64 - k
  {
    if k == 64 then [] else if b[k] == 0 then Nonzeros(b, k + 1) else [b[k]] + Nonzeros(b, k + 1)
  }

  /** The index behind the last nonzero coefficient from `k` on, or `k`. */
  function Used(b: Block, k: nat): (e: nat)
    requires k <= 64
    ensures k <= e <= 64 && (forall j :: e <= j < 64 ==> b[j] == 0) && (e > k ==> b[e - 1] != 0)
    decreases 64 - k
  {
    if k == 64 then 64
    else
      var e := Used(b, k + 1);
      if e == k + 1 && b[k] == 0 then k else e
  }

  /** Section F.1.2.2: the symbols lead to the last nonzero coefficient. */
  lemma {:induction false} AcSpan(b: Block, k: nat, r: nat)
    requires 0 < k <= 64 && CodableAc(b)
    ensures Span(AcItems(b, k, r)) == if Used(b, k) > k then Used(b, k) - k + r else 0
    decreases 64 - k, r
  {
    hide Extend, Span, RunItem, CodableAc;
    NoSymbols();
    if k == 64 {
      MoreSpan(EOB, []);
      assert [EOB] + [] == [EOB];
    } else if b[k] == 0 {
      AcSpan(b, k + 1, r + 1);
    } else if r > 15 {
      AcSpan(b, k, r - 16);
      MoreSpan(ZRL, AcItems(b, k, r - 16));
    } else {
      AcSpan(b, k + 1, 0);
      ItemSays(b, k, r);
      MoreSpan(RunItem(r, b[k]), AcItems(b, k + 1, 0));
    }
  }

  /** Their values are the nonzero coefficients in order. */
  lemma {:induction false} AcValues(b: Block, k: nat, r: nat)
    requires 0 < k <= 64 && CodableAc(b)
    ensures Values(AcItems(b, k, r)) == Nonzeros(b, k)
    decreases 64 - k, r
  {
    hide Extend, Values, RunItem, CodableAc;
    NoSymbols();
    if k == 64 {
      MoreValues(EOB, []);
      assert [EOB] + [] == [EOB];
    } else if b[k] == 0 {
      AcValues(b, k + 1, r + 1);
    } else if r > 15 {
      AcValues(b, k, r - 16);
      MoreValues(ZRL, AcItems(b, k, r - 16));
    } else {
      AcValues(b, k + 1, 0);
      ItemSays(b, k, r);
      MoreValues(RunItem(r, b[k]), AcItems(b, k + 1, 0));
    }
  }

  predicate EndsInEob(items: seq<Item>) {
    items != [] && items[|items| - 1] == EOB
  }

  /** An EOB comes behind them exactly if zeroes do. */
  lemma {:induction false} AcEnds(b: Block, k: nat, r: nat)
    requires 0 < k <= 64 && CodableAc(b)
    ensures EndsInEob(AcItems(b, k, r)) <==> Used(b, k) < 64 || (k == 64 && r > 0)
    decreases 64 - k, r
  {
    hide RunItem, CodableAc, EndsInEob;
    OnlyEob();
    if k < 64 {
      if b[k] == 0 {
        AcEnds(b, k + 1, r + 1);
      } else if r > 15 {
        AcEnds(b, k, r - 16);
        SameEnd(ZRL, AcItems(b, k, r - 16));
      } else {
        AcEnds(b, k + 1, 0);
        ItemSays(b, k, r);
        SameEnd(RunItem(r, b[k]), AcItems(b, k + 1, 0));
      }
    }
  }

  lemma OnlyEob()
    ensures EndsInEob([EOB]) && !EndsInEob([])
  {
  }

  lemma SameEnd(i: Item, items: seq<Item>)
    requires i != EOB
    ensures EndsInEob([i] + items) <==> EndsInEob(items)
  {
  }

  lemma NoSymbols()
    ensures Span([]) == 0 && Values([]) == []
  {
  }

  lemma MoreSpan(i: Item, items: seq<Item>)
    ensures Span([i] + items) == (if i.sym == 0 then 0 else i.sym / 16 + 1) + Span(items)
  {
    assert ([i] + items)[1..] == items;
  }

  lemma MoreValues(i: Item, items: seq<Item>)
    ensures Values([i] + items)
            == if i.sym % 16 == 0 then Values(items) else [Extend(i.extra, i.sym % 16)] + Values(items)
  {
    assert ([i] + items)[1..] == items;
  }

  /** The item of a coefficient. */
  lemma ItemSays(b: Block, k: nat, r: nat)
    requires 0 < k < 64 && CodableAc(b) && b[k] != 0 && r <= 15
    ensures var i := RunItem(r, b[k]);
            i != EOB && i.sym != 0 && i.sym / 16 == r && i.sym % 16 > 0 && Extend(i.extra, i.sym % 16) == b[k]
  {
    hide RunItem;
    RunSays(r, b[k]);
  }

  lemma RunSays(r: nat, v: int)
    requires r <= 15 && v != 0 && -0x8000 < v < 0x8000
    ensures var i := RunItem(r, v);
            i.sym / 16 == r && i.sym % 16 == i.n > 0 && Extend(i.extra, i.n) == v && i.extra < Pow2(i.n) && i.sym < 256
  {
    hide Pow2;
    Pow2Values();
    NbitsAtMost(Abs(v), 15);
    ExtendExtra(v);
  }
}
