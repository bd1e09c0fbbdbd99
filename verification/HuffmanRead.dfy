/** Decoding a Huffman-coded scan (`decode_mcu_slow` in `jdhuff.c`), segment by segment. */
module HuffmanRead {
  import opened Numbers
  import opened ByteStuffing
  import opened ArithModel
  import opened DerivedTable
  import opened HuffmanBits
  import opened HuffmanBlock
  import opened HuffmanWriter
  import opened HuffmanScan

  datatype Decodings = Decodings(dc: seq<Decoding>, ac: seq<Decoding>)

  ghost predicate TablesPaired(l: Assignment, t: Tables, d: Decodings) {
    && GoodAssignment(l) && |t.dc| == |t.ac| == |d.dc| == |d.ac| == 4
    && forall ci :: 0 <= ci < |l.dcTbl| ==>
         Paired(t.dc[l.dcTbl[ci]], d.dc[l.dcTbl[ci]]) && Paired(t.ac[l.acTbl[ci]], d.ac[l.acTbl[ci]])
  }

  predicate UsableTable(d: Decoding) {
    |d.maxcode| == |d.valoffset| == 18
  }

  /** One block, into a cleared output block. */
  function DecodeBlock(dc: Decoding, ac: Decoding, bits: seq<Bit>, pos: nat, last: int): (r: Decoded<Block>)
    requires pos <= |bits|
    ensures r.Decoded? ==> r.pos <= |bits|
  {
    if !UsableTable(dc) || !UsableTable(ac) then Failed
    else
      var diff := DecodeDc(dc, bits, pos);
      if diff.Failed? then Failed
      else DecodeAc(ac, bits, diff.pos, 1, seq(64, j => if j == 0 then last + diff.value else 0))
  }

  lemma BlockDecodes(t: Table, u: Table, dc: Decoding, ac: Decoding, bits: seq<Bit>, pos: nat, b: Block, last: int)
    requires Paired(t, dc) && Paired(u, ac) && CodableAc(b)
    requires Coded(t, DcItem(b[0] - last)) && AllCoded(u, AcItems(b, 1, 0))
    requires At(bits, pos, BlockBits(t, u, b, b[0] - last))
    ensures pos <= |bits|
    ensures DecodeBlock(dc, ac, bits, pos, last) == Decoded(b, pos + |BlockBits(t, u, b, b[0] - last)|)
  {
    hide Paired, ItemBits, ItemsBits, AcItems, DecodeAc, DecodeDc, Pow2, DcItem, AllCoded, CodableAc;
    var x, y := ItemBits(t, DcItem(b[0] - last)), ItemsBits(u, AcItems(b, 1, 0));
    AtSplit(bits, pos, x, y);
    DcDecodes(t, dc, bits, pos, b[0] - last);
    AcDecodes(u, ac, bits, pos + |x|, b, 1, 0, AcItems(b, 1, 0));
    assert Known(b, 1) == seq(64, j => if j == 0 then last + (b[0] - last) else 0);
  }

  /** Blocks or MCUs read so far, and the DC values they leave. */
  datatype Sofar<T> = Sofar(got: seq<T>, last: seq<int>)

  /** The first `i` blocks of an MCU. */
  function DecodeMcu(l: Assignment, d: Decodings, bits: seq<Bit>, pos: nat, last: seq<int>, i: nat)
    : (r: Decoded<Sofar<Block>>)
    requires GoodAssignment(l) && |last| == |l.dcTbl| && i <= |l.membership| && |d.dc| == |d.ac| == 4 && pos <= |bits|
    ensures r.Decoded? ==> r.pos <= |bits| && |r.value.last| == |last|
  {
    if i == 0 then Decoded(Sofar([], last), pos)
    else
      var r := DecodeMcu(l, d, bits, pos, last, i - 1);
      if r.Failed? then Failed
      else
        var ci := l.membership[i - 1];
        var b := DecodeBlock(d.dc[l.dcTbl[ci]], d.ac[l.acTbl[ci]], bits, r.pos, r.value.last[ci]);
        if b.Failed? then Failed
        else Decoded(Sofar(r.value.got + [b.value], r.value.last[ci := b.value[0]]), b.pos)
  }

  lemma {:induction false} McuDecodes(l: Assignment, t: Tables, d: Decodings, bits: seq<Bit>, pos: nat, last: seq<int>,
                                      mcu: Mcu, i: nat)
    requires TablesPaired(l, t, d) && |last| == |l.dcTbl| && i <= |mcu| == |l.membership|
    requires McuCoded(l, t, last, mcu) && At(bits, pos, McuBits(l, t, last, mcu, i))
    ensures pos <= |bits|
    ensures DecodeMcu(l, d, bits, pos, last, i)
            == Decoded(Sofar(mcu[..i], LastTo(l, last, mcu, i)), pos + |McuBits(l, t, last, mcu, i)|)
  {
    hide Paired, BlockBits, DecodeBlock, BlockCoded, BlockDiff;
    if i > 0 {
      var ci := l.membership[i - 1];
      var x := BlockBits(t.dc[l.dcTbl[ci]], t.ac[l.acTbl[ci]], mcu[i - 1], BlockDiff(l, last, mcu, i - 1));
      AtSplit(bits, pos, McuBits(l, t, last, mcu, i - 1), x);
      McuDecodes(l, t, d, bits, pos, last, mcu, i - 1);
      BlockAtDecodes(l, t, d, bits, pos + |McuBits(l, t, last, mcu, i - 1)|, last, mcu, i - 1);
      assert mcu[..i] == mcu[..i - 1] + [mcu[i - 1]];
    }
  }

  lemma BlockAtDecodes(l: Assignment, t: Tables, d: Decodings, bits: seq<Bit>, pos: nat, last: seq<int>, mcu: Mcu,
                       i: nat)
    requires TablesPaired(l, t, d) && |last| == |l.dcTbl| && i < |mcu| == |l.membership|
    requires BlockCoded(l, t, last, mcu, i)
    requires var ci := l.membership[i];
             At(bits, pos, BlockBits(t.dc[l.dcTbl[ci]], t.ac[l.acTbl[ci]], mcu[i], BlockDiff(l, last, mcu, i)))
    ensures pos <= |bits|
    ensures var ci := l.membership[i];
            DecodeBlock(d.dc[l.dcTbl[ci]], d.ac[l.acTbl[ci]], bits, pos, LastTo(l, last, mcu, i)[ci])
            == Decoded(mcu[i], pos + |BlockBits(t.dc[l.dcTbl[ci]], t.ac[l.acTbl[ci]], mcu[i],
                                                BlockDiff(l, last, mcu, i))|)
  {
    hide Paired, BlockBits, DecodeBlock, CodableAc, Coded, AllCoded, AcItems, LastTo;
    var ci := l.membership[i];
    BlockDecodes(t.dc[l.dcTbl[ci]], t.ac[l.acTbl[ci]], d.dc[l.dcTbl[ci]], d.ac[l.acTbl[ci]], bits, pos, mcu[i],
                 LastTo(l, last, mcu, i)[ci]);
  }

  /** `n` MCUs, from DC values of zero. */
  function DecodeMcus(l: Assignment, d: Decodings, bits: seq<Bit>, n: nat): (r: Decoded<Sofar<Mcu>>)
    requires GoodAssignment(l) && |d.dc| == |d.ac| == 4
    ensures r.Decoded? ==> r.pos <= |bits| && |r.value.last| == |l.dcTbl|
  {
    if n == 0 then Decoded(Sofar([], Zeros(l)), 0)
    else
      var r := DecodeMcus(l, d, bits, n - 1);
      if r.Failed? then Failed
      else
        var m := DecodeMcu(l, d, bits, r.pos, r.value.last, |l.membership|);
        if m.Failed? then Failed
        else Decoded(Sofar(r.value.got + [m.value.got], m.value.last), m.pos)
  }

  /** Every symbol of MCUs up to `n` has a code. */
  ghost predicate ScanCoded(l: Assignment, t: Tables, interval: nat, scan: seq<Mcu>) {
    && GoodScan(l, scan) && |t.dc| == |t.ac| == 4
    && forall n :: 0 <= n < |scan| ==> McuCoded(l, t, DcBefore(l, interval, scan, n), scan[n])
  }

  lemma {:induction false} SegmentDecodesTo(l: Assignment, t: Tables, d: Decodings, interval: nat, scan: seq<Mcu>,
                                            bits: seq<Bit>, m: nat, n: nat)
    requires TablesPaired(l, t, d) && ScanCoded(l, t, interval, scan) && m <= n <= |scan|
    requires (m == 0 || Restarts(interval, m)) && (forall k :: m < k < n ==> !Restarts(interval, k))
    requires At(bits, 0, SegmentBits(l, t, interval, scan, m, n))
    ensures DecodeMcus(l, d, bits, n - m)
            == Decoded(Sofar(scan[m..n], if n == m then Zeros(l) else DcLeft(l, interval, scan, n)),
                       |SegmentBits(l, t, interval, scan, m, n)|)
    decreases n
  {
    hide TablesPaired, McuBits, McuCoded, DecodeMcu, Restarts;
    PairedLayout(l, t, d);
    if n > m {
      var last := DcBefore(l, interval, scan, n - 1);
      AtSplit(bits, 0, SegmentBits(l, t, interval, scan, m, n - 1), McuBits(l, t, last, scan[n - 1], |l.membership|));
      SegmentDecodesTo(l, t, d, interval, scan, bits, m, n - 1);
      BeforeInSegment(l, interval, scan, m, n - 1);
      var pos := |SegmentBits(l, t, interval, scan, m, n - 1)|;
      McuDecodes(l, t, d, bits, pos, last, scan[n - 1], |l.membership|);
      assert scan[n - 1][..|l.membership|] == scan[n - 1];
      assert scan[m..n] == scan[m..n - 1] + [scan[n - 1]];
    }
  }

  lemma PaddedHolds(raw: seq<Byte>, bits: seq<Bit>)
    requires Padded(raw, bits)
    ensures At(BytesBits(raw), 0, bits) && |BytesBits(raw)| - |bits| < 8
  {
  }

  lemma PairedLayout(l: Assignment, t: Tables, d: Decodings)
    requires TablesPaired(l, t, d)
    ensures GoodAssignment(l) && |d.dc| == |d.ac| == 4
  {
  }

  lemma BeforeInSegment(l: Assignment, interval: nat, scan: seq<Mcu>, m: nat, n: nat)
    requires GoodScan(l, scan) && m <= n <= |scan| && (m == 0 || Restarts(interval, m))
    requires (n > m ==> !Restarts(interval, n))
    ensures DcBefore(l, interval, scan, n) == if n == m then Zeros(l) else DcLeft(l, interval, scan, n)
  {
  }

  /** Reading a finished segment: remove the stuffing, then decode as many MCUs as it holds. */
  lemma SegmentDecodes(l: Assignment, t: Tables, d: Decodings, interval: nat, scan: seq<Mcu>, s: Segment,
                       rest: seq<Byte>)
    requires TablesPaired(l, t, d) && ScanCoded(l, t, interval, scan) && GoodSegment(l, t, interval, scan, s)
    requires rest == [] || (|rest| >= 2 && rest[0] == 0xFF && rest[1] != 0)
    ensures GoodAssignment(l) && |d.dc| == |d.ac| == 4
    ensures var r := DecodeMcus(l, d, BytesBits(Unstuff(Stuff(s.raw) + rest)), s.end - s.first);
            r.Decoded? && r.value.got == scan[s.first..s.end] && |BytesBits(s.raw)| - r.pos < 8
    ensures NoMarkers(Stuff(s.raw))
  {
    hide TablesPaired, ScanCoded, SegmentBits, BytesBits, Restarts, Stuff, StuffTo, Unstuff, DecodeMcus, Padded, At,
         NoMarkers;
    PairedLayout(l, t, d);
    UnstuffStuff(s.raw, rest);
    StuffedHasNoMarkers(s.raw, |s.raw|);
    PaddedHolds(s.raw, SegmentBits(l, t, interval, scan, s.first, s.end));
    SegmentDecodesTo(l, t, d, interval, scan, BytesBits(s.raw), s.first, s.end);
    WholeStuffed(s.raw);
  }

  lemma WholeStuffed(raw: seq<Byte>)
    ensures Stuff(raw) == StuffTo(raw, |raw|)
  {
  }
}
