/** Rectangle decoders of `VncCanvas.java`: gradient-filtered and two-colour data, and the tiling of hextile. */
module VncCanvas {
  import opened Numbers

  /** Index of the pixel in row `r` and column `c` of a framebuffer `fw` pixels wide. */
  function At(fw: nat, r: nat, c: nat): nat {
    r * fw + c
  }

  lemma AtInjective(fw: nat, r: nat, c: nat, r': nat, c': nat)
    requires c < fw && c' < fw && At(fw, r, c) == At(fw, r', c')
    ensures r == r' && c == c'
  {
    DivUnique(At(fw, r, c), fw, r, c);
    DivUnique(At(fw, r, c), fw, r', c');
  }

  lemma AtInside(fw: nat, fh: nat, r: nat, c: nat)
    requires r < fh && c < fw
    ensures At(fw, r, c) < fw * fh
  {
    MulCompare(r + 1, fh, fw);
    Split(r, 1, fw);
  }

  lemma AtNext(fw: nat, r: nat, c: nat)
    ensures At(fw, r, c + 1) == At(fw, r, c) + 1 && At(fw, r + 1, c) == At(fw, r, c) + fw
  {
  }

  /** A rectangle inside a framebuffer. */
  datatype Rect = Rect(x: nat, y: nat, w: nat, h: nat)

  ghost predicate Fits(fw: nat, fh: nat, rc: Rect) {
    rc.x + rc.w <= fw && rc.y + rc.h <= fh
  }

  /** The first `dy` rows of the rectangle and `dx` pixels of the next show `want`; all other pixels are as before. */
  ghost predicate Painted<T>(p: seq<T>, before: seq<T>, fw: nat, fh: nat, rc: Rect, dy: nat, dx: nat,
                             want: (nat, nat) -> T)
  {
    && |p| == |before| == fw * fh
    && forall r, c :: 0 <= r < fh && 0 <= c < fw ==> PixelIs(p, before, fw, rc, dy, dx, want, r, c)
  }

  ghost predicate PixelIs<T>(p: seq<T>, before: seq<T>, fw: nat, rc: Rect, dy: nat, dx: nat, want: (nat, nat) -> T,
                             r: nat, c: nat)
  {
    var i := At(fw, r, c);
    && i < |p| == |before|
    && p[i] == if rc.x <= c < rc.x + rc.w && rc.y <= r && (r < rc.y + dy || (r == rc.y + dy && c < rc.x + dx))
               then want(r - rc.y, c - rc.x) else before[i]
  }

  lemma PaintNone<T>(p: seq<T>, fw: nat, fh: nat, rc: Rect, want: (nat, nat) -> T)
    requires |p| == fw * fh && Fits(fw, fh, rc)
    ensures Painted(p, p, fw, fh, rc, 0, 0, want)
  {
    hide At;
    forall r, c | 0 <= r < fh && 0 <= c < fw
      ensures PixelIs(p, p, fw, rc, 0, 0, want, r, c)
    {
      AtInside(fw, fh, r, c);
    }
  }

  lemma PaintOne<T>(p: seq<T>, before: seq<T>, fw: nat, fh: nat, rc: Rect, dy: nat, dx: nat, want: (nat, nat) -> T)
    requires Painted(p, before, fw, fh, rc, dy, dx, want) && Fits(fw, fh, rc) && dy < rc.h && dx < rc.w
    ensures At(fw, rc.y + dy, rc.x + dx) < |p|
    ensures Painted(p[At(fw, rc.y + dy, rc.x + dx) := want(dy, dx)], before, fw, fh, rc, dy, dx + 1, want)
  {
    hide At, PixelIs;
    AtInside(fw, fh, rc.y + dy, rc.x + dx);
    var q, next := p[At(fw, rc.y + dy, rc.x + dx) := want(dy, dx)], dx + 1;
    forall r, c | 0 <= r < fh && 0 <= c < fw
      ensures PixelIs(q, before, fw, rc, dy, next, want, r, c)
    {
      assert PixelIs(p, before, fw, rc, dy, dx, want, r, c);
      OnePixel(p, before, fw, rc, dy, dx, want, r, c);
    }
  }

  lemma OnePixel<T>(p: seq<T>, before: seq<T>, fw: nat, rc: Rect, dy: nat, dx: nat, want: (nat, nat) -> T, r: nat,
                    c: nat)
    requires PixelIs(p, before, fw, rc, dy, dx, want, r, c) && c < fw && rc.x + rc.w <= fw && dx < rc.w
    requires At(fw, rc.y + dy, rc.x + dx) < |p|
    ensures PixelIs(p[At(fw, rc.y + dy, rc.x + dx) := want(dy, dx)], before, fw, rc, dy, dx + 1, want, r, c)
  {
    hide At;
    if At(fw, rc.y + dy, rc.x + dx) == At(fw, r, c) {
      AtInjective(fw, r, c, rc.y + dy, rc.x + dx);
    }
  }

  lemma PaintRow<T>(p: seq<T>, before: seq<T>, fw: nat, fh: nat, rc: Rect, dy: nat, want: (nat, nat) -> T)
    requires Painted(p, before, fw, fh, rc, dy, rc.w, want)
    ensures Painted(p, before, fw, fh, rc, dy + 1, 0, want)
  {
    hide At;
    var next := dy + 1;
    forall r, c | 0 <= r < fh && 0 <= c < fw
      ensures PixelIs(p, before, fw, rc, next, 0, want, r, c)
    {
      assert PixelIs(p, before, fw, rc, dy, rc.w, want, r, c);
    }
  }

  function Clamp(v: int): Byte {
    if v > 0xFF then 0xFF else if v < 0 then 0 else v
  }

  /** The byte nearest to a number; no other is as near. */
  lemma ClampIsNearest(v: int, b: Byte)
    ensures var near, other := Clamp(v) - v, b - v;
            (if near < 0 then -near else near) <= (if other < 0 then -other else other)
            && ((if near < 0 then -near else near) == (if other < 0 then -other else other) ==> b == Clamp(v))
  {
  }

  /** A picture of `w` columns: one byte for each of three colours. */
  type Picture = (nat, nat, nat) -> Byte

  /** The gradient prediction from the left, upper and upper left neighbours; 0 outside. */
  function Predicted(pic: Picture, dy: nat, dx: nat, c: nat): Byte {
    Clamp((if dy > 0 then pic(dy - 1, dx, c) as int else 0) + (if dx > 0 then pic(dy, dx - 1, c) as int else 0)
          - (if dy > 0 && dx > 0 then pic(dy - 1, dx - 1, c) as int else 0))
  }

  /** The gradient filter: what a server sends for a pixel. */
  function Filtered(pic: Picture, dy: nat, dx: nat, c: nat): Byte {
    (pic(dy, dx, c) - Predicted(pic, dy, dx, c)) % 256
  }

  /** Where a colour changes evenly, to the right and downward, nothing is left to send; nor is where it goes on as it
      did, along the first row or column. */
  lemma EvenGradient(pic: Picture, dy: nat, dx: nat, c: nat)
    requires var left := if dx > 0 then pic(dy, dx - 1, c) as int else 0;
             var up := if dy > 0 then pic(dy - 1, dx, c) as int else 0;
             var corner := if dy > 0 && dx > 0 then pic(dy - 1, dx - 1, c) as int else 0;
             pic(dy, dx, c) as int - left == up - corner
    ensures Filtered(pic, dy, dx, c) == 0
  {
  }

  /** The pixel that received data stand for. */
  function Decoded(buf: seq<Byte>, w: nat, dy: nat, dx: nat, c: nat): Byte
    decreases dy, dx
  {
    var up: int := if dy > 0 then Decoded(buf, w, dy - 1, dx, c) else 0;
    var left: int := if dx > 0 then Decoded(buf, w, dy, dx - 1, c) else 0;
    var upLeft: int := if dy > 0 && dx > 0 then Decoded(buf, w, dy - 1, dx - 1, c) else 0;
    var i := (dy * w + dx) * 3 + c;
    var d: int := if 0 <= i < |buf| then buf[i] else 0;
    (Clamp(left + up - upLeft) + d) % 256
  }

  lemma DecodedIs(buf: seq<Byte>, w: nat, dy: nat, dx: nat, c: nat)
    requires 0 <= (dy * w + dx) * 3 + c < |buf|
    ensures var up: int := if dy > 0 then Decoded(buf, w, dy - 1, dx, c) else 0;
            var left: int := if dx > 0 then Decoded(buf, w, dy, dx - 1, c) else 0;
            var upLeft: int := if dy > 0 && dx > 0 then Decoded(buf, w, dy - 1, dx - 1, c) else 0;
            Decoded(buf, w, dy, dx, c) == (Clamp(left + up - upLeft) + buf[(dy * w + dx) * 3 + c] as int) % 256
  {
  }

  /** Decoding inverts the filter, for every picture. */
  lemma {:induction false} GradientInverse(pic: Picture, buf: seq<Byte>, w: nat, h: nat, dy: nat, dx: nat, c: nat)
    requires dy < h && dx < w && c < 3 && |buf| == w * h * 3
    requires forall r, x, k :: 0 <= r < h && 0 <= x < w && 0 <= k < 3 ==> SentAs(pic, buf, w, r, x, k)
    ensures Decoded(buf, w, dy, dx, c) == pic(dy, dx, c)
    decreases dy, dx
  {
    hide Decoded, Clamp;
    if dy > 0 {
      GradientInverse(pic, buf, w, h, dy - 1, dx, c);
    }
    if dx > 0 {
      GradientInverse(pic, buf, w, h, dy, dx - 1, c);
    }
    if dy > 0 && dx > 0 {
      GradientInverse(pic, buf, w, h, dy - 1, dx - 1, c);
    }
    assert SentAs(pic, buf, w, dy, dx, c);
    DecodedIs(buf, w, dy, dx, c);
    AddBack(pic(dy, dx, c), Predicted(pic, dy, dx, c));
  }

  ghost predicate SentAs(pic: Picture, buf: seq<Byte>, w: nat, dy: nat, dx: nat, c: nat) {
    var i := (dy * w + dx) * 3 + c;
    i < |buf| && buf[i] == Filtered(pic, dy, dx, c)
  }

  lemma AddBack(v: Byte, p: Byte)
    ensures (p as int + (v as int - p as int) % 256) % 256 == v
  {
  }

  /** And the filter inverts decoding: no two data describe the same picture. */
  lemma DecodingInverse(buf: seq<Byte>, w: nat, dy: nat, dx: nat, c: nat)
    requires (dy * w + dx) * 3 + c < |buf|
    ensures (dy * w + dx) * 3 + c >= 0
    ensures Filtered((r, x, k) => Decoded(buf, w, r, x, k), dy, dx, c) == buf[(dy * w + dx) * 3 + c]
  {
    var pic: Picture := (r, x, k) => Decoded(buf, w, r, x, k);
    var i := (dy * w + dx) * 3 + c;
    var p := Predicted(pic, dy, dx, c);
    assert Decoded(buf, w, dy, dx, c) == (p as int + buf[i] as int) % 256;
    TakeAway(buf[i], p);
  }

  lemma TakeAway(d: Byte, p: Byte)
    ensures ((p as int + d as int) % 256 - p as int) % 256 == d
  {
  }

  /** Three colours in one int. */
  function Rgb(r: Byte, g: Byte, b: Byte): int {
    r as int * 0x1_0000 + g as int * 0x100 + b as int
  }

  /** Red in the high byte, blue in the low one. */
  lemma RgbParts(r: Byte, g: Byte, b: Byte)
    ensures BytesVal([r, g, b]) == Rgb(r, g, b)
  {
    ThreeBytes(r, g, b);
  }

  function PixelOf(buf: seq<Byte>, w: nat): (nat, nat) -> int {
    (dy: nat, dx: nat) => Rgb(Decoded(buf, w, dy, dx, 0), Decoded(buf, w, dy, dx, 1), Decoded(buf, w, dy, dx, 2))
  }

  /** Colours `from` on of one row, three bytes for each pixel. */
  ghost predicate RowIs(row: array<Byte>, buf: seq<Byte>, w: nat, dy: int, n: nat)
    reads row
  {
    && row.Length == 3 * w && n <= row.Length
    && forall k :: 0 <= k < n ==> row[k] == if dy < 0 then 0 else Decoded(buf, w, dy, k / 3, k % 3)
  }

  class Canvas {
    const fw: nat
    const fh: nat
    const pixels24: array<int>
    const pixels8: array<Byte>

    ghost predicate Valid() {
      pixels24.Length == fw * fh && pixels8.Length == fw * fh
    }

    constructor (fw: nat, fh: nat)
      ensures Valid() && this.fw == fw && this.fh == fh
    {
      this.fw, this.fh := fw, fh;
      AreaNonneg(fw, fh);
      pixels24 := new int[fw * fh](_ => 0);
      pixels8 := new Byte[fw * fh](_ => 0);
    }

    /** One pixel of `decodeGradientData`: the three colours from their neighbours. */
    method GradientPixel(prevRow: array<Byte>, thisRow: array<Byte>, pix: array<Byte>, buf: array<Byte>, w: nat,
                         dy: nat, dx: nat)
      requires prevRow.Length == thisRow.Length == 3 * w && pix.Length == 3 && dx < w
      requires (dy * w + dx) * 3 + 3 <= buf.Length
      requires prevRow != thisRow && prevRow != pix && thisRow != pix && buf != prevRow && buf != thisRow && buf != pix
      requires RowIs(prevRow, buf[..], w, dy - 1, 3 * w) && RowIs(thisRow, buf[..], w, dy, 3 * dx)
      requires dx > 0 ==> forall c :: 0 <= c < 3 ==> pix[c] == Decoded(buf[..], w, dy, dx - 1, c)
      modifies thisRow, pix
      ensures RowIs(thisRow, buf[..], w, dy, 3 * dx + 3)
      ensures forall c :: 0 <= c < 3 ==> pix[c] == Decoded(buf[..], w, dy, dx, c)
    {
      hide Decoded;
      var c := 0;
      while c < 3
        invariant c <= 3 && RowIs(thisRow, buf[..], w, dy, 3 * dx + c)
        invariant forall k :: 0 <= k < c ==> pix[k] == Decoded(buf[..], w, dy, dx, k)
        invariant dx > 0 ==> forall k :: c <= k < 3 ==> pix[k] == Decoded(buf[..], w, dy, dx - 1, k)
      {
        Position(w, dy, dx, c);
        var v: Byte;
        if dx == 0 {
          v := (prevRow[c] as int + buf[dy * w * 3 + c] as int) % 256;
        } else {
          var est := prevRow[dx * 3 + c] as int + pix[c] as int - prevRow[(dx - 1) * 3 + c] as int;
          if est > 0xFF {
            est := 0xFF;
          } else if est < 0 {
            est := 0;
          }
          v := (est + buf[(dy * w + dx) * 3 + c] as int) % 256;
        }
        DecodedIs(buf[..], w, dy, dx, c);
        pix[c] := v;
        thisRow[dx * 3 + c] := v;
        c := c + 1;
      }
    }

    /** One row of `decodeGradientData`. */
    method GradientRow(prevRow: array<Byte>, thisRow: array<Byte>, pix: array<Byte>, buf: array<Byte>, rc: Rect,
                       dy: nat,
                       start: nat, ghost before: seq<int>, ghost want: (nat, nat) -> int)
      requires Valid() && Fits(fw, fh, rc) && rc.w > 0 && buf.Length == rc.w * rc.h * 3 && dy < rc.h
      requires prevRow.Length == thisRow.Length == 3 * rc.w && pix.Length == 3 && start == At(fw, rc.y + dy, rc.x)
      requires prevRow != thisRow && prevRow != pix && thisRow != pix && buf != prevRow && buf != thisRow && buf != pix
      requires want == PixelOf(buf[..], rc.w) && Painted(pixels24[..], before, fw, fh, rc, dy, 0, want)
      requires RowIs(prevRow, buf[..], rc.w, dy - 1, 3 * rc.w)
      modifies thisRow, pix, pixels24
      ensures Painted(pixels24[..], before, fw, fh, rc, dy, rc.w, want)
      ensures RowIs(thisRow, buf[..], rc.w, dy, 3 * rc.w)
    {
      hide Painted, RowIs, Decoded, At, PixelIs;
      ghost var data := buf[..];
      var w, offset := rc.w, start;
      RowEmpty(thisRow, data, w, dy);
      var dx := 0;
      while dx < w
        invariant dx <= w && buf[..] == data && offset == At(fw, rc.y + dy, rc.x + dx)
        invariant Painted(pixels24[..], before, fw, fh, rc, dy, dx, want)
        invariant RowIs(prevRow, data, w, dy - 1, 3 * w) && RowIs(thisRow, data, w, dy, 3 * dx)
        invariant dx > 0 ==> forall c :: 0 <= c < 3 ==> pix[c] == Decoded(data, w, dy, dx - 1, c)
      {
        DataInside(w, rc.h, dy, dx);
        GradientPixel(prevRow, thisRow, pix, buf, w, dy, dx);
        PaintOne(pixels24[..], before, fw, fh, rc, dy, dx, want);
        AtNext(fw, rc.y + dy, rc.x + dx);
        ghost var p := pixels24[..];
        pixels24[offset] := pix[0] as int * 0x1_0000 + pix[1] as int * 0x100 + pix[2] as int;
        assert pixels24[..] == p[offset := want(dy, dx)];
        offset := offset + 1;
        dx := dx + 1;
      }
    }

    /** `decodeGradientData`. */
    method DecodeGradientData(rc: Rect, buf: array<Byte>)
      requires Valid() && Fits(fw, fh, rc) && rc.w > 0 && buf.Length == rc.w * rc.h * 3
      modifies pixels24
      ensures Painted(pixels24[..], old(pixels24[..]), fw, fh, rc, rc.h, 0, PixelOf(buf[..], rc.w))
    {
      hide Painted, RowIs, Decoded, At, PixelIs, PixelOf;
      var w := rc.w;
      var prevRow := new Byte[w * 3](_ => 0);
      var thisRow := new Byte[w * 3](_ => 0);
      var pix := new Byte[3](_ => 0);
      ghost var data, before := buf[..], pixels24[..];
      ghost var want := PixelOf(data, w);
      var offset := At(fw, rc.y, rc.x);
      PaintNone(before, fw, fh, rc, want);
      RowAbove(prevRow, data, w);
      var dy := 0;
      while dy < rc.h
        invariant dy <= rc.h && buf[..] == data && offset == At(fw, rc.y + dy, rc.x)
        invariant prevRow.Length == thisRow.Length == 3 * w && pix.Length == 3
        invariant Painted(pixels24[..], before, fw, fh, rc, dy, 0, want) && RowIs(prevRow, data, w, dy - 1, 3 * w)
      {
        GradientRow(prevRow, thisRow, pix, buf, rc, dy, offset, before, want);
        PaintRow(pixels24[..], before, fw, fh, rc, dy, want);
        CopyRow(thisRow, prevRow, data, w, dy);
        AtNext(fw, rc.y + dy, rc.x);
        offset := offset + w;
        offset := offset + (fw - w);
        dy := dy + 1;
      }
    }

    /** "System.arraycopy(thisRow, 0, prevRow, 0, w * 3)" */
    static method CopyRow(thisRow: array<Byte>, prevRow: array<Byte>, ghost data: seq<Byte>, w: nat, dy: nat)
      requires thisRow != prevRow && prevRow.Length == 3 * w && RowIs(thisRow, data, w, dy, 3 * w)
      modifies prevRow
      ensures RowIs(prevRow, data, w, dy, 3 * w)
    {
      hide Decoded;
      forall k | 0 <= k < 3 * w {
        prevRow[k] := thisRow[k];
      }
    }

    /** `decodeMonoData`: `pixels` is pixels8 or pixels. The data hold one bit for each pixel, rows padded to whole
        bytes. */
    method DecodeMonoData<T>(pixels: array<T>, rc: Rect, src: array<Byte>, palette: array<T>)
      requires pixels.Length == fw * fh && Fits(fw, fh, rc) && src.Length >= rc.h * ((rc.w + 7) / 8)
      requires palette.Length >= 2
      requires palette != pixels && src as object != pixels
      modifies pixels
      ensures src[..] == old(src[..])
      ensures Painted(pixels[..], old(pixels[..]), fw, fh, rc, rc.h, 0,
                      MonoPixel(src[..], rc.w, palette[0], palette[1]))
    {
      hide Painted, At, PixelIs;
      var w, rowBytes := rc.w, (rc.w + 7) / 8;
      ghost var data, before := src[..], pixels[..];
      ghost var want := MonoPixel(data, w, palette[0], palette[1]);
      var i := At(fw, rc.y, rc.x);
      PaintNone(before, fw, fh, rc, want);
      var dy := 0;
      while dy < rc.h
        invariant dy <= rc.h && src[..] == data && i == At(fw, rc.y + dy, rc.x) && palette[0] == old(palette[0])
        invariant palette[1] == old(palette[1])
        invariant Painted(pixels[..], before, fw, fh, rc, dy, 0, want)
      {
        var dx := 0;
        while dx < w / 8
          invariant dx <= w / 8 && src[..] == data && i == At(fw, rc.y + dy, rc.x + 8 * dx)
          invariant palette[0] == old(palette[0]) && palette[1] == old(palette[1])
          invariant Painted(pixels[..], before, fw, fh, rc, dy, 8 * dx, want)
        {
          i := MonoBits(pixels, rc, src, palette, before, dy, dx, 8, i);
          dx := dx + 1;
        }
        if w % 8 > 0 {
          i := MonoBits(pixels, rc, src, palette, before, dy, dx, w % 8, i);
        }
        PaintRow(pixels[..], before, fw, fh, rc, dy, want);
        AtNext(fw, rc.y + dy, rc.x);
        AtOver(fw, rc.y + dy, rc.x, w);
        i := i + (fw - w);
        dy := dy + 1;
      }
    }

    /** The highest `n` bits of source byte `dx` of row `dy`. */
    method MonoBits<T>(pixels: array<T>, rc: Rect, src: array<Byte>, palette: array<T>, ghost before: seq<T>, dy: nat,
                       dx: nat, n: nat, i0: nat)
      returns (i: nat)
      requires pixels.Length == fw * fh && Fits(fw, fh, rc) && src.Length >= rc.h * ((rc.w + 7) / 8)
      requires palette.Length >= 2
      requires palette != pixels && src as object != pixels
      requires dy < rc.h && n <= 8 && 8 * dx + n <= rc.w && i0 == At(fw, rc.y + dy, rc.x + 8 * dx) && n > 0
      requires Painted(pixels[..], before, fw, fh, rc, dy, 8 * dx, MonoPixel(src[..], rc.w, palette[0], palette[1]))
      modifies pixels
      ensures i == At(fw, rc.y + dy, rc.x + 8 * dx + n) && src[..] == old(src[..])
      ensures Painted(pixels[..], before, fw, fh, rc, dy, 8 * dx + n, MonoPixel(src[..], rc.w, palette[0], palette[1]))
    {
      hide Painted, At, PixelIs, MonoBit;
      ghost var want := MonoPixel(src[..], rc.w, palette[0], palette[1]);
      ByteInside(rc.w, rc.h, dy, dx);
      var b := src[dy * ((rc.w + 7) / 8) + dx];
      i := i0;
      var k := 7;
      while k >= 8 - n
        invariant 7 - n <= k <= 7 && i == At(fw, rc.y + dy, rc.x + 8 * dx + (7 - k))
        invariant palette[0] == old(palette[0]) && palette[1] == old(palette[1])
        invariant Painted(pixels[..], before, fw, fh, rc, dy, 8 * dx + (7 - k), want)
        decreases k
      {
        PaintOne(pixels[..], before, fw, fh, rc, dy, 8 * dx + (7 - k), want);
        BitIs(src[..], rc.w, dy, dx, k);
        AtNext(fw, rc.y + dy, rc.x + 8 * dx + (7 - k));
        ghost var p := pixels[..];
        pixels[i] := palette[BitOf(b, k)];
        assert pixels[..] == p[i := want(dy, 8 * dx + (7 - k))];
        i := i + 1;
        k := k - 1;
      }
    }
  }

  lemma AreaNonneg(a: nat, b: nat)
    ensures a * b >= 0
  {
  }

  lemma AtOver(fw: nat, r: nat, c: nat, w: nat)
    ensures At(fw, r, c + w) == At(fw, r, c) + w
  {
  }

  lemma RowAbove(row: array<Byte>, buf: seq<Byte>, w: nat)
    requires row.Length == 3 * w && forall k :: 0 <= k < row.Length ==> row[k] == 0
    ensures RowIs(row, buf, w, -1, 3 * w)
  {
  }

  lemma RowEmpty(row: array<Byte>, buf: seq<Byte>, w: nat, dy: nat)
    requires row.Length == 3 * w
    ensures RowIs(row, buf, w, dy, 0)
  {
  }

  lemma Position(w: nat, dy: nat, dx: nat, c: nat)
    requires c < 3
    ensures (dx * 3 + c) / 3 == dx && (dx * 3 + c) % 3 == c
    ensures dx > 0 ==> ((dx - 1) * 3 + c) / 3 == dx - 1 && ((dx - 1) * 3 + c) % 3 == c
    ensures 0 <= dy * w * 3 + c <= (dy * w + dx) * 3 + c
    ensures dx == 0 ==> (dy * w + dx) * 3 + c == dy * w * 3 + c
  {
  }

  lemma DataInside(w: nat, h: nat, dy: nat, dx: nat)
    requires dy < h && dx < w
    ensures 0 <= (dy * w + dx) * 3 && (dy * w + dx) * 3 + 3 <= w * h * 3
  {
    AreaNonneg(dy, w);
    MulCompare(dy + 1, h, w);
    Split(dy, 1, w);
  }

  /** Bit `k` of a byte, as `b >> k & 1` gives it. */
  function BitOf(b: Byte, k: nat): (r: nat)
    ensures r < 2
  {
    ModTwo(b / Pow2(k));
    b / Pow2(k) % 2
  }

  lemma ModTwo(x: int)
    ensures 0 <= x % 2 < 2
  {
  }

  /** The bit of pixel `dx` in row `dy`, the most significant bit first. */
  function MonoBit(src: seq<Byte>, w: nat, dy: nat, dx: nat): nat {
    var i := dy * ((w + 7) / 8) + dx / 8;
    if 0 <= i < |src| then BitOf(src[i], 7 - dx % 8) else 0
  }

  /** Eight pixels in a row spell their byte. */
  lemma MonoByte(src: seq<Byte>, w: nat, dy: nat, n: nat)
    requires 0 <= dy * ((w + 7) / 8) + n < |src|
    ensures src[dy * ((w + 7) / 8) + n]
            == 128 * MonoBit(src, w, dy, 8 * n) + 64 * MonoBit(src, w, dy, 8 * n + 1)
               + 32 * MonoBit(src, w, dy, 8 * n + 2)
               + 16 * MonoBit(src, w, dy, 8 * n + 3) + 8 * MonoBit(src, w, dy, 8 * n + 4)
               + 4 * MonoBit(src, w, dy, 8 * n + 5) + 2 * MonoBit(src, w, dy, 8 * n + 6)
               + MonoBit(src, w, dy, 8 * n + 7)
  {
    hide MonoBit, BitOf;
    BitIs(src, w, dy, n, 7);
    BitIs(src, w, dy, n, 6);
    BitIs(src, w, dy, n, 5);
    BitIs(src, w, dy, n, 4);
    BitIs(src, w, dy, n, 3);
    BitIs(src, w, dy, n, 2);
    BitIs(src, w, dy, n, 1);
    BitIs(src, w, dy, n, 0);
    EightBits(src[dy * ((w + 7) / 8) + n]);
  }

  lemma EightBits(b: Byte)
    ensures b == 128 * BitOf(b, 7) + 64 * BitOf(b, 6) + 32 * BitOf(b, 5) + 16 * BitOf(b, 4) + 8 * BitOf(b, 3)
                 + 4 * BitOf(b, 2) + 2 * BitOf(b, 1) + BitOf(b, 0)
  {
    hide Pow2, BitOf;
    HalfByHalf(b, 0);
    HalfByHalf(b, 1);
    HalfByHalf(b, 2);
    HalfByHalf(b, 3);
    HalfByHalf(b, 4);
    HalfByHalf(b, 5);
    HalfByHalf(b, 6);
    HalfByHalf(b, 7);
    Ends(b);
  }

  lemma Ends(b: Byte)
    ensures b / Pow2(0) == b && b / Pow2(8) == 0
  {
    Pow2Values();
  }

  lemma HalfByHalf(b: Byte, k: nat)
    ensures b / Pow2(k) == 2 * (b / Pow2(k + 1)) + BitOf(b, k)
  {
    hide Pow2;
    Pow2Half(k + 1);
    HalfQuotient(b, Pow2(k));
  }

  lemma HalfQuotient(n: int, p: nat)
    requires p > 0
    ensures n / p == 2 * (n / (2 * p)) + n / p % 2
  {
    var q, r := n / p, n % p;
    var h := q / 2;
    Doubled(p, h);
    if q == 2 * h {
      DivUnique(n, 2 * p, h, r);
    } else {
      assert q == 2 * h + 1;
      DivUnique(n, 2 * p, h, p + r);
    }
  }

  lemma Doubled(p: int, h: int)
    ensures p * (2 * h) == 2 * p * h && p * (2 * h + 1) == 2 * p * h + p
  {
  }

  function MonoPixel<T>(src: seq<Byte>, w: nat, zero: T, one: T): (nat, nat) -> T {
    (dy: nat, dx: nat) => if MonoBit(src, w, dy, dx) == 0 then zero else one
  }

  lemma BitIs(src: seq<Byte>, w: nat, dy: nat, dx: nat, k: nat)
    requires k < 8 && 0 <= dy * ((w + 7) / 8) + dx < |src|
    ensures MonoBit(src, w, dy, 8 * dx + (7 - k)) == BitOf(src[dy * ((w + 7) / 8) + dx], k)
  {
    DivUnique(8 * dx + (7 - k), 8, dx, 7 - k);
  }

  lemma ByteInside(w: nat, h: nat, dy: nat, dx: nat)
    requires dy < h && 8 * dx < w
    ensures 0 <= dy * ((w + 7) / 8) + dx < h * ((w + 7) / 8)
  {
    var n := (w + 7) / 8;
    AreaNonneg(dy, n);
    MulCompare(dy + 1, h, n);
    Split(dy, 1, n);
  }

  /** A tile of a hextile rectangle. */
  type Tile = Rect

  predicate Contains(t: Tile, r: int, c: int) {
    t.x <= c < t.x + t.w && t.y <= r < t.y + t.h
  }

  /** How many tiles contain a pixel. */
  function Hits(tiles: seq<Tile>, r: int, c: int): nat {
    if tiles == [] then 0
    else Hits(tiles[..|tiles| - 1], r, c) + if Contains(tiles[|tiles| - 1], r, c) then 1 else 0
  }

  /** Rows above `ty` of the rectangle are covered once, and of the tile row of height `th` the columns before `tx`. */
  ghost predicate Covered(tiles: seq<Tile>, rc: Rect, ty: int, th: int, tx: int) {
    forall r, c :: Hits(tiles, r, c) == if rc.x <= c < rc.x + rc.w && rc.y <= r < rc.y + rc.h
                                           && (r < ty || (r < ty + th && c < tx)) then 1 else 0
  }

  ghost predicate GoodTiles(tiles: seq<Tile>) {
    forall i :: 0 <= i < |tiles| ==> 1 <= tiles[i].w <= 16 && 1 <= tiles[i].h <= 16
  }

  lemma OneTile(tiles: seq<Tile>, rc: Rect, ty: int, th: nat, tx: int, tw: nat)
    requires Covered(tiles, rc, ty, th, tx) && rc.y <= ty && ty + th <= rc.y + rc.h && rc.x <= tx
    requires tx + tw <= rc.x + rc.w
    ensures Covered(tiles + [Rect(tx, ty, tw, th)], rc, ty, th, tx + tw)
  {
  }

  lemma TileRow(tiles: seq<Tile>, rc: Rect, ty: int, th: nat, next: nat)
    requires Covered(tiles, rc, ty, th, rc.x + rc.w) && ty + th <= rc.y + rc.h
    ensures Covered(tiles, rc, ty + th, next, rc.x)
  {
  }

  lemma NoTiles(rc: Rect, th: nat)
    ensures Covered([], rc, rc.y, th, rc.x)
  {
  }

  /** `handleHextileRect`: the tiles it hands on, in order, cover the rectangle exactly once. */
  method HandleHextileRect(rc: Rect) returns (tiles: seq<Tile>)
    ensures forall r, c :: Hits(tiles, r, c) == if Contains(rc, r, c) then 1 else 0
    ensures GoodTiles(tiles)
  {
    hide Covered, Hits;
    tiles := [];
    var ty := rc.y;
    NoTiles(rc, 0);
    while ty < rc.y + rc.h
      invariant rc.y <= ty && GoodTiles(tiles)
      invariant Covered(tiles, rc, if ty < rc.y + rc.h then ty else rc.y + rc.h, 0, rc.x)
    {
      var th := 16;
      if rc.y + rc.h - ty < 16 {
        th := rc.y + rc.h - ty;
      }
      TileRowStart(tiles, rc, ty, th);
      var tx := rc.x;
      while tx < rc.x + rc.w
        invariant rc.x <= tx && GoodTiles(tiles)
        invariant Covered(tiles, rc, ty, th, if tx < rc.x + rc.w then tx else rc.x + rc.w)
      {
        var tw := 16;
        if rc.x + rc.w - tx < 16 {
          tw := rc.x + rc.w - tx;
        }
        OneTile(tiles, rc, ty, th, tx, tw);
        tiles := tiles + [Rect(tx, ty, tw, th)];
        tx := tx + 16;
      }
      TileRow(tiles, rc, ty, th, 0);
      ty := ty + 16;
    }
    AllCovered(tiles, rc);
  }

  lemma TileRowStart(tiles: seq<Tile>, rc: Rect, ty: int, th: nat)
    requires Covered(tiles, rc, ty, 0, rc.x)
    ensures Covered(tiles, rc, ty, th, rc.x)
  {
  }

  lemma AllCovered(tiles: seq<Tile>, rc: Rect)
    requires Covered(tiles, rc, rc.y + rc.h, 0, rc.x)
    ensures forall r, c :: Hits(tiles, r, c) == if Contains(rc, r, c) then 1 else 0
  {
  }
}
