/** The arithmetic encoder of `jcarith.c`: registers, byte output with carry resolution, termination. */
module ArithEncoder {
  import opened Numbers
  import opened ByteStuffing
  import opened AritTable
  import opened IntervalCoder

  /** The bytes the encoder stands for: those written, `zc` pending zeros, the buffered byte if any,
      and `sc` stacked 0xFF bytes that a carry could still turn into 0x00. */
  function Pending(raw: seq<Byte>, zc: nat, buffer: int, sc: nat): seq<Byte>
    requires -1 <= buffer <= 0xFE
  {
    raw + Repeat(0, zc) + (if buffer >= 0 then [buffer] else []) + Repeat(0xFF, sc)
  }

  /** The exact interval: the pending bytes followed by the C register, of which `ct` bits are still
      to be shifted in before its top byte is complete. */
  function Exact(p: seq<Byte>, c: int, a: int, ct: int): Interval
    requires 0 <= ct <= 11
  {
    Interval(BytesVal(p) * Pow2(27 - ct) + c, a, 8 * |p| + 11 - ct)
  }

  /** What keeps C in 28 bits, and keeps a carry away while no byte is buffered to take it. */
  predicate Bounded(c: int, a: int, ct: int, buffer: int)
    requires 0 <= ct <= 11
  {
    && 0 <= c && 0 < a <= 0x10000
    && c + a <= 9 * Pow2(24 - ct)
    && (buffer < 0 ==> c + a <= Pow2(27 - ct))
  }

  lemma ShiftKeeps(p: seq<Byte>, c: int, a: int, ct: int, buffer: int)
    requires 1 <= ct <= 11 && Bounded(c, a, ct, buffer) && a < 0x8000
    ensures Bounded(2 * c, 2 * a, ct - 1, buffer)
    ensures Exact(p, 2 * c, 2 * a, ct - 1)
         == var iv := Exact(p, c, a, ct); Interval(2 * iv.low, 2 * iv.size, iv.shifts + 1)
  {
    var v, q := BytesVal(p), Pow2(27 - ct);
    assert Pow2(28 - ct) == 2 * q;
    assert v * (2 * q) == 2 * (v * q);
    assert Pow2(25 - ct) == 2 * Pow2(24 - ct);
  }

  /** At a byte boundary the top of C is at most 0x11F, and below 0x100 while nothing is buffered. */
  lemma ByteReady(c: int, a: int, buffer: int)
    requires Bounded(c, a, 0, buffer)
    ensures c / 0x80000 <= 0x11F
    ensures buffer < 0 ==> c / 0x80000 <= 0xFF
  {
    Pow2Values();
  }

  /** Moving the top byte of C to the end of the pending bytes leaves the exact interval alone;
      `carry` of it has been added to the bytes already there. */
  lemma ByteMoves(p: seq<Byte>, p': seq<Byte>, c: int, a: int, carry: int, b: Byte)
    requires |p'| == |p| && BytesVal(p') == BytesVal(p) + carry
    requires 0 <= c && c / 0x80000 == carry * 256 + b
    requires 0 < a < 0x10000
    ensures Exact(p' + [b], c % 0x80000, a, 8) == Exact(p, c, a, 0)
    ensures Bounded(c % 0x80000, a, 8, 0)
  {
    BytesValSnoc(p', b);
    Pow2Values();
  }

  /** With nothing buffered, a stacked 0xFF still leaves no room for a carry. */
  lemma NoRoomForCarry(c: int, a: int)
    requires Bounded(c, a, 0, -1) && c / 0x80000 == 0xFF
    ensures c % 0x80000 + a <= Pow2(19)
  {
    Pow2Values();
  }

  lemma CarryInto(x: seq<Byte>, b: Byte, n: nat)
    requires b < 0xFF
    ensures BytesVal(x + [b + 1] + Repeat(0, n)) == BytesVal(x + [b] + Repeat(0xFF, n)) + 1
  {
    var u, v, q := BytesVal(x + [b + 1]), BytesVal(x + [b]), Pow2(8 * n);
    assert u == v + 1 by {
      BytesValSnoc(x, b);
      BytesValSnoc(x, b + 1);
    }
    assert BytesVal(x + [b + 1] + Repeat(0, n)) == u * q by {
      BytesValAppend(x + [b + 1], Repeat(0, n));
      BytesValZeros(n);
    }
    assert BytesVal(x + [b] + Repeat(0xFF, n)) == v * q + (q - 1) by {
      BytesValAppend(x + [b], Repeat(0xFF, n));
      BytesValOnes(n);
    }
  }

  /** What is left of the pending bytes once the buffered one is settled. */
  lemma PendingSplit(raw: seq<Byte>, zc: nat, buffer: int, sc: nat)
    requires -1 <= buffer <= 0xFE
    ensures buffer < 0 ==> Pending(raw, zc, buffer, sc) == raw + Repeat(0, zc) + Repeat(0xFF, sc)
    ensures buffer == 0 ==> Pending(raw, zc, buffer, sc) == raw + Repeat(0, zc + 1) + Repeat(0xFF, sc)
    ensures buffer > 0 ==>
              Pending(raw, zc, buffer, sc) == raw + Repeat(0, zc) + [buffer] + Repeat(0, 0) + Repeat(0xFF, sc)
  {
  }

  lemma OneZero(x: seq<Byte>)
    ensures x + [0] == x + Repeat(0, 1)
  {
  }

  lemma TwoZeros(x: seq<Byte>, n: nat)
    ensures x + Repeat(0, n) + [0] + [0] == x + Repeat(0, n + 2)
  {
  }

  /** The bits of the shifted C: a carry, two bytes, and eleven zeros. */
  lemma SplitFinal(c: int)
    requires 0 <= c < 0x1000_0000 && c % 0x800 == 0
    ensures c / 0x800_0000 <= 1
    ensures c / 0x800_0000 * 0x800_0000 + c / 0x80000 % 256 * 0x80000 + c / 0x800 % 256 * 0x800 == c
    ensures c / 0x800 % 0x10000 == c / 0x80000 % 256 * 256 + c / 0x800 % 256
  {
    var d := c / 0x800;
    assert c == 0x800 * d;
    assert c / 0x80000 == d / 256;
    assert c / 0x800_0000 == d / 0x10000;
  }

  lemma ChooseFinal(c: int, a: int)
    ensures var temp := (a - 1 + c) / 0x10000 * 0x10000;
            FinalPoint(c, a) == if temp < c then temp + 0x8000 else temp
  {
  }

  lemma ExactFields(p: seq<Byte>, c: int, a: int, ct: int)
    requires 0 <= ct <= 11
    ensures Exact(p, c, a, ct).size == a && Exact(p, c, a, ct).shifts == 8 * |p| + 11 - ct
  {
  }

  lemma NoOnes(x: seq<Byte>)
    ensures x + Repeat(0xFF, 0) == x
  {
  }

  lemma NoZeros(x: seq<Byte>)
    ensures x + Repeat(0, 0) == x
  {
  }

  lemma Settled(raw: seq<Byte>, zc: nat, b: Byte)
    requires b <= 0xFE
    ensures Pending(raw, zc, b, 0) == raw + Repeat(0, zc) + [b]
  {
  }

  /** A byte of C that is not 0xFF becomes the buffered byte, after `carry` went into the bytes before. */
  lemma NewBuffer(p: seq<Byte>, raw: seq<Byte>, zc: nat, c: int, a: int, carry: int, b: Byte)
    requires b <= 0xFE && 0 <= c && c / 0x80000 == carry * 256 + b && 0 < a < 0x10000
    requires |raw + Repeat(0, zc)| == |p| && BytesVal(raw + Repeat(0, zc)) == BytesVal(p) + carry
    ensures Exact(Pending(raw, zc, b, 0), c % 0x80000, a, 8) == Exact(p, c, a, 0)
    ensures Bounded(c % 0x80000, a, 8, b)
  {
    Settled(raw, zc, b);
    ByteMoves(p, raw + Repeat(0, zc), c, a, carry, b);
  }

  /** A 0xFF byte of C joins the stack. */
  lemma Stacked(raw: seq<Byte>, zc: nat, buffer: int, sc: nat, c: int, a: int)
    requires -1 <= buffer <= 0xFE && Bounded(c, a, 0, buffer) && c / 0x80000 == 0xFF && a < 0x10000
    ensures Exact(Pending(raw, zc, buffer, sc + 1), c % 0x80000, a, 8) == Exact(Pending(raw, zc, buffer, sc), c, a, 0)
    ensures Bounded(c % 0x80000, a, 8, buffer)
  {
    var p := Pending(raw, zc, buffer, sc);
    OneMore(raw, zc, buffer, sc);
    ByteMoves(p, p, c, a, 0, 0xFF);
    if buffer < 0 {
      NoRoomForCarry(c, a);
    }
  }

  /** The registers after choosing a subinterval. */
  lemma Narrowed(p: seq<Byte>, c: int, a: int, ct: int, buffer: int, qe: int, lps: bool)
    requires 0 <= ct <= 11 && Bounded(c, a, ct, buffer) && 0 < qe < 0x8000 <= a
    ensures lps != (a - qe < qe) ==>
              && Bounded(c + (a - qe), qe, ct, buffer)
              && Exact(p, c + (a - qe), qe, ct) == SubInterval(Exact(p, c, a, ct), qe, lps)
    ensures Exact(p, c, a, ct).size == a
    ensures lps == (a - qe < qe) ==>
              && Bounded(c, a - qe, ct, buffer)
              && Exact(p, c, a - qe, ct) == SubInterval(Exact(p, c, a, ct), qe, lps)
  {
  }

  /** Choosing the final value in C alone chooses it in the exact interval, and the shifted C still
      has at most one bit above the byte position, none if no byte is buffered. */
  lemma FinalRegister(p: seq<Byte>, c: int, a: int, ct: int, buffer: int)
    requires 1 <= ct <= 11 && Bounded(c, a, ct, buffer) && 0x8000 <= a
    ensures var t := FinalPoint(c, a);
            && FinalPoint(Exact(p, c, a, ct).low, a) == BytesVal(p) * Pow2(27 - ct) + t
            && 0 <= t * Pow2(ct) < 0x1000_0000
            && t * Pow2(ct) % 0x800 == 0
            && (buffer < 0 ==> t * Pow2(ct) < 0x800_0000)
  {
    hide BytesVal, Pow2;
    var t, v := FinalPoint(c, a), BytesVal(p);
    FinalPointInside(c, a);
    Pow2Values();
    assert v * Pow2(27 - ct) == 0x10000 * (v * Pow2(11 - ct)) by {
      Pow2Add(16, 11 - ct);
      MulAssoc(v, 0x10000, Pow2(11 - ct));
    }
    FinalPointShift(c, a, v * Pow2(11 - ct));
    MulCompare(0, t, Pow2(ct));
    assert t * Pow2(ct) < 9 * 0x100_0000 by {
      Pow2Add(24 - ct, ct);
      MulAssoc(9, Pow2(24 - ct), Pow2(ct));
      MulCompare(t, 9 * Pow2(24 - ct), Pow2(ct));
    }
    if buffer < 0 {
      Pow2Add(27 - ct, ct);
      MulCompare(t, Pow2(27 - ct), Pow2(ct));
    }
    assert t * Pow2(ct) == (t / 0x8000 * 16) * Pow2(11 + ct) by {
      Pow2Add(11, ct);
      assert t == t / 0x8000 * 16 * 0x800;
      MulAssoc(t / 0x8000 * 16, 0x800, Pow2(ct));
    }
    MultipleOf(t / 0x8000 * 16, 11 + ct, 11);
  }

  /** The two bytes of the shifted C, behind the resolved bytes, denote exactly the chosen value. */
  lemma FinalBytes(p: seq<Byte>, p': seq<Byte>, t: int, ct: int, carry: int, b1: Byte, b2: Byte)
    requires 1 <= ct <= 11 && |p'| == |p| && BytesVal(p') == BytesVal(p) + carry
    requires t * Pow2(ct) == carry * 0x800_0000 + b1 * 0x80000 + b2 * 0x800
    ensures IsFraction(p' + [b1] + [b2], BytesVal(p) * Pow2(27 - ct) + t, 8 * |p| + 27 - ct)
  {
    hide BytesVal, Pow2;
    var f, v, x := BytesVal(p' + [b1] + [b2]), BytesVal(p), BytesVal(p) * Pow2(27 - ct) + t;
    BytesValSnoc(p', b1);
    BytesValSnoc(p' + [b1], b2);
    Pow2Values();
    Pow2Add(27 - ct, ct);
    Pow2Add(11 - ct, ct);
    assert f * 0x800 == v * 0x800_0000 + t * Pow2(ct);
    assert x * Pow2(ct) == v * 0x800_0000 + t * Pow2(ct) by {
      MulAssoc(v, Pow2(27 - ct), Pow2(ct));
      Distribute(v * Pow2(27 - ct), t, Pow2(ct));
    }
    CancelLeft(x, f, Pow2(ct), Pow2(11 - ct));
    assert Pow2(8 * |p| + 27 - ct) == Pow2(11 - ct) * Pow2(8 * |p| + 16) by {
      Pow2Add(11 - ct, 8 * |p| + 16);
    }
    MulAssoc(f, Pow2(11 - ct), Pow2(8 * |p| + 16));
    assert 8 * |p' + [b1] + [b2]| == 8 * |p| + 16;
  }

  lemma Distribute(a: int, b: int, k: int)
    ensures (a + b) * k == a * k + b * k
  {
  }

  lemma OneMore(raw: seq<Byte>, zc: nat, buffer: int, sc: nat)
    requires -1 <= buffer <= 0xFE
    ensures Pending(raw, zc, buffer, sc + 1) == Pending(raw, zc, buffer, sc) + [0xFF]
  {
  }

  class Encoder {
    const tab: ProbTable
    var c: int          // base of the coding interval
    var a: int          // normalised size of the coding interval
    var sc: nat         // stacked 0xFF bytes which might still overflow
    var zc: nat         // pending 0x00 bytes which might be discarded at the end
    var ct: int         // shifts left until the next byte is complete
    var buffer: int     // most recent byte that is not 0xFF, or -1
    var stats: Stats    // dc_stats, ac_stats and fixed_bin
    var out: seq<Byte>  // everything handed to the destination so far

    ghost var base: seq<Byte>      // `out` at the start of the segment
    ghost var raw: seq<Byte>       // bytes of this segment written since, before stuffing
    ghost var stats0: Stats        // statistics at the start of the segment
    ghost var log: seq<Decision>   // decisions coded in this segment

    ghost function Bytes(): seq<Byte>
      reads this
      requires -1 <= buffer <= 0xFE
    {
      Pending(raw, zc, buffer, sc)
    }

    ghost function Now(): Interval
      reads this
      requires -1 <= buffer <= 0xFE && 0 <= ct <= 11
    {
      Exact(Bytes(), c, a, ct)
    }

    ghost predicate OutputValid()
      reads this
    {
      && out == base + Stuff(raw)
      && Trimmed(raw)
      && -1 <= buffer <= 0xFE
      && (buffer < 0 ==> raw == [] && zc == 0)
    }

    ghost predicate RegistersValid()
      reads this
    {
      OutputValid() && 0 <= ct <= 11 && Bounded(c, a, ct, buffer)
    }

    /** The encoder is between two decisions, and has coded exactly `log` since the segment started. */
    ghost predicate Valid()
      reads this
    {
      && RegistersValid() && 1 <= ct && 0x8000 <= a
      && GoodStats(tab, stats0)
      && Run(tab, Coder(UNIT, stats0), log) == Coder(Now(), stats)
    }

    constructor (tab: ProbTable)
      requires GoodState(tab, 0) && GoodState(tab, 113)
      ensures Valid() && this.tab == tab && out == base == [] && log == [] && stats == stats0 == map[]
    {
      this.tab := tab;
      c, a, sc, zc, ct, buffer := 0, 0x10000, 0, 0, 11, -1;
      stats, out := map[], [];
      base, raw, stats0, log := [], [], map[], [];
      new;
      FreshRegisters();
    }

    ghost method FreshRegisters()
      requires GoodStats(tab, stats) && stats0 == stats && log == [] && raw == [] && out == base
      requires c == 0 && a == 0x10000 && sc == 0 && zc == 0 && ct == 11 && buffer == -1
      ensures Valid()
    {
      assert Bytes() == [];
      Pow2Values();
      assert base + Stuff(raw) == base;
    }

    method EmitByte(val: Byte)
      modifies `out
      ensures out == old(out) + [val]
    {
      out := out + [val];
    }

    /** The bytes `s`, stuffed, have just been emitted. */
    ghost method Wrote(s: seq<Byte>, sent: seq<Byte>)
      requires out == base + Stuff(raw) + sent && sent == Stuff(s)
      modifies `raw
      ensures raw == old(raw) + s && out == base + Stuff(raw)
    {
      StuffAppend(raw, s);
      ConcatAssoc(base, Stuff(raw), sent);
      raw := raw + s;
    }

    /** `if (e->zc) do emit_byte(0x00) while (--e->zc);` */
    method EmitZeros()
      modifies `zc, `out
      ensures zc == 0 && out == old(out) + Repeat(0, old(zc))
    {
      ghost var n, sofar := zc, out;
      while zc > 0
        invariant zc <= n
        invariant out == sofar + Repeat(0, n - zc)
      {
        ConcatAssoc(sofar, Repeat(0, n - zc), [0]);
        EmitByte(0x00);
        zc := zc - 1;
      }
    }

    /** `do { emit_byte(0xFF); emit_byte(0x00); } while (--e->sc);` */
    method EmitOnes()
      modifies `sc, `out
      ensures sc == 0 && out == old(out) + StuffedOnes(old(sc))
    {
      ghost var n, sofar := sc, out;
      while sc > 0
        invariant sc <= n
        invariant out == sofar + StuffedOnes(n - sc)
      {
        ConcatAssoc(sofar, StuffedOnes(n - sc), [0xFF, 0x00]);
        ConcatAssoc(out, [0xFF], [0x00]);
        EmitByte(0xFF);
        EmitByte(0x00);
        sc := sc - 1;
      }
    }

    method SendZeros()
      requires out == base + Stuff(raw)
      modifies `zc, `out, `raw
      ensures zc == 0 && raw == old(raw) + Repeat(0, old(zc)) && out == base + Stuff(raw)
    {
      ghost var n := zc;
      EmitZeros();
      StuffZeros(n);
      Wrote(Repeat(0, n), Repeat(0, n));
    }

    method SendOnes()
      requires out == base + Stuff(raw)
      modifies `sc, `out, `raw
      ensures sc == 0 && raw == old(raw) + Repeat(0xFF, old(sc)) && out == base + Stuff(raw)
    {
      ghost var n := sc;
      EmitOnes();
      StuffOnes(n);
      Wrote(Repeat(0xFF, n), StuffedOnes(n));
    }

    /** Emits one data byte; a 0xFF is followed by a stuffed zero. */
    method SendData(val: Byte)
      requires out == base + Stuff(raw)
      modifies `out, `raw
      ensures raw == old(raw) + [val] && out == base + Stuff(raw)
    {
      EmitByte(val);
      if val == 0xFF {
        EmitByte(0x00);
      }
      assert Stuff([val]) == StuffByte(val) by {
        StuffSnoc([], val);
        assert [] + [val] == [val];
      }
      Wrote([val], StuffByte(val));
    }

    /** A carry goes into the buffered byte and turns the stacked 0xFF bytes into pending zeros. */
    method ResolveCarry()
      requires OutputValid() && buffer >= 0
      modifies `zc, `sc, `out, `raw
      ensures out == base + Stuff(raw) && Trimmed(raw) && sc == 0
      ensures |raw + Repeat(0, zc)| == |old(Bytes())|
      ensures BytesVal(raw + Repeat(0, zc)) == BytesVal(old(Bytes())) + 1
    {
      hide BytesVal, StuffTo;
      ghost var x := raw + Repeat(0, zc);
      if buffer >= 0 {
        SendZeros();
        SendData(buffer + 1);
      }
      zc := zc + sc;
      sc := 0;
      assert raw == x + [buffer + 1];
      assert x + [buffer] + Repeat(0xFF, old(sc)) == old(Bytes());
      CarryInto(x, buffer, old(sc));
    }

    /** No carry: the buffered byte and the stacked 0xFF bytes are final. */
    method ResolveNoCarry()
      requires OutputValid()
      modifies `zc, `sc, `out, `raw
      ensures out == base + Stuff(raw) && Trimmed(raw) && sc == 0
      ensures raw + Repeat(0, zc) == old(Bytes())
    {
      PendingSplit(raw, zc, buffer, sc);
      ghost var p := Bytes();
      if buffer == 0 {
        zc := zc + 1;
      } else if buffer >= 0 {
        SendZeros();
        SendData(buffer);
      }
      assert p == raw + Repeat(0, zc) + Repeat(0xFF, sc);
      if sc > 0 {
        SendZeros();
        SendOnes();
        NoZeros(raw);
      } else {
        NoOnes(raw + Repeat(0, zc));
      }
    }

    /** Another byte is complete: the part of the renormalisation loop under `--e->ct == 0`. */
    method ByteOut()
      requires RegistersValid() && ct == 0 && a < 0x10000
      modifies `c, `ct, `sc, `zc, `buffer, `out, `raw
      ensures RegistersValid() && ct == 8 && Now() == old(Now())
    {
      hide Stuff, BytesVal, Pow2, Repeat;
      ghost var p := Bytes();
      ByteReady(c, a, buffer);
      var temp := c / 0x80000;
      if temp > 0xFF {
        ResolveCarry();
        NewBuffer(p, raw, zc, c, a, 1, temp % 256);
        buffer := temp % 256;
      } else if temp == 0xFF {
        Stacked(raw, zc, buffer, sc, c, a);
        sc := sc + 1;
      } else {
        ResolveNoCarry();
        NewBuffer(p, raw, zc, c, a, 0, temp);
        buffer := temp % 256;
      }
      c := c % 0x80000;
      ct := ct + 8;
    }

    /** The do-while loop of section D.1.6. */
    method Renormalize()
      requires RegistersValid() && 1 <= ct && a < 0x8000
      modifies `c, `a, `ct, `sc, `zc, `buffer, `out, `raw
      ensures RegistersValid() && 1 <= ct && 0x8000 <= a
      ensures Now() == Renorm(old(Now()))
    {
      hide Stuff, BytesVal, Pow2, Repeat;
      ghost var target := Renorm(Now());
      while true
        invariant RegistersValid() && 1 <= ct && a < 0x8000
        invariant Renorm(Now()) == target
        decreases 0x8000 - a
      {
        ShiftKeeps(Bytes(), c, a, ct, buffer);
        a := 2 * a;
        c := 2 * c;
        ct := ct - 1;
        if ct == 0 {
          ByteOut();
        }
        if a >= 0x8000 {
          break;
        }
      }
    }

    /** `arith_encode`: codes `val` with the estimate kept in `bin`. */
    method Encode(bin: Bin, val: bool)
      requires Valid()
      modifies `c, `a, `ct, `sc, `zc, `buffer, `out, `raw, `stats, `log
      ensures Valid() && log == old(log) + [Decision(bin, val)]
    {
      hide Stuff, BytesVal, Pow2, Repeat, Run, Renorm, Exact, Pending, Bounded, Qe, MpsOf, NewState, StatOf, SetStat;
      RunSnoc(tab, Coder(UNIT, stats0), log, Decision(bin, val));
      log := log + [Decision(bin, val)];
      ghost var sv := StatOf(stats, bin);
      ghost var sub := SubInterval(Now(), Qe(tab, sv), val != MpsOf(sv));
      Narrowed(Bytes(), c, a, ct, buffer, Qe(tab, sv), val != MpsOf(sv));
      SameNewState(tab, Now(), sv, val);
      var normal := Choose(bin, val);
      if normal {
        RenormNone(sub);
      } else {
        Renormalize();
      }
    }

    /** The new interval before renormalisation, and the new estimate. */
    method Choose(bin: Bin, val: bool) returns (normal: bool)
      requires GoodState(tab, StatOf(stats, bin))
      modifies `c, `a, `stats
      ensures var sv := StatOf(old(stats), bin);
              var lower := old(a) - Qe(tab, sv);
              var upper := (val != MpsOf(sv)) != (lower < Qe(tab, sv));
              && a == (if upper then Qe(tab, sv) else lower)
              && c == (if upper then old(c) + lower else old(c))
              && stats == SetStat(old(stats), bin, NewState(tab, Interval(0, old(a), 0), sv, val))
              && (normal <==> val == MpsOf(sv) && lower >= 0x8000)
      ensures normal <==> a >= 0x8000
    {
      hide NextState, StatOf, SetStat, NewState, Qe;
      var sv := StatOf(stats, bin);
      Fields(tab, a, sv);
      SetSame(stats, bin);
      var qe := tab[sv % 128];
      var nl := qe % 256;
      qe := qe / 256;
      var nm := qe % 256;
      qe := qe / 256;
      a := a - qe;
      normal := false;
      if val != (sv >= 128) {
        if a >= qe {
          c := c + a;
          a := qe;
        }
        stats := SetStat(stats, bin, NextState(sv, nl));
      } else {
        if a >= 0x8000 {
          return true;
        }
        if a < qe {
          c := c + a;
          a := qe;
        }
        stats := SetStat(stats, bin, NextState(sv, nm));
      }
    }

    lemma StatsAreRun()
      requires Valid()
      ensures GoodStats(tab, stats0) && stats == Run(tab, Coder(UNIT, stats0), log).stats
    {
    }

    /** `finish_pass`: section D.1.8. */
    method FinishPass()
      requires Valid()
      modifies `c, `sc, `zc, `out, `raw
      ensures out == base + Stuff(raw) && Trimmed(raw)
      ensures IsFraction(raw, FinalPoint(old(Now()).low, old(a)), 16 + old(Now()).shifts)
      ensures Run(tab, Coder(UNIT, stats0), log) == Coder(old(Now()), stats) && old(Now()).size == old(a)
    {
      hide BytesVal, Pow2, Repeat, Stuff, Run, IsFraction, Exact, Pending, FinalPoint;
      ghost var p := Bytes();
      ghost var x := FinalPoint(Now().low, a);
      ghost var t := FinalPoint(c, a);
      FinalRegister(p, c, a, ct, buffer);
      ChooseFinal(c, a);
      var temp := (a - 1 + c) / 0x10000 * 0x10000;
      if temp < c {
        c := temp + 0x8000;
      } else {
        c := temp;
      }
      c := c * Pow2(ct);
      SplitFinal(c);
      var carry, b1, b2 := c / 0x800_0000, c / 0x80000 % 256, c / 0x800 % 256;
      if carry != 0 {
        ResolveCarry();
      } else {
        ResolveNoCarry();
      }
      ghost var p' := raw + Repeat(0, zc);
      FinalBytes(p, p', t, ct, carry, b1, b2);
      ExactFields(p, old(c), a, ct);
      ghost var k := EmitFinal(b1, b2);
      FractionZeros(raw, k, x, 8 * |p| + 27 - ct);
    }

    /** "Output final bytes only if they are not 0x00". */
    method EmitFinal(b1: Byte, b2: Byte) returns (ghost k: nat)
      requires out == base + Stuff(raw) && Trimmed(raw)
      modifies `zc, `out, `raw
      ensures out == base + Stuff(raw) && Trimmed(raw)
      ensures raw + Repeat(0, k) == old(raw) + Repeat(0, old(zc)) + [b1] + [b2]
    {
      hide Stuff, Repeat;
      if b1 != 0 || b2 != 0 {
        if zc > 0 {
          SendZeros();
        } else {
          NoZeros(raw);
        }
        SendData(b1);
        k := 1;
        if b2 != 0 {
          SendData(b2);
          k := 0;
          NoZeros(raw);
        } else {
          OneZero(raw);
        }
      } else {
        TwoZeros(raw, zc);
        k := zc + 2;
      }
    }

    /** `finish_pass` as its callers see it: the bytes of the segment lie in the final interval, no shorter
        byte string does, and the segment can be delimited by a marker. */
    method Finish()
      requires Valid()
      modifies `c, `sc, `zc, `out, `raw
      ensures out == base + Stuff(raw)
      ensures Contains(Run(tab, Coder(UNIT, stats0), log).iv, raw)
      ensures forall other :: Contains(Run(tab, Coder(UNIT, stats0), log).iv, other) ==> |raw| <= |other|
      ensures NoMarkers(Stuff(raw)) && EndsTight(Stuff(raw))
    {
      hide BytesVal, Pow2, Repeat, Stuff, Run, IsFraction, Exact, Pending, FinalPoint, Contains, NoMarkers, EndsTight;
      ghost var iv := Now();
      FinishPass();
      FinalPointInside(iv.low, iv.size);
      FractionContained(iv, raw, FinalPoint(iv.low, iv.size));
      forall other | Contains(iv, other)
        ensures |raw| <= |other|
      {
        ShortestFinal(iv, raw, other);
      }
      StuffedSegment(raw);
    }

    /** `emit_restart`: ends the segment, writes the marker, and starts a segment with cleared statistics. */
    method EmitRestart(restartNum: nat, dcTbls: set<nat>, acTbls: set<nat>) returns (ghost seg: seq<Byte>)
      requires Valid() && restartNum < 8
      modifies this
      ensures Valid() && log == [] && stats == stats0 == ClearStats(old(stats), dcTbls, acTbls)
      ensures out == base == old(base) + Stuff(seg) + [0xFF] + [0xD0 + restartNum]
      ensures Contains(Run(tab, Coder(UNIT, old(stats0)), old(log)).iv, seg)
    {
      hide BytesVal, Pow2, Repeat, StuffTo, Run, IsFraction, Exact, Contains, NoMarkers, EndsTight, ClearStats, Bounded;
      Finish();
      seg := raw;
      EmitByte(0xFF);
      EmitByte(0xD0 + restartNum);
      ClearKeepsGood(tab, Coder(UNIT, stats0), log, dcTbls, acTbls);
      stats := ClearStats(stats, dcTbls, acTbls);
      c, a, sc, zc, ct, buffer := 0, 0x10000, 0, 0, 11, -1;
      base, raw, stats0, log := out, [], stats, [];
      FreshRegisters();
    }
  }

  lemma StuffedSegment(raw: seq<Byte>)
    requires Trimmed(raw)
    ensures NoMarkers(Stuff(raw)) && EndsTight(Stuff(raw))
  {
    StuffedHasNoMarkers(raw, |raw|);
    TrimmedEndsTight(raw);
  }
}
