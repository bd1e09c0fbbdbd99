/** The arithmetic decoder of `jdarith.c`, reading what the encoder wrote. */
module ArithDecoder {
  import opened Numbers
  import opened ByteStuffing
  import opened AritTable
  import opened IntervalCoder

  /** The segment's bytes, followed by as many zeros as the decoder cares to ask for. */
  function ByteAt(raw: seq<Byte>, m: nat): Byte {
    if m < |raw| then raw[m] else 0
  }

  function Prefix(raw: seq<Byte>, m: nat): (v: int)
    ensures v >= 0
  {
    if m == 0 then 0 else Prefix(raw, m - 1) * 256 + ByteAt(raw, m - 1)
  }

  lemma {:induction false} PrefixInside(raw: seq<Byte>, m: nat)
    requires m <= |raw|
    ensures Prefix(raw, m) == BytesVal(raw[..m])
  {
    if m > 0 {
      PrefixInside(raw, m - 1);
      assert raw[..m] == raw[..m - 1] + [raw[m - 1]];
      BytesValSnoc(raw[..m - 1], raw[m - 1]);
    }
  }

  lemma {:induction false} PrefixBeyond(raw: seq<Byte>, n: nat)
    ensures Prefix(raw, |raw| + n) == BytesVal(raw) * Pow2(8 * n)
  {
    if n == 0 {
      PrefixInside(raw, |raw|);
      assert raw[..|raw|] == raw;
    } else {
      PrefixBeyond(raw, n - 1);
      Pow2Add(8 * (n - 1), 8);
      Pow2Values();
      MulAssoc(BytesVal(raw), Pow2(8 * (n - 1)), 256);
    }
  }

  /** The first `m` bytes are the integer part of 0.raw * 256^m. */
  lemma PrefixFloor(raw: seq<Byte>, m: nat)
    ensures Prefix(raw, m) * Pow2(8 * |raw|) <= BytesVal(raw) * Pow2(8 * m)
    ensures BytesVal(raw) * Pow2(8 * m) < (Prefix(raw, m) + 1) * Pow2(8 * |raw|)
  {
    hide BytesVal, Pow2, Prefix;
    if m <= |raw| {
      var e := 8 * |raw[m..]|;
      PrefixInside(raw, m);
      assert raw[..m] + raw[m..] == raw;
      BytesValAppend(raw[..m], raw[m..]);
      BytesValBound(raw[m..]);
      Pow2Add(e, 8 * m);
      assert 8 * |raw| == e + 8 * m;
      FloorBelow(BytesVal(raw[..m]), BytesVal(raw[m..]), Pow2(e), Pow2(8 * m));
    } else {
      var n := m - |raw|;
      PrefixBeyond(raw, n);
      Pow2Add(8 * n, 8 * |raw|);
      MulAssoc(BytesVal(raw), Pow2(8 * n), Pow2(8 * |raw|));
      Distribute(Prefix(raw, m), Pow2(8 * |raw|));
    }
  }

  lemma Distribute(a: int, k: int)
    ensures (a + 1) * k == a * k + k
  {
  }

  lemma FloorBelow(p: int, r: int, q: int, k: int)
    requires 0 <= r < q && k > 0
    ensures p * (q * k) <= (p * q + r) * k < (p + 1) * (q * k)
  {
  }

  /** Comparing the bytes read so far with a split point is comparing the whole number with it. */
  lemma CompareBytesRead(raw: seq<Byte>, m: nat, s: nat, ct: nat, x: int)
    requires 8 * m == s + ct
    ensures Prefix(raw, m) >= x * Pow2(ct) <==> BytesVal(raw) * Pow2(s) >= x * Pow2(8 * |raw|)
  {
    hide BytesVal, Pow2, Prefix;
    PrefixFloor(raw, m);
    Pow2Add(s, ct);
    CompareFloor(Prefix(raw, m), BytesVal(raw), Pow2(s), Pow2(ct), Pow2(8 * |raw|), x);
  }

  lemma CompareFloor(p: int, v: int, a: int, t: int, k: int, x: int)
    requires t > 0 && k > 0
    requires p * k <= v * (a * t) < (p + 1) * k
    ensures p >= x * t <==> v * a >= x * k
  {
    MulAssoc(v, a, t);
    MulSwap(x, t, k);
    Between(p, x * t, x * k, v * a, t, k);
  }

  lemma MulSwap(x: int, t: int, k: int)
    ensures (x * t) * k == (x * k) * t
  {
  }

  lemma Between(p: int, xt: int, xk: int, va: int, t: int, k: int)
    requires t > 0 && k > 0 && xt * k == xk * t && p * k <= va * t < (p + 1) * k
    ensures p >= xt <==> va >= xk
  {
    MulCompare(xt, p, k);
    MulCompare(xt, p + 1, k);
    MulCompare(xk, va, t);
  }

  /** C holds the bytes read, less the low end of the interval, with `ct` bits read ahead. */
  predicate Reading(raw: seq<Byte>, m: nat, iv: Interval, c: int, ct: int) {
    && 0 <= ct
    && 8 * m == 16 + iv.shifts + ct
    && c == Prefix(raw, m) - iv.low * Pow2(ct)
  }

  /** One renormalisation step that needs no new byte. */
  lemma ReadingShift(raw: seq<Byte>, m: nat, iv: Interval, c: int, ct: int)
    requires Reading(raw, m, iv, c, ct) && ct > 0
    ensures Reading(raw, m, Interval(2 * iv.low, 2 * iv.size, iv.shifts + 1), c, ct - 1)
  {
  }

  /** One renormalisation step that fetches a byte. */
  lemma ReadingFetch(raw: seq<Byte>, m: nat, iv: Interval, c: int)
    requires Reading(raw, m, iv, c, 0)
    ensures Reading(raw, m + 1, Interval(2 * iv.low, 2 * iv.size, iv.shifts + 1), c * 256 + ByteAt(raw, m), 7)
  {
  }

  lemma ReadingAbove(raw: seq<Byte>, m: nat, iv: Interval, c: int, ct: int, lower: int, size: int)
    requires Reading(raw, m, iv, c, ct)
    ensures Reading(raw, m, Interval(iv.low + lower, size, iv.shifts), c - lower * Pow2(ct), ct)
    ensures Reading(raw, m, Interval(iv.low, size, iv.shifts), c, ct)
    ensures c >= lower * Pow2(ct) <==>
            BytesVal(raw) * Pow2(16 + iv.shifts) >= (iv.low + lower) * Pow2(8 * |raw|)
  {
    hide Prefix, BytesVal, Pow2;
    assert (iv.low + lower) * Pow2(ct) == iv.low * Pow2(ct) + lower * Pow2(ct);
    CompareBytesRead(raw, m, 16 + iv.shifts, ct, iv.low + lower);
  }

  /** What the comparison of C with the scaled split point tells the decoder. */
  lemma SplitComparison(raw: seq<Byte>, m: nat, iv: Interval, c: int, ct: int, tab: ProbTable, sv: Byte)
    requires Normal(iv) && GoodState(tab, sv) && Reading(raw, m, iv, c, ct)
    ensures var qe := Qe(tab, sv);
            var lower := iv.size - qe;
            var above := c >= lower * Pow2(ct);
            var bit := Decoded(tab, iv, sv, raw);
            var sub := SubInterval(iv, qe, bit != MpsOf(sv));
            && 0 <= ct
            && bit == ((above != (lower < qe)) != MpsOf(sv))
            && sub.low == (if above then iv.low + lower else iv.low)
            && sub.size == (if above then qe else lower)
            && Reading(raw, m, sub, if above then c - lower * Pow2(ct) else c, ct)
  {
    hide Prefix, BytesVal, Pow2;
    var qe := Qe(tab, sv);
    ReadingAbove(raw, m, iv, c, ct, iv.size - qe, qe);
    ReadingAbove(raw, m, iv, c, ct, iv.size - qe, iv.size - qe);
  }

  class Decoder {
    const tab: ProbTable
    const data: seq<Byte>   // the source
    var pos: nat            // next byte of the source
    var unreadMarker: int   // the marker code that ended the segment, or 0
    var c: int              // base of the coding interval, and the bits read ahead
    var a: int              // size of the coding interval; 0 until the first two bytes are in
    var ct: int             // number of bits read ahead; -16 at the start
    var stats: Stats

    ghost var before: seq<Byte>          // the source up to the segment
    ghost var raw: seq<Byte>             // the segment, unstuffed
    ghost var fill: nat                  // how many 0xFF bytes introduce the marker after it
    ghost var marker: Byte               // the code of that marker
    ghost var stats0: Stats              // statistics at the start of the segment
    ghost var script: seq<Decision>      // the decisions the segment was coded from
    ghost var k: nat                     // how many of them have been decoded
    ghost var m: nat                     // how many bytes have been fetched
    ghost var iv: Interval               // the current interval, renormalised lazily

    ghost predicate SourceValid()
      reads this
    {
      Placed(before, raw, fill, marker, data, m, pos, unreadMarker)
    }

    ghost predicate Valid()
      reads this
    {
      && SourceValid() && (Primed(raw, m, iv, a, c, ct) || Unprimed(raw, m, iv, a, c, ct))
      && Midway(tab, raw, stats0, script, k, iv, stats)
    }

    /** The source up to the end of the marker behind the segment. */
    ghost function Reached(): seq<Byte>
      reads this
    {
      before + Stuff(raw) + Repeat(0xFF, fill) + [marker]
    }

    /** The segment of `next` comes behind that, and then a marker. */
    ghost predicate Follows(next: seq<Byte>, marker': Byte)
      reads this
    {
      Reached() + Stuff(next) + [0xFF, marker'] <= data
    }

    lemma StatsAtEnd()
      requires Valid() && k == |script|
      ensures GoodStats(tab, stats0) && stats == Run(tab, Coder(UNIT, stats0), script).stats
    {
      assert script[..k] == script;
    }

    lemma Parts()
      requires Valid()
      ensures Placed(before, raw, fill, marker, data, m, pos, unreadMarker)
      ensures Midway(tab, raw, stats0, script, k, iv, stats)
      ensures Primed(raw, m, iv, a, c, ct) || Unprimed(raw, m, iv, a, c, ct)
    {
    }

    lemma Whole()
      requires Placed(before, raw, fill, marker, data, m, pos, unreadMarker)
      requires Midway(tab, raw, stats0, script, k, iv, stats)
      requires Primed(raw, m, iv, a, c, ct) || Unprimed(raw, m, iv, a, c, ct)
      ensures Valid()
    {
    }

    /** As set up by start_pass or process_restart, in front of a segment that was coded from `script`. */
    constructor (tab: ProbTable, data: seq<Byte>, pos: nat, stats: Stats, ghost raw: seq<Byte>, ghost fill: nat,
                 ghost marker: Byte, ghost script: seq<Decision>)
      requires pos <= |data| && fill > 0 && 0 < marker < 0xFF
      requires Stuff(raw) + Repeat(0xFF, fill) + [marker] <= data[pos..]
      requires GoodStats(tab, stats)
      requires Contains(Run(tab, Coder(UNIT, stats), script).iv, raw)
      ensures Valid() && k == 0 && this.script == script && this.tab == tab && this.data == data
      ensures before == data[..pos] && this.raw == raw && this.fill == fill && this.marker == marker && stats0 == stats
    {
      this.tab, this.data, this.pos, this.stats := tab, data, pos, stats;
      unreadMarker, c, a, ct := 0, 0, 0, -16;
      before, this.raw, this.fill, this.marker := data[..pos], raw, fill, marker;
      stats0, this.script := stats, script;
      k, m, iv := 0, 0, UNIT;
      new;
      AtStart(data, pos, raw, fill, marker);
      StartOfScript(tab, raw, stats, script);
    }

    /** The loop that swallows 0xFF bytes, behind a first one. */
    method AfterOnes() returns (c: Byte)
      requires m <= |raw| && pos > 0 && Placed(before, raw, fill, marker, data, m, pos - 1, 0)
      requires pos <= |data| && data[pos - 1] == 0xFF
      modifies `pos
      ensures m < |raw| ==> c == 0 && raw[m] == 0xFF && pos == old(pos) + 1
      ensures m == |raw| ==> c == marker != 0 && pos == old(pos) + fill
    {
      hide Placed;
      ItemAt(before, raw, fill, marker, data, m, pos - 1);
      ghost var first := pos;
      c := data[pos];
      pos := pos + 1;
      while c == 0xFF
        invariant first < pos <= |data| && c == data[pos - 1]
        invariant m < |raw| ==> c == 0 && pos == first + 1
        invariant m == |raw| ==> pos <= first + fill
        decreases |data| - pos
      {
        c := data[pos];
        pos := pos + 1;
      }
    }

    /** The byte fetch of `arith_decode`: unstuffs, and supplies zeros once a marker has been met. */
    method Fetch() returns (b: Byte)
      requires SourceValid()
      modifies `pos, `unreadMarker, `m
      ensures SourceValid() && m == old(m) + 1 && b == ByteAt(raw, old(m))
    {
      hide Placed;
      MarkerMet(before, raw, fill, marker, data, m, pos, unreadMarker);
      if unreadMarker != 0 {
        b := 0;
      } else {
        ItemAt(before, raw, fill, marker, data, m, pos);
        b := data[pos];
        pos := pos + 1;
        if b == 0xFF {
          b := AfterOnes();
          if b == 0 {
            b := 0xFF;
          } else {
            unreadMarker := b;
            b := 0;
          }
        }
      }
      m := m + 1;
    }

    /** The loop of section D.2.6 at the head of `arith_decode`. */
    method Renormalize()
      requires SourceValid() && (Primed(raw, m, iv, a, c, ct) || Unprimed(raw, m, iv, a, c, ct))
      modifies `pos, `unreadMarker, `m, `c, `a, `ct, `iv
      ensures SourceValid() && Primed(raw, m, iv, a, c, ct) && 0x8000 <= a
      ensures iv == Renorm(old(iv))
    {
      hide Placed, Prefix, Renorm, Reading;
      ghost var target := Renorm(iv);
      while a < 0x8000
        invariant SourceValid() && (Primed(raw, m, iv, a, c, ct) || Unprimed(raw, m, iv, a, c, ct))
        invariant Renorm(iv) == target
        decreases if a == 0 then 3 - m else 0, 0x8000 - a
      {
        ShiftLeft();
      }
      RenormNone(iv);
    }

    /** One round of the loop: a shift, with a byte fetched if no bits are left, and two at the start. */
    method ShiftLeft()
      requires SourceValid() && (Primed(raw, m, iv, a, c, ct) || Unprimed(raw, m, iv, a, c, ct)) && a < 0x8000
      modifies `pos, `unreadMarker, `m, `c, `a, `ct, `iv
      ensures SourceValid() && (Primed(raw, m, iv, a, c, ct) || Unprimed(raw, m, iv, a, c, ct))
      ensures Renorm(iv) == Renorm(old(iv))
      ensures if old(a) > 0 then a == 2 * old(a) else a == 0x10000 || (a == 0 && m == old(m) + 1)
    {
      hide Placed, Prefix, Renorm, Reading;
      ghost var m0, c0, iv0 := m, c, iv;
      ghost var next := Interval(2 * iv.low, 2 * iv.size, iv.shifts + 1);
      ghost var primed := a > 0;
      if primed {
        RenormStep(iv);
        ReadingCount(raw, m, iv, c, ct);
      }
      ct := ct - 1;
      if ct < 0 {
        var b := Fetch();
        PrefixNext(raw, m0);
        c := c * 256 + b;
        ct := ct + 8;
        if ct < 0 {
          ct := ct + 1;
          if ct == 0 {
            FirstTwo(raw, c);
            a := 0x8000;
          }
        } else {
          ReadingFetch(raw, m0, iv0, c0);
        }
      } else {
        ReadingShift(raw, m, iv, c, ct + 1);
      }
      iv := if primed then next else iv;
      a := 2 * a;
    }

    /** `next_marker` (`jdmarker.c`): skips what is left of the segment, up to the marker behind it. */
    method NextMarker()
      requires SourceValid() && unreadMarker == 0
      modifies `pos, `unreadMarker, `m
      ensures SourceValid() && unreadMarker == marker
    {
      hide Placed;
      MarkerMet(before, raw, fill, marker, data, m, pos, unreadMarker);
      var c: Byte;
      while true
        invariant SourceValid() && m <= |raw| && unreadMarker == 0
        decreases |raw| - m
      {
        SkipToOnes();
        ItemAt(before, raw, fill, marker, data, m, pos - 1);
        c := AfterOnes();
        if c != 0 {
          break;
        }
        m := m + 1;
      }
      unreadMarker := c;
      m := m + 1;
    }

    /** "Skip any non-FF bytes." */
    method SkipToOnes()
      requires SourceValid() && m <= |raw| && unreadMarker == 0
      modifies `pos, `m
      ensures old(m) <= m <= |raw| && 0 < pos <= |data| && data[pos - 1] == 0xFF
      ensures Placed(before, raw, fill, marker, data, m, pos - 1, 0)
    {
      hide Placed;
      ItemAt(before, raw, fill, marker, data, m, pos);
      var c := data[pos];
      pos := pos + 1;
      while c != 0xFF
        invariant old(m) <= m <= |raw| && 0 < pos <= |data| && c == data[pos - 1]
        invariant Placed(before, raw, fill, marker, data, m, pos - 1, 0)
        decreases |raw| - m
      {
        ItemAt(before, raw, fill, marker, data, m, pos - 1);
        m := m + 1;
        ItemAt(before, raw, fill, marker, data, m, pos);
        c := data[pos];
        pos := pos + 1;
      }
    }

    /** `read_restart_marker` (`jdmarker.c`). */
    method ReadRestartMarker(restartNum: nat) returns (ok: bool)
      requires SourceValid() && restartNum < 8
      modifies `pos, `unreadMarker, `m
      ensures ok <==> marker == 0xD0 + restartNum
      ensures ok ==> unreadMarker == 0
      ensures ok ==> pos == |Reached()| <= |data|
    {
      hide Placed, Stuff, Repeat;
      if unreadMarker == 0 {
        NextMarker();
      }
      MarkerMet(before, raw, fill, marker, data, m, pos, unreadMarker);
      ok := unreadMarker == 0xD0 + restartNum;
      if ok {
        unreadMarker := 0;
      }
    }

    /** "Re-initialize statistics areas" and "Reset arithmetic decoding variables". */
    method Reinitialize(dcTbls: set<nat>, acTbls: set<nat>)
      modifies `stats, `c, `a, `ct
      ensures stats == ClearStats(old(stats), dcTbls, acTbls) && c == a == 0 && ct == -16
    {
      stats := ClearStats(stats, dcTbls, acTbls);
      c, a, ct := 0, 0, -16;
    }

    ghost method EnterSegment(start: seq<Byte>, raw': seq<Byte>, marker': Byte, script': seq<Decision>)
      modifies `before, `raw, `fill, `marker, `stats0, `script, `k, `m, `iv
      ensures before == start && raw == raw' && fill == 1 && marker == marker' && stats0 == stats && script == script'
      ensures k == m == 0 && iv == UNIT
    {
      before, raw, fill, marker := start, raw', 1, marker';
      stats0, script := stats, script';
      k, m, iv := 0, 0, UNIT;
    }

    /** `process_restart`: goes on to the next segment, coded from `script'`, exactly if the marker in between is the
        expected one. */
    method ProcessRestart(restartNum: nat, dcTbls: set<nat>, acTbls: set<nat>, ghost raw': seq<Byte>,
                          ghost marker': Byte, ghost script': seq<Decision>)
      returns (ok: bool)
      requires Valid() && restartNum < 8 && 0 < marker' < 0xFF
      requires Follows(raw', marker')
      requires GoodStats(tab, ClearStats(stats, dcTbls, acTbls))
      requires Contains(Run(tab, Coder(UNIT, ClearStats(stats, dcTbls, acTbls)), script').iv, raw')
      modifies this
      ensures ok <==> old(marker) == 0xD0 + restartNum
      ensures ok ==> Valid() && k == 0 && script == script' && raw == raw' && fill == 1 && marker == marker'
      ensures ok ==> before == old(Reached())
      ensures ok ==> stats0 == ClearStats(old(stats), dcTbls, acTbls)
    {
      hide Placed, Stuff, Run, Renorm, Contains, Repeat, Reading, ClearStats, GoodStats, Midway, Prefix;
      hide Valid;
      ghost var start := Reached();
      Parts();
      AfterMarker(start, raw', marker', data);
      StartOfScript(tab, raw', ClearStats(stats, dcTbls, acTbls), script');
      ok := ReadRestartMarker(restartNum);
      if ok {
        Reinitialize(dcTbls, acTbls);
        EnterSegment(start, raw', marker', script');
        Whole();
      }
    }

    /** `arith_decode` after renormalisation, section D.2.4 and D.2.5. */
    method Choose(bin: Bin) returns (bit: bool)
      requires GoodState(tab, StatOf(stats, bin)) && ct >= 0
      modifies `c, `a, `stats
      ensures var sv := StatOf(old(stats), bin);
              var lower := old(a) - Qe(tab, sv);
              var above := old(c) >= lower * Pow2(ct);
              && a == (if above then Qe(tab, sv) else lower)
              && c == (if above then old(c) - lower * Pow2(ct) else old(c))
              && bit == ((above != (lower < Qe(tab, sv))) != MpsOf(sv))
              && stats == SetStat(old(stats), bin, NewState(tab, Interval(0, old(a), 0), sv, bit))
    {
      hide Pow2, NextState, StatOf, SetStat, NewState, Qe;
      var sv := StatOf(stats, bin);
      Fields(tab, a, sv);
      SetSame(stats, bin);
      var qe := tab[sv % 128];
      var nl := qe % 256;
      qe := qe / 256;
      var nm := qe % 256;
      qe := qe / 256;
      var temp := a - qe;
      a := temp;
      temp := temp * Pow2(ct);
      bit := sv >= 128;
      if c >= temp {
        c := c - temp;
        if a < qe {
          a := qe;
          stats := SetStat(stats, bin, NextState(sv, nm));
        } else {
          a := qe;
          stats := SetStat(stats, bin, NextState(sv, nl));
          bit := !bit;
        }
      } else if a < 0x8000 {
        if a < qe {
          stats := SetStat(stats, bin, NextState(sv, nl));
          bit := !bit;
        } else {
          stats := SetStat(stats, bin, NextState(sv, nm));
        }
      }
    }

    /** `arith_decode`: returns the decision that was coded at this place. */
    method Decode(bin: Bin) returns (bit: bool)
      requires Valid() && k < |script| && script[k].bin == bin
      modifies `pos, `unreadMarker, `m, `c, `a, `ct, `iv, `stats, `k
      ensures Valid() && k == old(k) + 1 && bit == script[old(k)].bit
    {
      hide Placed, Pow2, Renorm, Reading, SubInterval, StatOf, SetStat, Midway, GoodStats, NewState, Qe, Valid,
           Primed, Unprimed;
      Parts();
      MidwayRenorm(tab, raw, stats0, script, k, iv, stats);
      Renormalize();
      PrimedParts(raw, m, iv, a, c, ct);
      Decide(tab, raw, stats0, script, k, iv, stats, m, c, ct);
      ghost var sv := StatOf(stats, bin);
      SameNewState(tab, iv, sv, script[k].bit);
      iv, k := SubInterval(iv, Qe(tab, sv), script[k].bit != MpsOf(sv)), k + 1;
      bit := Choose(bin);
      PrimedAgain(raw, m, iv, a, c, ct);
      Whole();
    }
  }

  lemma PrimedParts(raw: seq<Byte>, m: nat, iv: Interval, a: int, c: int, ct: int)
    requires Primed(raw, m, iv, a, c, ct)
    ensures iv.size == a && iv.low >= 0 && a <= 0x10000 && Reading(raw, m, iv, c, ct)
  {
  }

  lemma PrimedAgain(raw: seq<Byte>, m: nat, iv: Interval, a: int, c: int, ct: int)
    requires iv.size == a && 0 < a <= 0x10000 && iv.low >= 0 && Reading(raw, m, iv, c, ct)
    ensures Primed(raw, m, iv, a, c, ct)
  {
  }

  ghost predicate Primed(raw: seq<Byte>, m: nat, iv: Interval, a: int, c: int, ct: int) {
    iv.size == a && 0 < a <= 0x10000 && iv.low >= 0 && Reading(raw, m, iv, c, ct)
  }

  ghost predicate Unprimed(raw: seq<Byte>, m: nat, iv: Interval, a: int, c: int, ct: int) {
    iv == UNIT && a == 0 && c == Prefix(raw, m) && ((ct == -16 && m == 0) || (ct == -8 && m == 1))
  }

  /** The segment was coded from `script`, of which `k` decisions have led to the interval `iv`. */
  ghost predicate Midway(tab: ProbTable, raw: seq<Byte>, stats0: Stats, script: seq<Decision>, k: nat, iv: Interval,
                         stats: Stats) {
    && GoodStats(tab, stats0) && k <= |script| && iv.size > 0
    && Contains(Run(tab, Coder(UNIT, stats0), script).iv, raw)
    && Run(tab, Coder(UNIT, stats0), script[..k]) == Coder(Renorm(iv), stats)
  }

  lemma ReadingCount(raw: seq<Byte>, m: nat, iv: Interval, c: int, ct: int)
    requires Reading(raw, m, iv, c, ct)
    ensures ct >= 0
  {
  }

  /** The first two bytes make up C. */
  lemma FirstTwo(raw: seq<Byte>, c: int)
    requires c == Prefix(raw, 2)
    ensures Reading(raw, 2, UNIT, c, 0)
  {
    hide Prefix;
    Pow2One();
  }

  lemma RenormStep(iv: Interval)
    requires 0 < iv.size < 0x8000
    ensures Renorm(iv) == Renorm(Interval(2 * iv.low, 2 * iv.size, iv.shifts + 1))
  {
  }

  lemma MidwayRenorm(tab: ProbTable, raw: seq<Byte>, stats0: Stats, script: seq<Decision>, k: nat, iv: Interval,
                     stats: Stats)
    requires Midway(tab, raw, stats0, script, k, iv, stats)
    ensures Midway(tab, raw, stats0, script, k, Renorm(iv), stats) && k <= |script|
  {
    hide Run, Contains, GoodStats;
    RenormTwice(iv);
  }

  /** What the next decision must be, and where it leads. */
  lemma Decide(tab: ProbTable, raw: seq<Byte>, stats0: Stats, script: seq<Decision>, k: nat, iv: Interval, stats: Stats,
               m: nat, c: int, ct: int)
    requires Midway(tab, raw, stats0, script, k, iv, stats) && k < |script| && Normal(iv) && Reading(raw, m, iv, c, ct)
    ensures GoodState(tab, StatOf(stats, script[k].bin)) && 0 <= ct
    ensures var d := script[k];
            var sv := StatOf(stats, d.bin);
            var qe := Qe(tab, sv);
            var lower := iv.size - qe;
            var above := c >= lower * Pow2(ct);
            var sub := SubInterval(iv, qe, d.bit != MpsOf(sv));
            && d.bit == ((above != (lower < qe)) != MpsOf(sv))
            && sub.size == (if above then qe else lower) && sub.low >= 0
            && Reading(raw, m, sub, if above then c - lower * Pow2(ct) else c, ct)
            && Midway(tab, raw, stats0, script, k + 1, sub, SetStat(stats, d.bin, NewState(tab, iv, sv, d.bit)))
  {
    hide Run, Contains, Reading, Decoded, Pow2, SetStat, StatOf, NewState;
    var d := script[k];
    RenormNone(iv);
    RunIsGood(tab, stats0, script[..k]);
    RunSnoc(tab, Coder(UNIT, stats0), script[..k], d);
    assert script[..k + 1] == script[..k] + [d];
    EveryDecisionDecodes(tab, Coder(UNIT, stats0), script, k, Coder(iv, stats), raw);
    SplitComparison(raw, m, iv, c, ct, tab, StatOf(stats, d.bin));
  }

  lemma RunIsGood(tab: ProbTable, stats0: Stats, ds: seq<Decision>)
    requires GoodStats(tab, stats0)
    ensures GoodStats(tab, Run(tab, Coder(UNIT, stats0), ds).stats)
  {
  }

  lemma StartOfScript(tab: ProbTable, raw: seq<Byte>, stats: Stats, script: seq<Decision>)
    requires GoodStats(tab, stats) && Contains(Run(tab, Coder(UNIT, stats), script).iv, raw)
    ensures Midway(tab, raw, stats, script, 0, UNIT, stats)
  {
    hide Contains, GoodStats;
    assert script[..0] == [];
  }

  /** The reader is in front of byte `m` of a segment, or behind the marker that follows the segment. */
  ghost predicate Placed(before: seq<Byte>, raw: seq<Byte>, fill: nat, marker: Byte, data: seq<Byte>, m: nat, pos: nat,
                         unread: int)
  {
    && fill > 0 && 0 < marker < 0xFF
    && before + Stuff(raw) + Repeat(0xFF, fill) + [marker] <= data
    && (if m <= |raw| then unread == 0 && pos == |before| + |StuffTo(raw, m)|
        else unread == marker && pos == |before| + |Stuff(raw)| + fill + 1)
  }

  lemma AtStart(data: seq<Byte>, pos: nat, raw: seq<Byte>, fill: nat, marker: Byte)
    requires pos <= |data| && fill > 0 && 0 < marker < 0xFF
    requires Stuff(raw) + Repeat(0xFF, fill) + [marker] <= data[pos..]
    ensures Placed(data[..pos], raw, fill, marker, data, 0, pos, 0) && Prefix(raw, 0) == 0
  {
    assert data == data[..pos] + data[pos..];
  }

  lemma AfterMarker(start: seq<Byte>, raw: seq<Byte>, marker: Byte, data: seq<Byte>)
    requires 0 < marker < 0xFF && start + Stuff(raw) + [0xFF, marker] <= data
    ensures Placed(start, raw, 1, marker, data, 0, |start|, 0) && Prefix(raw, 0) == 0
  {
    assert Repeat(0xFF, 1) == [0xFF];
    assert start + Stuff(raw) + [0xFF, marker] == start + Stuff(raw) + [0xFF] + [marker];
  }

  /** A marker has been met exactly if the segment is used up and one byte more has been asked for. */
  lemma MarkerMet(before: seq<Byte>, raw: seq<Byte>, fill: nat, marker: Byte, data: seq<Byte>, m: nat, pos: nat,
                  unread: int)
    requires Placed(before, raw, fill, marker, data, m, pos, unread)
    ensures unread == 0 <==> m <= |raw|
    ensures m > |raw| ==> unread == marker && Placed(before, raw, fill, marker, data, m + 1, pos, unread)
    ensures m > |raw| ==> pos == |before + Stuff(raw) + Repeat(0xFF, fill) + [marker]| <= |data|
  {
    hide Stuff, Repeat;
  }

  /** What the source holds at the place of byte `m` of a segment, and what comes after it. */
  lemma ItemAt(before: seq<Byte>, raw: seq<Byte>, fill: nat, marker: Byte, data: seq<Byte>, m: nat, pos: nat)
    requires Placed(before, raw, fill, marker, data, m, pos, 0) && m <= |raw|
    ensures pos + 1 < |data| && fill > 0 && 0 < marker < 0xFF
    ensures m < |raw| ==> data[pos] == raw[m]
    ensures m < |raw| && raw[m] != 0xFF ==> Placed(before, raw, fill, marker, data, m + 1, pos + 1, 0)
    ensures m < |raw| && raw[m] == 0xFF ==>
              data[pos + 1] == 0 && Placed(before, raw, fill, marker, data, m + 1, pos + 2, 0)
    ensures m == |raw| ==>
              && pos + fill < |data| && data[pos + fill] == marker
                 && (forall i :: pos <= i < pos + fill ==> data[i] == 0xFF)
              && Placed(before, raw, fill, marker, data, m + 1, pos + fill + 1, marker)
  {
    hide StuffTo, Repeat;
    if m < |raw| {
      StuffToGrows(raw, m + 1, |raw|);
      StuffToNext(raw, m);
      NextBytes(before, StuffTo(raw, m), raw[m], data);
    } else {
      TailBytes(before + Stuff(raw), fill, marker, data);
    }
  }

  lemma RenormTwice(iv: Interval)
    requires iv.size > 0
    ensures Renorm(Renorm(iv)) == Renorm(iv)
  {
  }

  lemma TailBytes(s: seq<Byte>, fill: nat, marker: Byte, data: seq<Byte>)
    requires s + Repeat(0xFF, fill) + [marker] <= data
    ensures forall i :: |s| <= i < |s| + fill ==> data[i] == 0xFF
    ensures data[|s| + fill] == marker
  {
  }

  lemma NextBytes(before: seq<Byte>, s: seq<Byte>, b: Byte, data: seq<Byte>)
    requires before + (s + StuffByte(b)) <= data
    ensures data[|before| + |s|] == b
    ensures b == 0xFF ==> |before| + |s| + 1 < |data| && data[|before| + |s| + 1] == 0
  {
  }

  lemma StuffToNext(raw: seq<Byte>, m: nat)
    requires m < |raw|
    ensures StuffTo(raw, 0) == []
    ensures StuffTo(raw, m + 1) == StuffTo(raw, m) + StuffByte(raw[m])
  {
  }

  lemma PrefixNext(raw: seq<Byte>, m: nat)
    ensures Prefix(raw, 0) == 0
    ensures Prefix(raw, m + 1) == Prefix(raw, m) * 256 + ByteAt(raw, m)
  {
  }
}
