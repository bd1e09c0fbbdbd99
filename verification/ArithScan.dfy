/** The entropy encoder and decoder objects of `jcarith.c` and `jdarith.c`: whole MCUs, with DC prediction
    and restart intervals. */
module ArithScan {
  import opened Numbers
  import opened ByteStuffing
  import opened AritTable
  import opened IntervalCoder
  import opened ArithModel
  import opened ArithEncoder
  import opened ArithDecoder
  import opened ArithMcuEncoder
  import opened ArithMcuDecoder

  /** DC values and contexts are coded: in a sequential scan and in the first DC scan of a progressive image. */
  predicate CodesDc(progressive: bool, ss: nat, ah: nat) {
    !progressive || (ss == 0 && ah == 0)
  }

  /** The statistics areas that a restart clears. */
  function ClearedDc(l: McuLayout, progressive: bool, ss: nat, ah: nat): set<nat> {
    if CodesDc(progressive, ss, ah) then set ci | 0 <= ci < |l.dc| :: l.dc[ci].tbl else {}
  }

  /** The encoder asks whether Se is nonzero, the decoder whether Ss is. */
  function ClearedAc(l: McuLayout, progressive: bool, bound: nat): set<nat> {
    if !progressive || bound > 0 then set ci | 0 <= ci < |l.ac| :: l.ac[ci].tbl else {}
  }

  class ScanEncoder {
    const e: Encoder
    const layout: McuLayout
    const progressive: bool
    const ss: nat
    const se: nat
    const ah: nat
    const al: nat
    const restartInterval: nat
    var lastDcVal: seq<int>
    var dcContext: seq<nat>
    var restartsToGo: nat
    var nextRestartNum: nat

    ghost predicate Valid()
      reads this, e
    {
      && e.Valid()
      && GoodLayout(layout) && GoodPrediction(layout, Prediction(lastDcVal, dcContext))
      && ss <= se < 64
      && nextRestartNum < 8
    }

    ghost function Now(): Prediction
      reads this
    {
      Prediction(lastDcVal, dcContext)
    }

    /** `start_pass`, in front of the first segment of a scan. */
    constructor (tab: ProbTable, layout: McuLayout, progressive: bool, ss: nat, se: nat, ah: nat, al: nat,
                 restartInterval: nat)
      requires GoodState(tab, 0) && GoodState(tab, 113) && GoodLayout(layout) && ss <= se < 64
      ensures Valid() && fresh(e) && e.tab == tab && e.log == [] && e.out == e.base == [] && e.stats0 == map[]
      ensures this.layout == layout && this.progressive == progressive && this.restartInterval == restartInterval
      ensures this.ss == ss && this.se == se && this.ah == ah && this.al == al
      ensures restartsToGo == restartInterval && nextRestartNum == 0
      ensures Now() == Prediction(seq(|layout.dc|, _ => 0), seq(|layout.dc|, _ => 0))
    {
      this.layout, this.progressive, this.restartInterval := layout, progressive, restartInterval;
      this.ss, this.se, this.ah, this.al := ss, se, ah, al;
      lastDcVal, dcContext := seq(|layout.dc|, _ => 0), seq(|layout.dc|, _ => 0);
      restartsToGo, nextRestartNum := restartInterval, 0;
      e := new Encoder(tab);
    }

    /** What the DC state is after a restart. */
    ghost function Restarted(): Prediction
      reads this
    {
      if CodesDc(progressive, ss, ah) then Prediction(seq(|lastDcVal|, _ => 0), seq(|dcContext|, _ => 0)) else Now()
    }

    /** "Emit restart marker if needed": closes the segment exactly when the interval is used up. */
    method CheckRestart() returns (ghost seg: seq<Byte>)
      requires Valid()
      modifies this, e
      ensures Valid()
      ensures var due := restartInterval > 0 && old(restartsToGo) == 0;
              && (due ==> e.log == [] && Now() == old(Restarted()))
              && (due ==> e.stats0 == ClearStats(old(e.stats), ClearedDc(layout, progressive, ss, ah),
                                                 ClearedAc(layout, progressive, se)))
              && (!due ==> e.stats0 == old(e.stats0))
              && (due ==> e.out == e.base == old(e.base) + Stuff(seg) + [0xFF] + [0xD0 + old(nextRestartNum)])
              && (due ==> Contains(Run(e.tab, Coder(UNIT, old(e.stats0)), old(e.log)).iv, seg))
              && (!due ==> e.log == old(e.log) && e.base == old(e.base) && Now() == old(Now()))
              && nextRestartNum == (if due then (old(nextRestartNum) + 1) % 8 else old(nextRestartNum))
              && restartsToGo == (if restartInterval == 0 then old(restartsToGo)
                                  else (if due then restartInterval else old(restartsToGo)) - 1)
    {
      hide Encoder.Valid, Contains, Run, Stuff;
      seg := [];
      if restartInterval > 0 {
        if restartsToGo == 0 {
          var dcTbls: set<nat>, acTbls: set<nat> := {}, {};
          if CodesDc(progressive, ss, ah) {
            dcTbls := set ci | 0 <= ci < |layout.dc| :: layout.dc[ci].tbl;
          }
          if !progressive || se > 0 {
            acTbls := set ci | 0 <= ci < |layout.ac| :: layout.ac[ci].tbl;
          }
          seg := e.EmitRestart(nextRestartNum, dcTbls, acTbls);
          if CodesDc(progressive, ss, ah) {
            lastDcVal := seq(|lastDcVal|, _ => 0);
            dcContext := seq(|dcContext|, _ => 0);
          }
          restartsToGo := restartInterval;
          nextRestartNum := (nextRestartNum + 1) % 8;
        }
        restartsToGo := restartsToGo - 1;
      }
    }

    /** `encode_mcu` (sequential) and `encode_mcu_DC_first`, after the restart check. */
    method EncodeDcBlocks(mcu: seq<Block>)
      requires Valid() && |mcu| == |layout.membership|
      modifies `lastDcVal, `dcContext, e
      ensures Valid() && e.base == old(e.base) && e.stats0 == old(e.stats0)
      ensures e.log == old(e.log) + McuDecisions(layout, old(Now()), mcu, 0, al, !progressive)
      ensures Now() == McuPrediction(layout, old(Now()), mcu, 0, al)
    {
      hide Encoder.Valid, BlockDecisions, McuDecisions, McuPrediction, Predict;
      ghost var goal := e.log + McuDecisions(layout, Now(), mcu, 0, al, !progressive);
      var blkn := 0;
      while blkn < |mcu|
        invariant Valid() && blkn <= |mcu| && e.base == old(e.base) && e.stats0 == old(e.stats0)
        invariant e.log + McuDecisions(layout, Now(), mcu, blkn, al, !progressive) == goal
        invariant McuPrediction(layout, Now(), mcu, blkn, al) == McuPrediction(layout, old(Now()), mcu, 0, al)
      {
        BlockFirst(layout, Now(), mcu, blkn, al, !progressive, e.log);
        EncodeBlock(mcu[blkn], blkn);
        blkn := blkn + 1;
      }
      NoBlocks(e.log, layout, Now(), mcu, al, !progressive);
    }

    /** The body of the block loop. */
    method EncodeBlock(b: Block, blkn: nat)
      requires Valid() && blkn < |layout.membership|
      modifies `lastDcVal, `dcContext, e
      ensures Valid() && e.base == old(e.base) && e.stats0 == old(e.stats0)
      ensures e.log == old(e.log) + BlockDecisions(layout, old(Now()), blkn, b, al, !progressive)
      ensures Now() == Predict(layout, old(Now()), blkn, b, al)
    {
      hide Encoder.Valid, DcDecisions, AcDecisions, DcContext, LastNonzero;
      ghost var log, p := e.log, Now();
      var ci := layout.membership[blkn];
      var m := PointDc(b[0], al);
      var ctx := EncodeDcDiff(e, layout.dc[ci], dcContext[ci], m - lastDcVal[ci]);
      dcContext := dcContext[ci := ctx];
      if m - lastDcVal[ci] != 0 {
        lastDcVal := lastDcVal[ci := m];
      }
      if !progressive {
        EncodeAcFirst(e, layout.ac[ci], b, 1, 63, 0);
      }
      BlockParts(log, layout, p, blkn, b, al, !progressive);
    }

    /** `encode_mcu_DC_refine`, after the restart check. */
    method EncodeDcRefine(mcu: seq<Block>)
      requires Valid()
      modifies e
      ensures Valid() && e.base == old(e.base) && e.stats0 == old(e.stats0)
      ensures e.log == old(e.log) + DcBits(mcu, 0, al)
    {
      hide Encoder.Valid, PointDc;
      ghost var goal := e.log + DcBits(mcu, 0, al);
      var blkn := 0;
      while blkn < |mcu|
        invariant Valid() && blkn <= |mcu| && e.base == old(e.base) && e.stats0 == old(e.stats0)
        invariant e.log + DcBits(mcu, blkn, al) == goal
      {
        var bit := PointDc(mcu[blkn][0], al) % 2 == 1;
        AppendOne(e.log, Decision(FixedBin, bit), DcBits(mcu, blkn + 1, al));
        e.Encode(FixedBin, bit);
        blkn := blkn + 1;
      }
    }
  }

  lemma BlockFirst(l: McuLayout, p: Prediction, mcu: seq<Block>, i: nat, al: nat, sequential: bool, log: seq<Decision>)
    requires GoodLayout(l) && GoodPrediction(l, p) && i < |mcu| == |l.membership|
    ensures var next := Predict(l, p, i, mcu[i], al);
            && log + McuDecisions(l, p, mcu, i, al, sequential)
               == (log + BlockDecisions(l, p, i, mcu[i], al, sequential))
                  + McuDecisions(l, next, mcu, i + 1, al, sequential)
            && McuPrediction(l, p, mcu, i, al) == McuPrediction(l, next, mcu, i + 1, al)
  {
    hide BlockDecisions, Predict;
    var later := McuDecisions(l, Predict(l, p, i, mcu[i], al), mcu, i + 1, al, sequential);
    Assoc(log, BlockDecisions(l, p, i, mcu[i], al, sequential), later);
  }

  lemma NoBlocks(log: seq<Decision>, l: McuLayout, p: Prediction, mcu: seq<Block>, al: nat, sequential: bool)
    requires GoodLayout(l) && GoodPrediction(l, p) && |mcu| == |l.membership|
    ensures log + McuDecisions(l, p, mcu, |mcu|, al, sequential) == log && McuPrediction(l, p, mcu, |mcu|, al) == p
  {
  }

  lemma BlockParts(log: seq<Decision>, l: McuLayout, p: Prediction, i: nat, b: Block, al: nat, sequential: bool)
    requires GoodLayout(l) && GoodPrediction(l, p) && i < |l.membership|
    ensures var ci := l.membership[i];
            var dc := log + DcDecisions(l.dc[ci], p.ctx[ci], DcDiff(l, p, i, b, al));
            log + BlockDecisions(l, p, i, b, al, sequential)
            == if sequential then dc + AcDecisions(l.ac[ci], b, 0, 1, LastNonzero(b, 0, 63), 63) else dc
  {
    hide DcDecisions, AcDecisions, LastNonzero, DcDiff;
  }

  /** `(JCOEF)x`: the low 16 bits as a signed number. */
  function ToShort(x: int): int {
    (x + 0x8000) % 0x10000 - 0x8000
  }

  /** A DC value kept modulo 2^16, scaled and stored as a JCOEF, is the transmitted value. */
  lemma ShortDc(last: int, x: int, al: nat)
    requires IsCoef(x) && al <= 15 && last == PointDc(x, al) % 0x10000
    ensures ToShort(last * Pow2(al)) == TruncDc(x, al)
  {
    var m, p := PointDc(x, al), Pow2(al);
    Pow2Values();
    Pow2Add(15 - al, al);
    FloorInRange(x, p, Pow2(15 - al));
    var q := m / 0x10000;
    assert last * p == m * p + 0x10000 * (-q * p) by {
      assert last == m - 0x10000 * q;
      ShiftedProduct(m, q, p);
    }
    ShortPeriod(m * p, -q * p);
  }

  lemma ShiftedProduct(m: int, q: int, p: int)
    ensures (m - 0x10000 * q) * p == m * p + 0x10000 * (-q * p)
  {
  }

  lemma FloorInRange(x: int, p: nat, r: nat)
    requires p > 0 && r * p == 0x8000 && IsCoef(x)
    ensures IsCoef(x / p * p)
  {
    var m := x / p;
    assert x == p * m + x % p;
    MulCompare(m + 1, 0 - r, p);
    assert (m + 1) * p == m * p + p;
    assert (0 - r) * p == -0x8000;
    if m < 0 - r {
      assert false;
    }
    MulCompare(0 - r, m, p);
  }

  lemma ShortPeriod(y: int, z: int)
    requires IsCoef(y)
    ensures ToShort(y + 0x10000 * z) == y
  {
  }

  /** `sent` with the low `al` bits gone; only the DC coefficient unless the scan is sequential. */
  ghost predicate BlockReceived(blk: Block, blk0: Block, sent: Block, al: nat, sequential: bool) {
    && blk[0] == TruncDc(sent[0], al)
    && forall j :: 1 <= j < 64 ==> blk[j] == if sequential then sent[j] else blk0[j]
  }

  class ScanDecoder {
    const d: Decoder
    const layout: McuLayout
    const progressive: bool
    const ss: nat
    const se: nat
    const ah: nat
    const al: nat
    const restartInterval: nat
    var lastDcVal: seq<int>
    var dcContext: seq<nat>
    var restartsToGo: nat
    var nextRestartNum: nat

    constructor (d: Decoder, layout: McuLayout, progressive: bool, ss: nat, se: nat, ah: nat, al: nat,
                 restartInterval: nat)
      ensures this.d == d && this.layout == layout && this.progressive == progressive
      ensures this.restartInterval == restartInterval
      ensures this.ss == ss && this.se == se && this.ah == ah && this.al == al
      ensures restartsToGo == restartInterval && nextRestartNum == 0
      ensures Matches(Prediction(seq(|layout.dc|, _ => 0), seq(|layout.dc|, _ => 0)))
    {
      this.d, this.layout, this.progressive, this.restartInterval := d, layout, progressive, restartInterval;
      this.ss, this.se, this.ah, this.al := ss, se, ah, al;
      lastDcVal, dcContext := seq(|layout.dc|, _ => 0), seq(|layout.dc|, _ => 0);
      restartsToGo, nextRestartNum := restartInterval, 0;
    }

    /** A restart is due before the next MCU. */
    ghost predicate Due()
      reads this
    {
      restartInterval > 0 && restartsToGo == 0
    }

    ghost function Cleared(): Stats
      reads this, d
    {
      ClearStats(d.stats, ClearedDc(layout, progressive, ss, ah), ClearedAc(layout, progressive, ss))
    }

    /** "Process restart marker if needed", with `process_restart` and `read_restart_marker`. */
    method CheckRestart(ghost raw: seq<Byte>, ghost marker: Byte, ghost script: seq<Decision>) returns (ok: bool)
      requires d.Valid() && nextRestartNum < 8
      requires Due() ==> 0 < marker < 0xFF && d.Follows(raw, marker) && GoodStats(d.tab, Cleared())
      requires Due() ==> Contains(Run(d.tab, Coder(UNIT, Cleared()), script).iv, raw)
      modifies this, d
      ensures !old(Due()) ==> ok && unchanged(d) && unchanged(`lastDcVal, `dcContext, `nextRestartNum)
      ensures old(Due()) ==> (ok <==> old(d.marker) == 0xD0 + old(nextRestartNum))
      ensures old(Due()) && ok ==> d.Valid() && d.k == 0 && d.script == script && d.raw == raw && d.marker == marker
      ensures old(Due()) && ok ==> d.before == old(d.Reached()) && d.fill == 1 && d.stats0 == old(Cleared())
      ensures old(Due()) && ok ==> nextRestartNum == (old(nextRestartNum) + 1) % 8
      ensures old(Due()) && ok && CodesDc(progressive, ss, ah) ==>
                Matches(Prediction(seq(|layout.dc|, _ => 0), seq(|layout.dc|, _ => 0)))
      ensures old(Due()) && ok && !CodesDc(progressive, ss, ah) ==> unchanged(`lastDcVal, `dcContext)
      ensures restartInterval == 0 ==> unchanged(`restartsToGo)
      ensures ok && restartInterval > 0 ==>
              restartsToGo == (if old(Due()) then restartInterval else old(restartsToGo)) - 1
    {
      hide Decoder.Valid, Contains, Run, Stuff, ClearStats, GoodStats, ClearedDc, ClearedAc;
      ok := true;
      if restartInterval > 0 {
        if restartsToGo == 0 {
          ok := d.ProcessRestart(nextRestartNum, ClearedDc(layout, progressive, ss, ah),
                                 ClearedAc(layout, progressive, ss), raw, marker, script);
          if !ok {
            return;
          }
          nextRestartNum := (nextRestartNum + 1) % 8;
          if CodesDc(progressive, ss, ah) {
            lastDcVal, dcContext := seq(|layout.dc|, _ => 0), seq(|layout.dc|, _ => 0);
          }
          restartsToGo := restartInterval;
        }
        restartsToGo := restartsToGo - 1;
      }
    }

    /** The decoder's DC state agrees with the encoder's, modulo 2^16. */
    ghost predicate Matches(p: Prediction)
      reads this
    {
      && |lastDcVal| == |p.last| && dcContext == p.ctx
      && forall ci :: 0 <= ci < |p.last| ==> lastDcVal[ci] == p.last[ci] % 0x10000
    }

    /** `decode_mcu` and `decode_mcu_DC_first`: fails exactly on a DC difference outside [-0x8000, 0x8000]. */
    method DecodeDcBlocks(blks0: seq<Block>, ghost p0: Prediction, ghost mcu: seq<Block>, ghost rest: seq<Decision>)
      returns (ok: bool, blks: seq<Block>)
      requires d.Valid() && GoodLayout(layout) && GoodPrediction(layout, p0) && Matches(p0)
      requires |blks0| == |mcu| == |layout.membership| && al <= 15 && (!progressive ==> al == 0)
      requires forall i :: 0 <= i < |mcu| ==> IsBlock(mcu[i])
      requires !progressive ==> forall i, j :: 0 <= i < |mcu| && 1 <= j < 64 ==> blks0[i][j] == 0
      requires Next(d.script, d.k, McuDecisions(layout, p0, mcu, 0, al, !progressive) + rest)
      modifies `lastDcVal, `dcContext, d`pos, d`unreadMarker, d`m, d`c, d`a, d`ct, d`iv, d`stats, d`k
      ensures ok <==> DcInRange(layout, p0, mcu, 0, al)
      ensures ok ==> d.Valid() && Next(d.script, d.k, rest) && Matches(McuPrediction(layout, p0, mcu, 0, al))
      ensures ok ==> |blks| == |mcu| &&
                     forall i :: 0 <= i < |mcu| ==> BlockReceived(blks[i], blks0[i], mcu[i], al, !progressive)
      ensures !ok ==> d.ct == -1
    {
      hide Decoder.Valid, Next, McuDecisions, BlockReceived, Predict;
      ok, blks := true, blks0;
      ghost var p := p0;
      var blkn := 0;
      while blkn < |layout.membership|
        invariant d.Valid() && ok && blkn <= |mcu| && GoodPrediction(layout, p) && Matches(p)
        invariant Next(d.script, d.k, McuDecisions(layout, p, mcu, blkn, al, !progressive) + rest)
        invariant DcInRange(layout, p, mcu, blkn, al) <==> DcInRange(layout, p0, mcu, 0, al)
        invariant McuPrediction(layout, p, mcu, blkn, al) == McuPrediction(layout, p0, mcu, 0, al)
        invariant |blks| == |mcu| && forall i :: blkn <= i < |mcu| ==> blks[i] == blks0[i]
        invariant forall i :: 0 <= i < blkn ==> BlockReceived(blks[i], blks0[i], mcu[i], al, !progressive)
      {
        assert IsBlock(mcu[blkn]);
        ghost var p' := Predict(layout, p, blkn, mcu[blkn], al);
        var blk;
        ok, blk := DecodeBlock(blks[blkn], blkn, p, mcu,
                               McuDecisions(layout, p', mcu, blkn + 1, al, !progressive) + rest, rest);
        if !ok {
          return;
        }
        blks := blks[blkn := blk];
        p := p';
        blkn := blkn + 1;
      }
      McuDone(layout, p, mcu, al, !progressive, rest);
    }

    /** One block of the MCU. */
    method DecodeBlock(blk0: Block, blkn: nat, ghost p: Prediction, ghost mcu: seq<Block>, ghost later: seq<Decision>,
                       ghost rest: seq<Decision>)
      returns (ok: bool, blk: Block)
      requires d.Valid() && GoodLayout(layout) && GoodPrediction(layout, p) && Matches(p)
      requires blkn < |mcu| == |layout.membership| && al <= 15 && (!progressive ==> al == 0) && IsBlock(mcu[blkn])
      requires !progressive ==> forall j :: 1 <= j < 64 ==> blk0[j] == 0
      requires later ==
               McuDecisions(layout, Predict(layout, p, blkn, mcu[blkn], al), mcu, blkn + 1, al, !progressive) + rest
      requires Next(d.script, d.k, McuDecisions(layout, p, mcu, blkn, al, !progressive) + rest)
      modifies `lastDcVal, `dcContext, d`pos, d`unreadMarker, d`m, d`c, d`a, d`ct, d`iv, d`stats, d`k
      ensures ok <==> -0x8000 <= DcDiff(layout, p, blkn, mcu[blkn], al) <= 0x8000
      ensures ok ==> d.Valid() && Next(d.script, d.k, later) && Matches(Predict(layout, p, blkn, mcu[blkn], al))
      ensures ok ==> BlockReceived(blk, blk0, mcu[blkn], al, !progressive)
      ensures !ok ==> d.ct == -1
    {
      hide Decoder.Valid, Next, McuDecisions, DcDecisions, AcDecisions, DcContext, LastNonzero, Pow2, PointDc, ToShort;
      ghost var b := mcu[blkn];
      var ci := layout.membership[blkn];
      ghost var diff := DcDiff(layout, p, blkn, b, al);
      ghost var ac := if progressive then [] else AcDecisions(layout.ac[ci], b, 0, 1, LastNonzero(b, 0, 63), 63);
      BlockNext(layout, p, mcu, blkn, al, !progressive, rest);
      var v, ctx;
      ok, v, ctx := DecodeDcDiff(d, layout.dc[ci], dcContext[ci], diff, ac + later);
      blk := blk0;
      if !ok {
        return;
      }
      dcContext := dcContext[ci := ctx];
      if v != 0 {
        SumMod(p.last[ci], v);
        lastDcVal := lastDcVal[ci := (lastDcVal[ci] + v) % 0x10000];
      }
      ShortDc(lastDcVal[ci], b[0], al);
      blk := blk[0 := ToShort(lastDcVal[ci] * Pow2(al))];
      if !progressive {
        ok, blk := DecodeAcFirst(d, layout.ac[ci], blk, 1, 63, 0, b, later);
        forall j | 1 <= j < 64
          ensures blk[j] == b[j]
        {
          TruncNothing(b[j]);
        }
      } else {
        assert [] + later == later;
      }
    }

    /** `decode_mcu_DC_refine`. Every block gets its bit; a block that holds its DC value without the low Al + 1 bits
        then holds one bit more. */
    method DecodeDcRefine(blks0: seq<Block>, ghost mcu: seq<Block>, ghost rest: seq<Decision>)
      returns (blks: seq<Block>)
      requires d.Valid() && |blks0| == |mcu|
      requires Next(d.script, d.k, DcBits(mcu, 0, al) + rest)
      modifies d`pos, d`unreadMarker, d`m, d`c, d`a, d`ct, d`iv, d`stats, d`k
      ensures d.Valid() && Next(d.script, d.k, rest)
      ensures |blks| == |mcu|
      ensures forall i :: 0 <= i < |mcu| ==> blks[i] == WithBit(blks0[i], PointDc(mcu[i][0], al) % 2 == 1, al)
      ensures forall i :: 0 <= i < |mcu| ==> DcRefined(blks[i], blks0[i], mcu[i], al)
    {
      hide Decoder.Valid, Next, PointDc, Pow2, TruncDc, DcRefined, SetBit;
      blks := blks0;
      var p1 := Pow2(al);
      var blkn := 0;
      while blkn < |blks|
        invariant d.Valid() && blkn <= |mcu| == |blks|
        invariant Next(d.script, d.k, DcBits(mcu, blkn, al) + rest)
        invariant forall i :: blkn <= i < |mcu| ==> blks[i] == blks0[i]
        invariant forall i :: 0 <= i < blkn ==> blks[i] == WithBit(blks0[i], PointDc(mcu[i][0], al) % 2 == 1, al)
        invariant forall i :: 0 <= i < blkn ==> DcRefined(blks[i], blks0[i], mcu[i], al)
      {
        ghost var bit0 := PointDc(mcu[blkn][0], al) % 2 == 1;
        Unfold(Decision(FixedBin, bit0), DcBits(mcu, blkn + 1, al), rest);
        NextHead(d.script, d.k, Decision(FixedBin, bit0), DcBits(mcu, blkn + 1, al) + rest);
        BitRefines(blks[blkn], mcu[blkn], al);
        var bit := d.Decode(FixedBin);
        if bit {
          blks := blks[blkn := blks[blkn][0 := SetBit(blks[blkn][0], p1)]];
        }
        blkn := blkn + 1;
      }
      assert [] + rest == rest;
    }
  }

  /** `|= p` on a number in two's complement, for a power of two. */
  function SetBit(x: int, p: int): int
    requires p > 0
  {
    if x / p % 2 == 1 then x else x + p
  }

  /** The bit of weight `p` is set, the bits above and below are as they were. */
  lemma SetBitIs(x: int, p: int)
    requires p > 0
    ensures SetBit(x, p) / p % 2 == 1 && SetBit(x, p) / p / 2 == x / p / 2 && SetBit(x, p) % p == x % p
    ensures SetBit(SetBit(x, p), p) == SetBit(x, p)
  {
    var q, r := x / p, x % p;
    assert x == p * q + r;
    assert x + p == p * (q + 1) + r;
    DivUnique(x + p, p, q + 1, r);
  }

  function WithBit(b: Block, bit: bool, al: nat): Block {
    if bit then b[0 := SetBit(b[0], Pow2(al))] else b
  }

  ghost predicate DcRefined(blk: Block, blk0: Block, sent: Block, al: nat) {
    blk0[0] == TruncDc(sent[0], al + 1) ==> BlockReceived(blk, blk0, sent, al, false)
  }

  lemma BitRefines(blk0: Block, sent: Block, al: nat)
    ensures DcRefined(WithBit(blk0, PointDc(sent[0], al) % 2 == 1, al), blk0, sent, al)
  {
    hide TruncDc, PointDc, SetBit, Pow2;
    RefinedDc(sent[0], al);
  }

  /** Bit `al` is clear in the value received so far; setting it adds 2^al. */
  lemma RefinedDc(x: int, al: nat)
    ensures TruncDc(x, al)
            == if PointDc(x, al) % 2 == 1 then SetBit(TruncDc(x, al + 1), Pow2(al)) else TruncDc(x, al + 1)
  {
    var p := Pow2(al);
    var v := x / p;
    Halve(x, p);
    assert v == 2 * (v / 2) + v % 2;
    ScaleBit(v / 2, v % 2, p);
    EvenMultiple(v / 2, p);
  }

  lemma EvenMultiple(h: int, p: int)
    requires p > 0
    ensures h * (2 * p) / p % 2 == 0
  {
    MulAssoc(h, 2, p);
    DivUnique(h * (2 * p), p, 2 * h, 0);
  }

  lemma SumMod(a: int, v: int)
    ensures (a % 0x10000 + v) % 0x10000 == (a + v) % 0x10000
  {
  }

  lemma McuDone(l: McuLayout, p: Prediction, mcu: seq<Block>, al: nat, sequential: bool, rest: seq<Decision>)
    requires GoodLayout(l) && GoodPrediction(l, p) && |mcu| == |l.membership|
    ensures McuDecisions(l, p, mcu, |mcu|, al, sequential) + rest == rest
  {
  }

  lemma BlockNext(l: McuLayout, p: Prediction, mcu: seq<Block>, i: nat, al: nat, sequential: bool, rest: seq<Decision>)
    requires GoodLayout(l) && GoodPrediction(l, p) && i < |mcu| == |l.membership|
    ensures var ci := l.membership[i];
            var dc := DcDecisions(l.dc[ci], p.ctx[ci], DcDiff(l, p, i, mcu[i], al));
            var ac := if sequential then AcDecisions(l.ac[ci], mcu[i], 0, 1, LastNonzero(mcu[i], 0, 63), 63) else [];
            var later := McuDecisions(l, Predict(l, p, i, mcu[i], al), mcu, i + 1, al, sequential);
            McuDecisions(l, p, mcu, i, al, sequential) + rest == dc + (ac + (later + rest))
  {
    hide DcDecisions, AcDecisions, Predict, LastNonzero, DcDiff;
    var ci := l.membership[i];
    var dc := DcDecisions(l.dc[ci], p.ctx[ci], DcDiff(l, p, i, mcu[i], al));
    var ac := if sequential then AcDecisions(l.ac[ci], mcu[i], 0, 1, LastNonzero(mcu[i], 0, 63), 63) else [];
    var later := McuDecisions(l, Predict(l, p, i, mcu[i], al), mcu, i + 1, al, sequential);
    assert McuDecisions(l, p, mcu, i, al, sequential) == (dc + ac) + later;
    assert ((dc + ac) + later) + rest == dc + (ac + (later + rest));
  }
}
