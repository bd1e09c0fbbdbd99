/** `SessionRecorder.java`: recording a session as FBS data records with timestamps. */
module SessionRecorder {
  import opened Numbers

  /** Byte `k` of an int, least significant first: `(byte)(v >> 8 * k)`. */
  function ByteOf(v: int, k: nat): Byte {
    v / Pow2(8 * k) % 256
  }

  /** `DataOutputStream.writeInt`. */
  function IntBytes(v: int): (s: seq<Byte>)
    ensures |s| == 4
  {
    [ByteOf(v, 3), ByteOf(v, 2), ByteOf(v, 1), ByteOf(v, 0)]
  }

  /** Reading a 32-bit value back, without and with sign. */
  function ReadUnsigned(s: seq<Byte>): nat
    requires |s| == 4
  {
    var a: nat, b: nat, c: nat, d: nat := s[0], s[1], s[2], s[3];
    a * 0x100_0000 + b * 0x1_0000 + c * 0x100 + d
  }

  function ReadInt(s: seq<Byte>): int
    requires |s| == 4
  {
    var u := ReadUnsigned(s);
    if u >= 0x8000_0000 then u - 0x1_0000_0000 else u
  }

  /** `(int)v` for a long. */
  function ToInt(v: int): int {
    (v + 0x8000_0000) % 0x1_0000_0000 - 0x8000_0000
  }

  lemma BytesOf(v: int)
    ensures ByteOf(v, 0) == v % 0x100 && ByteOf(v, 1) == v / 0x100 % 0x100
    ensures ByteOf(v, 2) == v / 0x1_0000 % 0x100 && ByteOf(v, 3) == v / 0x100_0000 % 0x100
  {
    hide Pow2;
    Pow2Values();
    Pow2One();
  }

  lemma LowDigits(v: int, u: nat)
    requires u == v / 0x100_0000 % 0x100 * 0x100_0000 + v / 0x1_0000 % 0x100 * 0x1_0000 + v / 0x100 % 0x100 * 0x100
             + v % 0x100
    ensures u < 0x1_0000_0000 && (v - u) % 0x1_0000_0000 == 0
  {
    var q1, q2, q3 := v / 0x100, v / 0x1_0000, v / 0x100_0000;
    assert q2 == q1 / 0x100;
    assert q3 == q2 / 0x100;
  }

  lemma SignBit(v: int, u: nat)
    requires u < 0x1_0000_0000 && (v - u) % 0x1_0000_0000 == 0
    ensures ToInt(v) == if u >= 0x8000_0000 then u - 0x1_0000_0000 else u
  {
  }

  /** A written int is read back as the 32-bit value it was cut to. */
  lemma IntRoundTrip(v: int)
    ensures ReadInt(IntBytes(v)) == ToInt(v)
  {
    hide ByteOf, ToInt;
    BytesOf(v);
    var u := ReadUnsigned(IntBytes(v));
    LowDigits(v, u);
    SignBit(v, u);
  }

  /** `(n + 3) & 0x7FFFFFFC` for an int: the sign bit is masked off. */
  function RoundUp4(n: nat): nat {
    (n + 3) % 0x8000_0000 / 4 * 4
  }

  /** One record of the file: its payload, the bytes that pad it, and the time offset it belongs to. */
  datatype Record = Record(payload: seq<Byte>, padding: seq<Byte>, offset: int)

  /** What a flush adds: one record of the buffered data, if there are any. */
  ghost predicate Flushed(before: seq<Record>, after: seq<Record>, data: seq<Byte>, offset: int) {
    if data == [] then after == before
    else
      && before < after && |after| == |before| + 1
      && after[|before|].payload == data && after[|before|].offset == offset
  }

  /** Records have only been added, all with the same time offset. */
  ghost predicate Stamped(before: seq<Record>, after: seq<Record>, offset: int) {
    before <= after && forall i :: |before| <= i < |after| ==> after[i].offset == offset
  }

  function Slice(s: seq<Byte>, off: nat, n: nat): seq<Byte>
    requires off + n <= |s|
  {
    s[off..off + n]
  }

  lemma SliceNone(w: seq<Byte>, s: seq<Byte>, off: nat)
    requires off <= |s|
    ensures w + Slice(s, off, 0) == w
  {
  }

  lemma SliceMore(w: seq<Byte>, s: seq<Byte>, off: nat, m: nat, n: nat)
    requires off + m + n <= |s|
    ensures (w + Slice(s, off, m)) + Slice(s, off + m, n) == w + Slice(s, off, m + n)
  {
  }

  lemma SliceOf(b: array<Byte>, off: nat, n: nat)
    requires off + n <= b.Length
    ensures Slice(b[..], off, n) == b[off..off + n]
  {
  }

  lemma StampedMore(first: seq<Record>, before: seq<Record>, after: seq<Record>, offset: int)
    requires Stamped(first, before, offset) && Stamped(before, after, offset)
    ensures Stamped(first, after, offset)
  {
  }

  ghost predicate GoodRecord(r: Record) {
    0 < |r.payload| < 0x8000_0000 && |r.payload| + |r.padding| == RoundUp4(|r.payload|)
  }

  function RecordBytes(r: Record): seq<Byte> {
    IntBytes(|r.payload|) + r.payload + r.padding + IntBytes(r.offset)
  }

  function FileBytes(rs: seq<Record>): seq<Byte> {
    if rs == [] then [] else FileBytes(rs[..|rs| - 1]) + RecordBytes(rs[|rs| - 1])
  }

  function Payloads(rs: seq<Record>): seq<Byte> {
    if rs == [] then [] else Payloads(rs[..|rs| - 1]) + rs[|rs| - 1].payload
  }

  /** What a player of the file sees of a record. */
  datatype Played = Played(data: seq<Byte>, time: int)

  /** Parsing records from position `at` on: a length, the data padded to a multiple of four, a timestamp. */
  function Parse(file: seq<Byte>, at: nat): (r: (bool, seq<Played>))
    requires at <= |file|
    decreases |file| - at
  {
    if at == |file| then (true, [])
    else if at + 4 > |file| then (false, [])
    else
      var n := ReadUnsigned(file[at..at + 4]);
      var m := RoundUp4(n);
      if m < n || at + 8 + m > |file| then (false, [])
      else
        var rest := Parse(file, at + 8 + m);
        (rest.0, [Played(file[at + 4..at + 4 + n], ReadInt(file[at + 4 + m..at + 8 + m]))] + rest.1)
  }

  function PlayedAs(rs: seq<Record>): (p: seq<Played>)
    ensures |p| == |rs|
  {
    seq(|rs|, i requires 0 <= i < |rs| => Played(rs[i].payload, ToInt(rs[i].offset)))
  }

  lemma LengthRoundTrip(n: nat)
    requires n < 0x8000_0000
    ensures ReadUnsigned(IntBytes(n)) == n
  {
    hide ByteOf;
    BytesOf(n);
    var u := ReadUnsigned(IntBytes(n));
    LowDigits(n, u);
  }

  /** Parsing at the start of record `i`. */
  lemma {:induction false} ParseFrom(rs: seq<Record>, file: seq<Byte>, i: nat, at: nat)
    requires i <= |rs| && (forall j :: 0 <= j < |rs| ==> GoodRecord(rs[j]))
    requires file == FileBytes(rs) && at == |FileBytes(rs[..i])| <= |file|
    ensures Parse(file, at) == (true, PlayedAs(rs)[i..])
    decreases |rs| - i
  {
    hide IntBytes, ReadUnsigned, ReadInt, ToInt, RoundUp4, FileBytes, RecordBytes;
    if i == |rs| {
      assert rs[..i] == rs;
    } else {
      var r, next := rs[i], |FileBytes(rs[..i + 1])|;
      RecordAt(rs, i);
      RecordParts(r);
      var m := RoundUp4(|r.payload|);
      LengthRoundTrip(|r.payload|);
      IntRoundTrip(r.offset);
      var n := |r.payload|;
      Within(file, at, next, RecordBytes(r), 0, 4);
      Within(file, at, next, RecordBytes(r), 4, 4 + n);
      Within(file, at, next, RecordBytes(r), 4 + m, 8 + m);
      ParseFrom(rs, file, i + 1, next);
      assert PlayedAs(rs)[i..] == [Played(r.payload, ToInt(r.offset))] + PlayedAs(rs)[i + 1..];
    }
  }

  /** Where the parts of a record lie. */
  lemma RecordParts(r: Record)
    requires GoodRecord(r)
    ensures var b, n, m := RecordBytes(r), |r.payload|, RoundUp4(|r.payload|);
            && |b| == m + 8 && n <= m && b[0..4] == IntBytes(n) && b[4..4 + n] == r.payload
            && b[4 + m..8 + m] == IntBytes(r.offset)
  {
    hide IntBytes, RoundUp4;
  }

  lemma {:induction false} RecordAt(rs: seq<Record>, i: nat)
    requires i < |rs|
    ensures var at, next := |FileBytes(rs[..i])|, |FileBytes(rs[..i + 1])|;
            next == at + |RecordBytes(rs[i])| <= |FileBytes(rs)| && FileBytes(rs)[at..next] == RecordBytes(rs[i])
  {
    hide RecordBytes;
    assert rs[..i + 1][..i] == rs[..i];
    if i == |rs| - 1 {
      assert rs[..i + 1] == rs;
    } else {
      RecordAt(rs[..|rs| - 1], i);
      assert rs[..|rs| - 1][..i] == rs[..i] && rs[..|rs| - 1][..i + 1] == rs[..i + 1];
    }
  }

  lemma Within(file: seq<Byte>, at: nat, next: nat, b: seq<Byte>, j: nat, k: nat)
    requires at <= next <= |file| && file[at..next] == b && j <= k <= |b|
    ensures file[at + j..at + k] == b[j..k]
  {
    var u, v := file[at + j..at + k], b[j..k];
    forall x | 0 <= x < k - j
      ensures u[x] == v[x]
    {
      assert v[x] == b[j + x];
      assert b[j + x] == file[at..next][j + x];
    }
  }

  /** Playing a whole file gives back the payloads and the timestamps of its records, in order. */
  lemma FileParses(rs: seq<Record>)
    requires forall j :: 0 <= j < |rs| ==> GoodRecord(rs[j])
    ensures Parse(FileBytes(rs), 0) == (true, PlayedAs(rs))
  {
    ParseFrom(rs, FileBytes(rs), 0, 0);
    assert PlayedAs(rs)[0..] == PlayedAs(rs);
  }

  lemma FileSnoc(rs: seq<Record>, r: Record)
    ensures FileBytes(rs + [r]) == FileBytes(rs) + RecordBytes(r) && Payloads(rs + [r]) == Payloads(rs) + r.payload
  {
  }

  /** However full the buffer is, its padding stays inside it, exactly if its size is a multiple of four. */
  lemma PaddingFits(size: nat)
    requires size <= 0x7fff_fffc
    ensures (forall n: nat :: n <= size ==> n <= RoundUp4(n) <= size) <==> size % 4 == 0
    ensures forall n: nat :: n <= size ==> n <= RoundUp4(n)
  {
    hide RoundUp4;
    forall n: nat | n <= size
      ensures n <= RoundUp4(n) && (size % 4 == 0 ==> RoundUp4(n) <= size)
    {
      NextMultiple(n, size);
    }
    NextMultiple(size, size);
  }

  /** The next multiple of four. */
  lemma NextMultiple(n: nat, size: nat)
    requires n <= size <= 0x7fff_fffc
    ensures n <= RoundUp4(n) && (size % 4 == 0 ==> RoundUp4(n) <= size)
    ensures n % 4 != 0 ==> RoundUp4(n) > n
  {
    var q, r := (n + 3) / 4, (n + 3) % 4;
    assert n + 3 == 4 * q + r;
    assert RoundUp4(n) == 4 * q;
    var m := size / 4;
    assert size == 4 * m + size % 4;
  }

  class Recorder {
    const startTime: int
    const buffer: array<Byte>
    const bufferSize: nat
    var bufferBytes: nat
    var lastTimeOffset: int
    var file: seq<Byte>
    /** What was in the file before the records, the records, all bytes written, and the last reading of the clock. */
    ghost var head: seq<Byte>
    ghost var records: seq<Record>
    ghost var written: seq<Byte>
    ghost var clock: int

    ghost predicate Valid()
      reads this, buffer
    {
      && buffer.Length == bufferSize && 4 <= bufferSize <= 0x7fff_fffc && bufferBytes <= bufferSize
      && file == head + FileBytes(records) && Payloads(records) + buffer[..bufferBytes] == written
      && (forall j :: 0 <= j < |records| ==> GoodRecord(records[j]))
      && InOrder(records, lastTimeOffset, clock - startTime)
      && (bufferBytes > 0 ==> lastTimeOffset != -1)
    }

    constructor (bufsize: nat, now: int)
      requires 4 <= bufsize <= 0x7fff_fffc
      ensures Valid() && fresh(buffer) && bufferSize == bufsize && startTime == clock == now && bufferBytes == 0
      ensures file == written == [] && records == [] && head == [] && lastTimeOffset == 0
    {
      startTime, bufferSize, bufferBytes, lastTimeOffset, file := now, bufsize, 0, 0, [];
      buffer := new Byte[bufsize](_ => 0);
      head, records, written, clock := [], [], [], now;
    }

    /** `writeHeader`: "FBS 001.000\n", at the beginning of the file. */
    method WriteHeader()
      requires Valid() && records == []
      modifies `file, `head
      ensures Valid() && file == old(file) + [70, 66, 83, 32, 48, 48, 49, 46, 48, 48, 48, 10] && head == file
    {
      file := file + [70, 66, 83, 32, 48, 48, 49, 46, 48, 48, 48, 10];
      head := file;
    }

    /** `flush`. With a buffer that is not a multiple of four bytes long, the padding can lie outside it; then the write
        fails after the length has gone out. */
    method Flush(updateTimeOffset: bool) returns (ok: bool)
      requires Valid()
      modifies `bufferBytes, `lastTimeOffset, `file, `records
      ensures ok <==> RoundUp4(old(bufferBytes)) <= bufferSize
      ensures bufferSize % 4 == 0 ==> ok
      ensures ok ==> Valid() && bufferBytes == 0
      ensures ok ==> lastTimeOffset == if old(bufferBytes) > 0 && updateTimeOffset then -1 else old(lastTimeOffset)
      ensures ok ==> Flushed(old(records), records, old(buffer[..bufferBytes]), old(lastTimeOffset))
    {
      hide RoundUp4, IntBytes, FileBytes, Payloads, InOrder, GoodRecord, RecordBytes;
      PaddingFits(bufferSize);
      ok := true;
      if bufferBytes > 0 {
        var n := RoundUp4(bufferBytes);
        file := file + IntBytes(bufferBytes);
        if n > buffer.Length {
          return false;
        }
        file := file + buffer[..n];
        file := file + IntBytes(lastTimeOffset);
        ghost var r := Record(buffer[..bufferBytes], buffer[bufferBytes..n], lastTimeOffset);
        AddRecord(r, buffer[..n]);
        records := records + [r];
        bufferBytes := 0;
        if updateTimeOffset {
          lastTimeOffset := -1;
        }
        assert buffer[..0] == [];
      } else {
        NothingToRound();
      }
    }

    lemma NothingToRound()
      ensures RoundUp4(0) == 0
    {
    }

    /** What the written bytes amount to. */
    lemma AddRecord(r: Record, data: seq<Byte>)
      requires data == r.payload + r.padding && 0 < |r.payload| <= |data| == RoundUp4(|r.payload|)
      requires |r.payload| < 0x8000_0000
      requires forall j :: 0 <= j < |records| ==> GoodRecord(records[j])
      requires InOrder(records, r.offset, clock - startTime) && r.offset != -1
      ensures head + FileBytes(records) + IntBytes(|r.payload|) + data + IntBytes(r.offset)
              == head + FileBytes(records + [r])
      ensures Payloads(records + [r]) == Payloads(records) + r.payload
      ensures forall j :: 0 <= j < |records + [r]| ==> GoodRecord((records + [r])[j])
      ensures InOrder(records + [r], r.offset, clock - startTime) && InOrder(records + [r], -1, clock - startTime)
    {
      hide RoundUp4, IntBytes, InOrder, FileBytes, Payloads;
      FileSnoc(records, r);
      NextInOrder(records, r, r.offset, clock - startTime);
    }

    /** `prepareWriting`: there is room for a 32-bit value afterwards. `now` is the clock. */
    method PrepareWriting(now: int) returns (ok: bool)
      requires Valid() && now >= clock
      modifies `bufferBytes, `lastTimeOffset, `file, `records, `clock
      ensures bufferSize % 4 == 0 ==> ok
      ensures ok ==> Valid() && clock == now && bufferBytes + 4 <= bufferSize && lastTimeOffset != -1
      ensures ok ==> lastTimeOffset == (if old(lastTimeOffset) == -1 then now - startTime else old(lastTimeOffset))
      ensures old(bufferBytes) + 4 <= bufferSize ==> ok && bufferBytes == old(bufferBytes) && records == old(records)
      ensures ok ==> Stamped(old(records), records, lastTimeOffset)
    {
      hide RoundUp4, IntBytes, FileBytes, Payloads, GoodRecord;
      clock := now;
      if lastTimeOffset == -1 {
        lastTimeOffset := now - startTime;
      }
      ok := true;
      if bufferBytes > bufferSize - 4 {
        ok := Flush(false);
      }
    }

    /** "System.arraycopy": bytes are added to the buffer. */
    method Append(bytes: seq<Byte>)
      requires Valid() && bufferBytes + |bytes| <= bufferSize && lastTimeOffset != -1
      modifies `bufferBytes, `written, buffer
      ensures Valid() && written == old(written) + bytes && bufferBytes == old(bufferBytes) + |bytes|
    {
      hide RoundUp4, IntBytes, FileBytes, Payloads, GoodRecord, InOrder;
      ghost var before := buffer[..bufferBytes];
      forall i | 0 <= i < |bytes| {
        buffer[bufferBytes + i] := bytes[i];
      }
      assert buffer[..bufferBytes + |bytes|] == before + bytes;
      bufferBytes := bufferBytes + |bytes|;
      written := written + bytes;
      assert Payloads(records) + (before + bytes) == (Payloads(records) + before) + bytes;
    }

    /** The body that the byte and integer writers share: at most four bytes. */
    method Put(bytes: seq<Byte>, now: int) returns (ok: bool)
      requires Valid() && now >= clock && |bytes| <= 4
      modifies `bufferBytes, `lastTimeOffset, `file, `records, `written, `clock, buffer
      ensures bufferSize % 4 == 0 ==> ok
      ensures ok ==> Valid() && clock == now && written == old(written) + bytes
      ensures old(bufferBytes) + 4 <= bufferSize ==>
                ok && bufferBytes == old(bufferBytes) + |bytes| && records == old(records)
      ensures ok ==> lastTimeOffset == (if old(lastTimeOffset) == -1 then now - startTime else old(lastTimeOffset))
      ensures ok ==> Stamped(old(records), records, lastTimeOffset)
    {
      hide RoundUp4, IntBytes, FileBytes, Payloads, GoodRecord, InOrder, Valid;
      ok := PrepareWriting(now);
      if ok {
        Append(bytes);
      }
    }

    method WriteByte(b: int, now: int) returns (ok: bool)
      requires Valid() && now >= clock
      modifies `bufferBytes, `lastTimeOffset, `file, `records, `written, `clock, buffer
      ensures bufferSize % 4 == 0 ==> ok
      ensures ok ==> Valid() && clock == now && written == old(written) + [ByteOf(b, 0)]
      ensures ok ==> lastTimeOffset == (if old(lastTimeOffset) == -1 then now - startTime else old(lastTimeOffset))
      ensures old(bufferBytes) + 4 <= bufferSize ==>
                ok && bufferBytes == old(bufferBytes) + 1 && records == old(records)
      ensures ok ==> Stamped(old(records), records, lastTimeOffset)
    {
      hide Valid, ByteOf;
      ok := Put([ByteOf(b, 0)], now);
    }

    method WriteShortBe(v: int, now: int) returns (ok: bool)
      requires Valid() && now >= clock
      modifies `bufferBytes, `lastTimeOffset, `file, `records, `written, `clock, buffer
      ensures bufferSize % 4 == 0 ==> ok
      ensures ok ==> Valid() && clock == now && written == old(written) + [ByteOf(v, 1), ByteOf(v, 0)]
      ensures ok ==> Stamped(old(records), records, lastTimeOffset)
    {
      hide Valid, ByteOf;
      ok := Put([ByteOf(v, 1), ByteOf(v, 0)], now);
    }

    method WriteIntBe(v: int, now: int) returns (ok: bool)
      requires Valid() && now >= clock
      modifies `bufferBytes, `lastTimeOffset, `file, `records, `written, `clock, buffer
      ensures bufferSize % 4 == 0 ==> ok
      ensures ok ==> Valid() && clock == now && written == old(written) + IntBytes(v)
      ensures ok ==> Stamped(old(records), records, lastTimeOffset)
    {
      hide Valid, ByteOf;
      ok := Put([ByteOf(v, 3), ByteOf(v, 2), ByteOf(v, 1), ByteOf(v, 0)], now);
    }

    method WriteShortLe(v: int, now: int) returns (ok: bool)
      requires Valid() && now >= clock
      modifies `bufferBytes, `lastTimeOffset, `file, `records, `written, `clock, buffer
      ensures bufferSize % 4 == 0 ==> ok
      ensures ok ==> Valid() && clock == now && written == old(written) + [ByteOf(v, 0), ByteOf(v, 1)]
      ensures ok ==> Stamped(old(records), records, lastTimeOffset)
    {
      hide Valid, ByteOf;
      ok := Put([ByteOf(v, 0), ByteOf(v, 1)], now);
    }

    method WriteIntLe(v: int, now: int) returns (ok: bool)
      requires Valid() && now >= clock
      modifies `bufferBytes, `lastTimeOffset, `file, `records, `written, `clock, buffer
      ensures bufferSize % 4 == 0 ==> ok
      ensures ok ==> Valid() && clock == now
      ensures ok ==> written == old(written) + [ByteOf(v, 0), ByteOf(v, 1), ByteOf(v, 2), ByteOf(v, 3)]
      ensures ok ==> Stamped(old(records), records, lastTimeOffset)
    {
      hide Valid, ByteOf;
      ok := Put([ByteOf(v, 0), ByteOf(v, 1), ByteOf(v, 2), ByteOf(v, 3)], now);
    }

    /** `write` of `len` bytes from `b[off]` on. */
    method Write(b: array<Byte>, off: nat, len: nat, now: int) returns (ok: bool)
      requires Valid() && now >= clock && off + len <= b.Length && b != buffer
      modifies `bufferBytes, `lastTimeOffset, `file, `records, `written, `clock, buffer
      ensures bufferSize % 4 == 0 ==> ok
      ensures ok ==> Valid() && clock == now && written == old(written) + b[off..off + len]
      ensures ok ==> lastTimeOffset == (if old(lastTimeOffset) == -1 then now - startTime else old(lastTimeOffset))
      ensures ok ==> Stamped(old(records), records, lastTimeOffset)
      ensures old(bufferBytes) + 4 <= bufferSize && old(bufferBytes) + len <= bufferSize ==>
                ok && bufferBytes == old(bufferBytes) + len
    {
      hide Valid, Stamped, Slice;
      SizeOf();
      ghost var fits := bufferBytes + 4 <= bufferSize && bufferBytes + len <= bufferSize;
      ghost var start := bufferBytes;
      ok := PrepareWriting(now);
      if !ok {
        return;
      }
      ghost var all, stamp := b[..], lastTimeOffset;
      var done := 0;
      SliceNone(written, all, off);
      while done < len
        invariant 0 <= done <= len && b[..] == all && lastTimeOffset == stamp
        invariant Valid() && clock == now && written == old(written) + Slice(all, off, done)
        invariant Stamped(old(records), records, stamp)
        invariant fits ==> bufferBytes == start + done && (done == 0 || done == len)
      {
        var partLen;
        ghost var before := records;
        ok, partLen := WritePart(b, off + done, len - done);
        if !ok {
          return;
        }
        StampedMore(old(records), before, records, stamp);
        SliceMore(old(written), all, off, done, partLen);
        done := done + partLen;
      }
      SliceOf(b, off, len);
    }

    /** One round of the copying loop: flush if fewer than four bytes are free, then copy what fits. */
    method WritePart(b: array<Byte>, off: nat, len: nat) returns (ok: bool, partLen: nat)
      requires Valid() && off + len <= b.Length && b != buffer && lastTimeOffset != -1 && len > 0
      modifies `bufferBytes, `lastTimeOffset, `file, `records, `written, buffer
      ensures partLen <= len && (bufferSize % 4 == 0 ==> ok) && (ok <==> partLen > 0)
      ensures ok ==> Valid() && lastTimeOffset == old(lastTimeOffset)
      ensures ok ==> written == old(written) + Slice(b[..], off, partLen)
      ensures ok ==> Stamped(old(records), records, lastTimeOffset)
      ensures old(bufferBytes) + 4 <= bufferSize && old(bufferBytes) + len <= bufferSize ==>
                ok && partLen == len && bufferBytes == old(bufferBytes) + len
    {
      hide RoundUp4, IntBytes, FileBytes, Payloads, GoodRecord, InOrder;
      ok, partLen := true, 0;
      if bufferBytes > bufferSize - 4 {
        ok := Flush(false);
      }
      if ok {
        partLen := if bufferBytes + len > bufferSize then bufferSize - bufferBytes else len;
        assert b[off..off + partLen] == b[..][off..off + partLen];
        Append(b[off..off + partLen]);
      }
    }

    lemma SizeOf()
      requires Valid()
      ensures bufferBytes <= bufferSize == buffer.Length
    {
    }

    /** `close`: the last flush, and the end of the file. */
    method Close() returns (ok: bool)
      requires Valid()
      modifies `bufferBytes, `lastTimeOffset, `file, `records
      ensures bufferSize % 4 == 0 ==> ok
      ensures ok ==> Valid() && Payloads(records) == written
      ensures ok ==> file == head + FileBytes(records) && Parse(file[|head|..], 0) == (true, PlayedAs(records))
      ensures ok ==> Flushed(old(records), records, old(buffer[..bufferBytes]), old(lastTimeOffset))
    {
      hide RoundUp4, IntBytes, FileBytes, Payloads, InOrder, Parse, PlayedAs;
      ok := Flush(true);
      if ok {
        FileParses(records);
        assert file[|head|..] == FileBytes(records);
        assert buffer[..0] == [];
      }
    }
  }

  /** Offsets are never negative, never fall, and never pass the time `last` that has gone by. */
  ghost predicate InOrder(rs: seq<Record>, lastTimeOffset: int, last: int) {
    && -1 <= lastTimeOffset <= last && 0 <= last
    && (forall i :: 0 <= i < |rs| ==>
          0 <= rs[i].offset <= last && (lastTimeOffset != -1 ==> rs[i].offset <= lastTimeOffset))
    && forall i, j :: 0 <= i < j < |rs| ==> rs[i].offset <= rs[j].offset
  }

  lemma NextInOrder(rs: seq<Record>, r: Record, lastTimeOffset: int, last: int)
    requires InOrder(rs, lastTimeOffset, last) && lastTimeOffset != -1 && r.offset == lastTimeOffset
    ensures InOrder(rs + [r], lastTimeOffset, last) && InOrder(rs + [r], -1, last)
  {
  }

  /** A timestamp is the time offset it stands for exactly during the first 2^31 milliseconds. */
  lemma StampIsExact(offset: int)
    requires offset >= 0
    ensures ToInt(offset) == offset <==> offset < 0x8000_0000
  {
  }

  /** All timestamps of a recording are right exactly if its last record was begun in that time. */
  lemma StampsExact(rs: seq<Record>, lastTimeOffset: int, last: int)
    requires InOrder(rs, lastTimeOffset, last)
    ensures (forall i :: 0 <= i < |rs| ==> PlayedAs(rs)[i].time == rs[i].offset)
            <==> (rs == [] || rs[|rs| - 1].offset < 0x8000_0000)
  {
    hide ToInt;
    forall i | 0 <= i < |rs|
      ensures PlayedAs(rs)[i].time == rs[i].offset <==> rs[i].offset < 0x8000_0000
    {
      StampIsExact(rs[i].offset);
    }
    if rs != [] && !(rs[|rs| - 1].offset < 0x8000_0000) {
      assert PlayedAs(rs)[|rs| - 1].time != rs[|rs| - 1].offset;
    }
  }

  /** A timestamp is -1 in one millisecond of every 2^32, the last one before the clock of 32 bits starts again. */
  lemma StampIsMinusOne(offset: int)
    requires offset >= 0
    ensures ToInt(offset) == -1 <==> offset % 0x1_0000_0000 == 0xffff_ffff
  {
  }

  lemma StampsMinusOne(rs: seq<Record>)
    requires forall i :: 0 <= i < |rs| ==> rs[i].offset >= 0
    ensures (forall i :: 0 <= i < |rs| ==> PlayedAs(rs)[i].time != -1)
            <==> forall i :: 0 <= i < |rs| ==> rs[i].offset % 0x1_0000_0000 != 0xffff_ffff
  {
    hide ToInt;
    forall i | 0 <= i < |rs|
      ensures PlayedAs(rs)[i].time == -1 <==> rs[i].offset % 0x1_0000_0000 == 0xffff_ffff
    {
      StampIsMinusOne(rs[i].offset);
    }
  }

  /** How often the timestamp has wrapped around at a time offset. */
  function Wraps(offset: int): int {
    (offset + 0x8000_0000) / 0x1_0000_0000
  }

  lemma StampWraps(offset: int)
    ensures ToInt(offset) == offset - 0x1_0000_0000 * Wraps(offset)
  {
  }

  ghost predicate NeverFalls(p: seq<Played>) {
    forall i, j :: 0 <= i < j < |p| ==> p[i].time <= p[j].time
  }

  /** No two records in succession are 2^32 milliseconds apart. */
  predicate NoLongPause(rs: seq<Record>) {
    forall i :: 0 <= i < |rs| - 1 ==> rs[i + 1].offset - rs[i].offset < 0x1_0000_0000
  }

  /** All records lie before the point where the clock of 32 bits next wraps around after the first one. */
  predicate OnePeriod(rs: seq<Record>) {
    rs == [] || Wraps(rs[0].offset) == Wraps(rs[|rs| - 1].offset)
  }

  /** Then timestamps never fall; and only then, unless there is a pause that hides a whole period. */
  lemma StampsNeverFall(rs: seq<Record>, lastTimeOffset: int, last: int)
    requires InOrder(rs, lastTimeOffset, last)
    ensures OnePeriod(rs) ==> NeverFalls(PlayedAs(rs))
    ensures NoLongPause(rs) ==> (NeverFalls(PlayedAs(rs)) <==> OnePeriod(rs))
  {
    hide ToInt, Wraps, Spaced, NeverFalls;
    NoPairFalls(rs);
    if OnePeriod(rs) {
      forall i | 0 <= i < |rs| - 1
        ensures Spaced(rs[i].offset, rs[i + 1].offset)
      {
        WrapsGrow(rs[0].offset, rs[i].offset);
        WrapsGrow(rs[i].offset, rs[i + 1].offset);
        WrapsGrow(rs[i + 1].offset, rs[|rs| - 1].offset);
        SamePeriod(rs[i].offset, rs[i + 1].offset);
      }
    }
    if rs != [] && NoLongPause(rs) && NeverFalls(PlayedAs(rs)) {
      SamePeriods(rs, |rs| - 1);
    }
  }

  lemma WrapsGrow(a: int, b: int)
    requires a <= b
    ensures Wraps(a) <= Wraps(b)
  {
  }

  lemma SamePeriod(a: int, b: int)
    requires a <= b
    ensures Wraps(a) == Wraps(b) ==> Spaced(a, b)
    ensures Spaced(a, b) && b - a < 0x1_0000_0000 ==> Wraps(a) == Wraps(b)
  {
    hide Wraps;
    WrapsGrow(a, b);
  }

  lemma {:induction false} SamePeriods(rs: seq<Record>, n: nat)
    requires n < |rs| && NoLongPause(rs) && forall i :: 0 <= i < |rs| - 1 ==> rs[i].offset <= rs[i + 1].offset
    requires forall i :: 0 <= i < |rs| - 1 ==> Spaced(rs[i].offset, rs[i + 1].offset)
    ensures Wraps(rs[0].offset) == Wraps(rs[n].offset)
  {
    hide Wraps, Spaced;
    if n > 0 {
      SamePeriods(rs, n - 1);
      SamePeriod(rs[n - 1].offset, rs[n].offset);
    }
  }

  /** Timestamps fall somewhere exactly if they fall between two records in succession. */
  lemma NoPairFalls(rs: seq<Record>)
    ensures NeverFalls(PlayedAs(rs)) <==> forall i :: 0 <= i < |rs| - 1 ==> Spaced(rs[i].offset, rs[i + 1].offset)
  {
    hide ToInt, Wraps, Spaced;
    var p := PlayedAs(rs);
    forall i | 0 <= i < |rs| - 1
      ensures p[i].time <= p[i + 1].time <==> Spaced(rs[i].offset, rs[i + 1].offset)
    {
      SpacedStamps(rs[i].offset, rs[i + 1].offset);
    }
    if forall i :: 0 <= i < |rs| - 1 ==> Spaced(rs[i].offset, rs[i + 1].offset) {
      forall i, j | 0 <= i < j < |rs|
        ensures p[i].time <= p[j].time
      {
        Chained(p, i, j);
      }
    }
  }

  /** Two records as far apart as the clock wraps between them. */
  predicate Spaced(a: int, b: int) {
    b - a >= 0x1_0000_0000 * (Wraps(b) - Wraps(a))
  }

  lemma SpacedStamps(a: int, b: int)
    ensures ToInt(a) <= ToInt(b) <==> Spaced(a, b)
  {
    hide ToInt, Wraps;
    StampWraps(a);
    StampWraps(b);
  }

  lemma {:induction false} Chained(p: seq<Played>, i: nat, j: nat)
    requires i < j < |p| && forall k :: 0 <= k < |p| - 1 ==> p[k].time <= p[k + 1].time
    ensures p[i].time <= p[j].time
  {
    if i < j - 1 {
      Chained(p, i, j - 1);
    }
  }

  /** As long as the recording is shorter than 2^31 milliseconds, no timestamp is -1, and they never fall. */
  lemma StampsInOrder(rs: seq<Record>, lastTimeOffset: int, last: int)
    requires InOrder(rs, lastTimeOffset, last) && last < 0x8000_0000
    ensures forall i :: 0 <= i < |rs| ==> PlayedAs(rs)[i].time >= 0
    ensures NeverFalls(PlayedAs(rs))
  {
    hide ToInt;
    StampsExact(rs, lastTimeOffset, last);
  }

  /** A recording whose second timestamp is -1, less than the first: bytes written at the start and 0xffff_ffff
      milliseconds later. */
  method StampsFail(now: int) returns (played: seq<Played>)
    ensures |played| == 2 && played[0].time == 0 && played[1].time == -1
  {
    hide InOrder, FileBytes, Payloads, Parse, ToInt, GoodRecord;
    var rec := new Recorder(4096, now);
    var ok := rec.WriteByte(0, now);
    ok := rec.Flush(true);
    ok := rec.WriteByte(0, now + 0xffff_ffff);
    ok := rec.Close();
    StampIsExact(0);
    StampIsMinusOne(0xffff_ffff);
    var parsed := Parse(rec.file, 0);
    played := parsed.1;
    assert rec.file[|rec.head|..] == rec.file;
  }

  /** For every buffer size that is no multiple of four, filling the buffer and flushing it fails. */
  method UnalignedFails(bufsize: nat, now: int) returns (ok: bool)
    requires 4 <= bufsize <= 0x7fff_fffc && bufsize % 4 != 0
    ensures !ok
  {
    hide InOrder, FileBytes, Payloads;
    var rec := new Recorder(bufsize, now);
    assert rec.bufferBytes == 0;
    var b := new Byte[bufsize](_ => 0);
    ok := rec.Write(b, 0, bufsize, now);
    if ok {
      ok := rec.Flush(true);
    }
  }

  /** Network order: the first byte is the most significant one. */
  lemma NetworkOrder(v: int)
    ensures BytesVal(IntBytes(v)) == v % 0x1_0000_0000 == ReadUnsigned(IntBytes(v))
  {
    hide ByteOf;
    BytesOf(v);
    FourBytes(ByteOf(v, 3), ByteOf(v, 2), ByteOf(v, 1), ByteOf(v, 0));
    var u := ReadUnsigned(IntBytes(v));
    LowDigits(v, u);
    Residue(v, u);
  }

  lemma Residue(v: int, u: nat)
    requires u < 0x1_0000_0000 && (v - u) % 0x1_0000_0000 == 0
    ensures v % 0x1_0000_0000 == u
  {
  }

  /** A record: the length of its data, the data from byte 4 on, filled up to a multiple of four, and the time. */
  lemma RecordLayout(r: Record)
    requires GoodRecord(r) && |r.payload| <= 0x7fff_fffc
    ensures var b, n := RecordBytes(r), |r.payload|;
            && |b| % 4 == 0 && n + 8 <= |b| < n + 12
            && BytesVal(b[..4]) == n && b[4..4 + n] == r.payload && BytesVal(b[|b| - 4..]) == r.offset % 0x1_0000_0000
  {
    hide IntBytes, RoundUp4, ReadUnsigned, BytesVal;
    var n := |r.payload|;
    FourParts(IntBytes(n), r.payload, r.padding, IntBytes(r.offset));
    FilledUp(n);
    Residue(n, n);
    NetworkOrder(n);
    NetworkOrder(r.offset);
  }

  lemma FourParts(a: seq<Byte>, b: seq<Byte>, c: seq<Byte>, d: seq<Byte>)
    requires |a| == |d| == 4
    ensures var s := a + b + c + d;
            s[..4] == a && s[4..4 + |b|] == b && s[|s| - 4..] == d && |s| == 8 + |b| + |c|
  {
  }

  lemma FilledUp(n: nat)
    requires n <= 0x7fff_fffc
    ensures RoundUp4(n) % 4 == 0 && n <= RoundUp4(n) < n + 4
  {
  }
}
