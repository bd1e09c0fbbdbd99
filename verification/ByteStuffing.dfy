/** Byte stuffing of entropy-coded segments (T.81 section B.1.1.5). */
module ByteStuffing {
  import opened Numbers

  function StuffByte(b: Byte): seq<Byte> {
    if b == 0xFF then [0xFF, 0] else [b]
  }

  /** The first `n` bytes of `raw`, stuffed. */
  function StuffTo(raw: seq<Byte>, n: nat): seq<Byte>
    requires n <= |raw|
  {
    if n == 0 then [] else StuffTo(raw, n - 1) + StuffByte(raw[n - 1])
  }

  function Stuff(raw: seq<Byte>): seq<Byte> {
    StuffTo(raw, |raw|)
  }

  lemma {:induction false} StuffToPrefix(raw: seq<Byte>, raw': seq<Byte>, n: nat)
    requires n <= |raw| && raw <= raw'
    ensures StuffTo(raw, n) == StuffTo(raw', n)
  {
    if n > 0 {
      StuffToPrefix(raw, raw', n - 1);
    }
  }

  lemma {:induction false} StuffToGrows(raw: seq<Byte>, m: nat, n: nat)
    requires m <= n <= |raw|
    ensures StuffTo(raw, m) <= StuffTo(raw, n)
  {
    if m < n {
      StuffToGrows(raw, m, n - 1);
    }
  }

  lemma StuffSnoc(raw: seq<Byte>, b: Byte)
    ensures Stuff(raw + [b]) == Stuff(raw) + StuffByte(b)
  {
    StuffToPrefix(raw, raw + [b], |raw|);
  }

  lemma ConcatAssoc<T>(a: seq<T>, b: seq<T>, c: seq<T>)
    ensures a + (b + c) == a + b + c
  {
  }

  lemma {:induction false} StuffAppend(r: seq<Byte>, s: seq<Byte>)
    ensures Stuff(r + s) == Stuff(r) + Stuff(s)
  {
    if s == [] {
      assert r + s == r;
    } else {
      var t, b := s[..|s| - 1], s[|s| - 1];
      StuffAppend(r, t);
      assert s == t + [b];
      ConcatAssoc(r, t, [b]);
      StuffSnoc(r + t, b);
      StuffSnoc(t, b);
      ConcatAssoc(Stuff(r), Stuff(t), StuffByte(b));
    }
  }

  lemma {:induction false} StuffZeros(n: nat)
    ensures Stuff(Repeat(0, n)) == Repeat(0, n)
  {
    if n > 0 {
      StuffZeros(n - 1);
      StuffSnoc(Repeat(0, n - 1), 0);
    }
  }

  /** `n` stuffed 0xFF bytes. */
  function StuffedOnes(n: nat): seq<Byte> {
    if n == 0 then [] else StuffedOnes(n - 1) + [0xFF, 0]
  }

  lemma {:induction false} StuffOnes(n: nat)
    ensures Stuff(Repeat(0xFF, n)) == StuffedOnes(n)
  {
    if n > 0 {
      StuffOnes(n - 1);
      StuffSnoc(Repeat(0xFF, n - 1), 0xFF);
    }
  }

  /** Every 0xFF is followed by a 0x00: no marker code can appear inside the segment. */
  ghost predicate NoMarkers(s: seq<Byte>) {
    forall i :: 0 <= i < |s| && s[i] == 0xFF ==> i + 1 < |s| && s[i + 1] == 0
  }

  lemma {:induction false} StuffedHasNoMarkers(raw: seq<Byte>, n: nat)
    requires n <= |raw|
    ensures NoMarkers(StuffTo(raw, n))
  {
    if n > 0 {
      StuffedHasNoMarkers(raw, n - 1);
    }
  }

  /** The segment does not end in a 0x00 byte, except one stuffed after a 0xFF. */
  predicate EndsTight(s: seq<Byte>) {
    s == [] || s[|s| - 1] != 0 || (|s| >= 2 && s[|s| - 2] == 0xFF)
  }

  predicate Trimmed(raw: seq<Byte>) {
    raw == [] || raw[|raw| - 1] != 0
  }

  lemma TrimmedEndsTight(raw: seq<Byte>)
    requires Trimmed(raw)
    ensures EndsTight(Stuff(raw))
  {
  }

  /** What a decoder reads from an entropy-coded segment: 0xFF 0x00 is the byte 0xFF, and any other 0xFF begins a
      marker, which ends the data. */
  function Unstuff(s: seq<Byte>): seq<Byte> {
    if s == [] then []
    else if s[0] != 0xFF then [s[0]] + Unstuff(s[1..])
    else if |s| >= 2 && s[1] == 0 then [0xFF] + Unstuff(s[2..])
    else []
  }

  /** Unstuffing stops at the marker that follows a segment, and recovers the bytes before stuffing. */
  lemma {:induction false} UnstuffStuff(raw: seq<Byte>, rest: seq<Byte>)
    requires rest == [] || (|rest| >= 2 && rest[0] == 0xFF && rest[1] != 0)
    ensures Unstuff(Stuff(raw) + rest) == raw
  {
    if raw == [] {
      assert Stuff(raw) + rest == rest;
    } else {
      var b, tail := raw[0], raw[1..];
      assert raw == [b] + tail;
      StuffAppend([b], tail);
      assert Stuff([b]) == StuffByte(b) by {
        StuffSnoc([], b);
        assert [] + [b] == [b] && Stuff([]) + StuffByte(b) == StuffByte(b);
      }
      var s := Stuff(raw) + rest;
      ConcatAssoc(StuffByte(b), Stuff(tail), rest);
      assert s[|StuffByte(b)|..] == Stuff(tail) + rest;
      UnstuffStuff(tail, rest);
    }
  }

  /** The marker codes in a byte string: the bytes behind 0xFF that are not stuffed zeros. */
  function Markers(s: seq<Byte>): seq<Byte> {
    if |s| < 2 then [] else if s[0] == 0xFF && s[1] != 0 then [s[1]] + Markers(s[2..]) else Markers(s[1..])
  }

  /** Stuffed data contain none, whatever comes behind. */
  lemma {:induction false} NoMarkersIn(raw: seq<Byte>, n: nat, rest: seq<Byte>)
    requires n <= |raw|
    ensures Markers(StuffTo(raw, n) + rest) == Markers(rest)
  {
    if n == 0 {
      assert [] + rest == rest;
    } else {
      ConcatAssoc(StuffTo(raw, n - 1), StuffByte(raw[n - 1]), rest);
      NoMarkersIn(raw, n - 1, StuffByte(raw[n - 1]) + rest);
      NoMarkerAt(raw[n - 1], rest);
    }
  }

  lemma NoMarkerAt(b: Byte, rest: seq<Byte>)
    ensures Markers(StuffByte(b) + rest) == Markers(rest)
  {
    var s := StuffByte(b) + rest;
    if b == 0xFF {
      assert s[1..] == [0] + rest && ([0] + rest)[1..] == rest;
    } else {
      assert s[1..] == rest;
    }
  }

  lemma MarkerComes(m: Byte, rest: seq<Byte>)
    requires m != 0
    ensures Markers([0xFF] + [m] + rest) == [m] + Markers(rest)
  {
    var s := [0xFF] + [m] + rest;
    assert s[2..] == rest;
  }

  lemma NoneStuffed(raw: seq<Byte>, rest: seq<Byte>)
    ensures Markers(Stuff(raw) + rest) == Markers(rest)
  {
    NoMarkersIn(raw, |raw|, rest);
  }
}
