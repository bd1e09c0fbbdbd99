/** The arithmetic coder as a whole: what `arith_decode` reads back is what `arith_encode` was given. */
module ArithRoundTrip {
  import opened Numbers
  import opened ByteStuffing
  import opened AritTable
  import opened IntervalCoder
  import opened ArithEncoder
  import opened ArithDecoder

  /** Encodes every decision, ends the segment with a marker, and decodes with the same contexts. */
  method RoundTrip(tab: ProbTable, ds: seq<Decision>, marker: Byte) returns (bytes: seq<Byte>, bits: seq<bool>)
    requires |tab| == 114 && 0 < marker < 0xFF
    ensures |bits| == |ds| && forall i :: 0 <= i < |ds| ==> bits[i] == ds[i].bit
    ensures NoMarkers(bytes) && EndsTight(bytes)
  {
    hide Encoder.Valid, Decoder.Valid, Run, Contains, StuffTo, NoMarkers, EndsTight, Repeat;
    var e := new Encoder(tab);
    var i := 0;
    while i < |ds|
      invariant i <= |ds| && e.Valid() && e.log == ds[..i] && e.stats0 == map[] && e.base == []
    {
      e.Encode(ds[i].bin, ds[i].bit);
      assert ds[..i + 1] == ds[..i] + [ds[i]];
      i := i + 1;
    }
    assert ds[..i] == ds;
    FreshStats(tab);
    e.Finish();
    bytes := e.out;
    assert bytes == Stuff(e.raw);
    SegmentThenMarker(e.raw, marker);
    var d := new Decoder(tab, bytes + [0xFF, marker], 0, map[], e.raw, 1, marker, ds);
    bits := [];
    while |bits| < |ds|
      invariant |bits| == d.k <= |ds| && d.Valid() && d.script == ds
      invariant forall j :: 0 <= j < |bits| ==> bits[j] == ds[j].bit
    {
      var bit := d.Decode(ds[|bits|].bin);
      bits := bits + [bit];
    }
  }

  lemma FreshStats(tab: ProbTable)
    requires |tab| == 114
    ensures GoodStats(tab, map[])
  {
  }

  lemma SegmentThenMarker(raw: seq<Byte>, marker: Byte)
    ensures Stuff(raw) + Repeat(0xFF, 1) + [marker] <= (Stuff(raw) + [0xFF, marker])[0..]
  {
  }
}
