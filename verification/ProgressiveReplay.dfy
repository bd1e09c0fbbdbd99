/** What a decoder has after the scans of an accepted progressive script. */
module ProgressiveReplay {
  import opened Numbers
  import opened ArithModel
  import opened ScanScript

  /** The blocks of each component, in the order of the component's block array. */
  type Image = seq<seq<Block>>

  /** Component and place of a block. */
  type Place = (nat, nat)

  ghost predicate SameShape(a: Image, b: Image) {
    |a| == |b| && forall c :: 0 <= c < |a| ==> |a[c]| == |b[c]|
  }

  /** The value of coefficient `k` once it has been sent down to bit `al`; -1 means not at all. */
  function Known(x: int, k: nat, al: int): int {
    if al < 0 then 0 else if k == 0 then TruncDc(x, al) else TruncAc(x, al)
  }

  ghost predicate BlockUpToDate(rec: Block, sent: Block, row: seq<int>)
    requires |row| == DCTSIZE2
  {
    forall k :: 0 <= k < DCTSIZE2 ==> rec[k] == Known(sent[k], k, row[k])
  }

  /** What a scan's decoder presumes of a block: an untouched band in a first scan, the band without its low Al + 1 bits
      in a refinement scan. */
  ghost predicate BlockFinds(s: Scan, rec: Block, sent: Block)
    requires GoodBand(s)
  {
    forall k :: s.ss <= k <= s.se ==> rec[k] == Known(sent[k], k, if s.ah == 0 then -1 else s.al + 1)
  }

  /** What it leaves: the band truncated at Al, and everything else as it was. */
  ghost predicate BlockLeaves(s: Scan, rec: Block, rec': Block, sent: Block)
    requires GoodBand(s)
  {
    forall k :: 0 <= k < DCTSIZE2 ==> rec'[k] == if s.ss <= k <= s.se then Known(sent[k], k, s.al) else rec[k]
  }

  /** The decoder's blocks agree with what the script has sent. The arrays may be larger than the image; `places` are
      those of its blocks. */
  ghost predicate UpToDate(rec: Image, sent: Image, places: set<Place>, bp: BitPos, n: nat) {
    && |sent| == n && SameShape(rec, sent) && Shaped(bp, n)
    && forall c, b :: 0 <= c < n && 0 <= b < |rec[c]| && (c, b) in places ==>
         BlockUpToDate(rec[c][b], sent[c][b], bp[c])
  }

  ghost predicate ScanFinds(s: Scan, rec: Image, sent: Image, places: set<Place>)
    requires GoodBand(s)
  {
    && SameShape(rec, sent)
    && forall c, b :: 0 <= c < |rec| && c in s.comps && 0 <= b < |rec[c]| && (c, b) in places ==>
         BlockFinds(s, rec[c][b], sent[c][b])
  }

  ghost predicate ScanLeaves(s: Scan, rec: Image, rec': Image, sent: Image, places: set<Place>)
    requires GoodBand(s)
  {
    && SameShape(rec, sent) && SameShape(rec', sent)
    && (forall c, b :: 0 <= c < |rec| && c in s.comps && 0 <= b < |rec[c]| && (c, b) in places ==>
          BlockLeaves(s, rec[c][b], rec'[c][b], sent[c][b]))
    && forall c :: 0 <= c < |rec| && c !in s.comps ==> rec'[c] == rec[c]
  }

  /** A scan that continues what was sent finds every block as its decoder presumes. */
  lemma ScanIsDecodable(s: Scan, bp: BitPos, rec: Image, sent: Image, places: set<Place>, n: nat)
    requires UpToDate(rec, sent, places, bp, n) && GoodProgressiveScan(s, bp, n)
    ensures ScanFinds(s, rec, sent, places)
  {
    hide Known;
    forall c, b | 0 <= c < n && c in s.comps && 0 <= b < |rec[c]| && (c, b) in places
      ensures BlockFinds(s, rec[c][b], sent[c][b])
    {
      assert BlockUpToDate(rec[c][b], sent[c][b], bp[c]);
      var i :| 0 <= i < |s.comps| && s.comps[i] == c;
      BandIsFound(s, bp[s.comps[i]], rec[c][b], sent[c][b]);
    }
  }

  lemma BandIsFound(s: Scan, row: seq<int>, rec: Block, sent: Block)
    requires |row| == DCTSIZE2 && GoodBand(s) && GoodComponentBand(s, row) && BlockUpToDate(rec, sent, row)
    ensures BlockFinds(s, rec, sent)
  {
    hide TruncDc, TruncAc;
    forall k | s.ss <= k <= s.se
      ensures rec[k] == Known(sent[k], k, if s.ah == 0 then -1 else s.al + 1)
    {
      assert Continues(s, row[k]);
    }
  }

  /** And after it the blocks agree with the new bit positions. */
  lemma ScanIsRecorded(s: Scan, bp: BitPos, rec: Image, rec': Image, sent: Image, places: set<Place>, n: nat)
    requires UpToDate(rec, sent, places, bp, n) && GoodProgressiveScan(s, bp, n)
    requires ScanLeaves(s, rec, rec', sent, places)
    ensures UpToDate(rec', sent, places, Record(bp, s, n), n)
  {
    hide Known;
    var bp' := Record(bp, s, n);
    forall c, b | 0 <= c < n && 0 <= b < |rec'[c]| && (c, b) in places
      ensures BlockUpToDate(rec'[c][b], sent[c][b], bp'[c])
    {
      assert BlockUpToDate(rec[c][b], sent[c][b], bp[c]);
    }
  }

  /** Before the first scan. */
  lemma NothingSent(rec: Image, sent: Image, places: set<Place>, n: nat)
    requires |sent| == n && SameShape(rec, sent)
    requires forall c, b :: 0 <= c < n && 0 <= b < |rec[c]| ==> rec[c][b] == ZeroBlock()
    ensures UpToDate(rec, sent, places, Unsent(n), n)
  {
    forall c, b | 0 <= c < n && 0 <= b < |rec[c]|
      ensures BlockUpToDate(rec[c][b], sent[c][b], Unsent(n)[c])
    {
    }
  }

  function ZeroBlock(): Block {
    seq(64, _ => 0)
  }

  /** What has been sent down to Al = 0 is received exactly. */
  lemma ReceivedExactly(rec: Image, sent: Image, places: set<Place>, bp: BitPos, n: nat, c: nat, b: nat, k: nat)
    requires UpToDate(rec, sent, places, bp, n) && c < n && b < |rec[c]| && (c, b) in places
    requires k < DCTSIZE2 && bp[c][k] == 0
    ensures rec[c][b][k] == sent[c][b][k]
  {
    hide TruncDc, TruncAc;
    assert BlockUpToDate(rec[c][b], sent[c][b], bp[c]);
    TruncNothing(sent[c][b][k]);
  }

  /** Why Al is at most 10: the DC values of 8-bit samples stay in their range when they are sent down to that bit, and
      not when they are sent down to any higher one. */
  lemma PointTransformLimit(al: nat)
    ensures al <= MAX_AH_AL <==> forall x :: -1024 <= x <= 1023 ==> -1024 <= Known(x, 0, al) <= 1023
  {
    var p := Pow2(al);
    if al <= MAX_AH_AL {
      forall x | -1024 <= x <= 1023
        ensures -1024 <= Known(x, 0, al) <= 1023
      {
        StaysAbove(x, al);
      }
    } else {
      Pow2Monotone(11, al);
      DivUnique(-1, p, -1, p - 1);
      assert Known(-1, 0, al) == -p;
      assert p >= 2048;
    }
  }

  lemma StaysAbove(x: int, al: nat)
    requires -1024 <= x <= 1023 && al <= 10
    ensures -1024 <= TruncDc(x, al) <= x
  {
    hide Pow2;
    var p, q, v := Pow2(al), Pow2(10 - al), x / Pow2(al);
    Pow2Add(al, 10 - al);
    Pow2Values();
    Pow2Step(10);
    Rounded(x, p);
    assert (-q - 1) * p == -(p * q) - p && -q * p == -(p * q);
    MulCompare(v, -q - 1, p);
    MulCompare(-q, v, p);
  }

  lemma Rounded(x: int, p: nat)
    requires p > 0
    ensures x / p * p <= x < x / p * p + p
  {
    assert x == p * (x / p) + x % p;
  }

  /** No acceptable scan is refused for its bit positions: a scan continues what was sent exactly if its decoder finds
      what it presumes in every block. */
  lemma ContinuesIsNeeded(s: Scan, last: int, k: nat)
    requires GoodBand(s) && (s.ah > 0 ==> s.al == s.ah - 1) && -1 <= last <= MAX_AH_AL
    ensures Continues(s, last)
            <==> forall x :: IsCoef(x) ==> Known(x, k, last) == Known(x, k, if s.ah == 0 then -1 else s.al + 1)
  {
    hide Known;
    var al := if s.ah == 0 then -1 else s.al + 1;
    if al < last {
      LevelsDiffer(k, al, last);
    } else if last < al {
      LevelsDiffer(k, last, al);
    }
  }

  /** Two precisions differ for some coefficient. */
  lemma LevelsDiffer(k: nat, a: int, b: int)
    requires -1 <= a < b <= MAX_AH_AL
    ensures exists x :: IsCoef(x) && Known(x, k, a) != Known(x, k, b)
  {
    hide Pow2;
    Pow2Monotone(b, 10);
    Pow2Values();
    Pow2Step(10);
    if a >= 0 {
      Pow2Monotone(a + 1, b);
      Pow2Step(a);
    }
    if k == 0 {
      DivUnique(-1, Pow2(b), -1, Pow2(b) - 1);
      if a >= 0 {
        DivUnique(-1, Pow2(a), -1, Pow2(a) - 1);
      }
      assert IsCoef(-1) && Known(-1, k, a) != Known(-1, k, b);
    } else if a < 0 {
      var x := Pow2(b);
      DivUnique(x, x, 1, 0);
      assert IsCoef(x) && Known(x, k, a) != Known(x, k, b);
    } else {
      var x := Pow2(a);
      DivUnique(x, x, 1, 0);
      DivUnique(x, Pow2(b), 0, x);
      assert IsCoef(x) && Known(x, k, a) != Known(x, k, b);
    }
  }
}
