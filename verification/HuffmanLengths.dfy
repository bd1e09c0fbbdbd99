/** What the code lengths of `jpeg_gen_optimal_table` cost, compared with every other code. */
module HuffmanLengths {
  import opened Numbers
  import opened Sums
  import opened HuffmanOptimal
  import opened HuffmanTree
  import opened HuffmanLimit
  import opened DerivedTable

  /** A symbol counted more often than another has no longer optimal code. */
  lemma FrequentNotLonger(orig: Counts, l: Lengths, a: nat, b: nat)
    requires Optimal(orig, l) && a < SYMBOLS && b < SYMBOLS && orig[a] > orig[b] > 0
    ensures l[a] <= l[b]
  {
    hide Cost, HuffmanCost, KraftTerms, Pow2, Fib;
    if l[a] > l[b] {
      var l' := Exchange(orig, l, SYMBOLS, b, a);
      NoCheaperCode(orig, l', SYMBOLS);
      assert false;
    }
  }

  /** One for each symbol with a length from 1 to `k`. */
  function Within(l: Lengths, k: nat): (s: seq<int>)
    ensures |s| == |l| && forall i :: 0 <= i < |l| ==> s[i] == if 0 < l[i] <= k then 1 else 0
  {
    seq(|l|, i requires 0 <= i < |l| => if 0 < l[i] <= k then 1 else 0)
  }

  lemma {:induction false} WithinStep(l: Lengths, k: nat, n: nat)
    requires n <= |l| && k > 0
    ensures SumTo(Within(l, k), n) == SumTo(Within(l, k - 1), n) + CountOf(l, k, n)
  {
    hide Within;
    if n > 0 {
      WithinStep(l, k, n - 1);
    }
  }

  /** The codes of length at most `k`, where the counts are those of `l`. */
  lemma {:induction false} CodesWithin(bits: Bits16, l: Lengths, k: nat)
    requires k <= 16 && bits[0] == 0 && forall j :: 1 <= j <= k ==> bits[j] == CountOf(l, j, |l|)
    ensures SumTo(bits, k + 1) == Sum(Within(l, k))
  {
    hide Within, CountOf;
    if k == 0 {
      SumToZero(Within(l, 0), |l|);
    } else {
      CodesWithin(bits, l, k - 1);
      WithinStep(l, k, |l|);
    }
  }

  /** Distinct positions that hold ones are no more than the sum. */
  lemma {:induction false} DistinctAtMost(s: seq<int>, at: seq<nat>, n: nat)
    requires n <= |at| && Distinct(at) && (forall j :: 0 <= j < |at| ==> at[j] < |s|)
    requires (forall i :: 0 <= i < |s| ==> s[i] >= 0) && forall j :: 0 <= j < n ==> s[at[j]] == 1
    ensures n <= Sum(s)
    decreases n
  {
    hide Sum;
    if n == 0 {
      SumNonneg(s);
    } else {
      var s' := s[at[n - 1] := 0];
      SumUpdate(s, at[n - 1], 0);
      DistinctAtMost(s', at, n - 1);
    }
  }

  lemma SumNonneg(s: seq<int>)
    requires forall i :: 0 <= i < |s| ==> s[i] >= 0
    ensures Sum(s) >= 0
  {
    SumToNonneg(s, |s|);
  }

  /** No optimal length is above 16, so that limiting changes nothing. */
  ghost predicate Short(l: Lengths) {
    forall j :: 0 <= j < |l| ==> l[j] <= 16
  }

  /** Without limiting, every real symbol gets a code no longer than its optimal length, although the slot of the
      pseudo-symbol is taken from the greatest length. */
  lemma NoLongerThanOptimal(bits: Bits16, v: seq<nat>, orig: Counts, l: Lengths, p: nat)
    requires GoodForCounts(bits, v, orig, l) && Optimal(orig, l) && Short(l) && p < |v|
    ensures |SizesOf(bits)| == |v| && v[p] < 256 && SizesOf(bits)[p] <= l[v[p]]
  {
    hide Space16, SizesTo, Sum, CountOf, Within, Cost, HuffmanCost, KraftTerms, Pow2, Fib;
    var i :| OneSlotLeft(bits, i) && AsCounted(bits, l, i);
    var k := l[v[p]];
    SizesCount(bits, 16);
    SumIsTo(bits);
    if k < i {
      CodesWithin(bits, l, k);
      SizesCount(bits, k);
      ShortCodes(bits, k, 16);
      DistinctAtMost(Within(l, k), v, p + 1);
      assert SizesOf(bits)[p] == SizesTo(bits, k)[p];
    } else {
      SizesAtMost(bits, i, 16, p);
    }
  }

  lemma SumIsTo(bits: Bits16)
    ensures Sum(bits) == SumTo(bits, 17)
  {
  }

  lemma {:induction false} SizesAtMost(bits: Bits16, i: nat, m: nat, p: nat)
    requires i <= m <= 16 && (forall k :: i < k <= 16 ==> bits[k] == 0) && p < |SizesTo(bits, m)|
    ensures SizesTo(bits, m)[p] <= i
  {
    if i < m {
      SizesAtMost(bits, i, m - 1, p);
    }
  }

  /** Total length of the codes of the counted symbols, with code lengths by position in the list. */
  function CodedLength(orig: Counts, v: seq<nat>, sizes: seq<nat>, n: nat): int
    requires n <= |v| && n <= |sizes| && forall p :: 0 <= p < |v| ==> v[p] < |orig|
  {
    if n == 0 then 0 else CodedLength(orig, v, sizes, n - 1) + orig[v[n - 1]] * sizes[n - 1]
  }

  lemma {:induction false} CodedAtMost(orig: Counts, v: seq<nat>, sizes: seq<nat>, l: Lengths, n: nat)
    requires n <= |v| == |sizes| && |l| == |orig| && forall p :: 0 <= p < |v| ==> v[p] < |orig| && sizes[p] <= l[v[p]]
    ensures CodedLength(orig, v, sizes, n) <= SumAt(CostTerms(orig, l), v, n)
  {
    if n > 0 {
      CodedAtMost(orig, v, sizes, l, n - 1);
      CostTermAt(orig, l, v[n - 1], sizes[n - 1]);
    }
  }

  lemma CostTermAt(orig: Counts, l: Lengths, i: nat, m: nat)
    requires i < |orig| == |l| && m <= l[i]
    ensures orig[i] * m <= CostTerms(orig, l)[i]
  {
  }

  /** The list and the pseudo-symbol make up the whole cost. */
  lemma ListedCost(v: seq<nat>, orig: Counts, l: Lengths)
    requires Listed(v, orig, l) && orig[256] == 1
    ensures SumAt(CostTerms(orig, l), v, |v|) + l[256] == Cost(orig, l)
  {
    hide SumAt, Sum, Distinct;
    var t := CostTerms(orig, l);
    var t' := t[256 := 0];
    SumUpdate(t, 256, 0);
    forall i | 0 <= i < |t'| && t'[i] != 0
      ensures i in v
    {
    }
    ListedSum(t', v);
    SumAtSame(t, t', v, |v|);
  }

  /** Huffman's theorem for the table itself: with the pseudo-symbol's code added, what the real symbols cost is at
      most the cost of any code for all the symbols. */
  lemma TableIsCheapest(bits: Bits16, v: seq<nat>, orig: Counts, l: Lengths, other: Lengths, d: nat)
    requires GoodForCounts(bits, v, orig, l) && Optimal(orig, l) && Short(l) && orig[256] == 1
    requires Kraft(orig, other, d)
    ensures |SizesOf(bits)| == |v| && forall p :: 0 <= p < |v| ==> v[p] < |orig|
    ensures CodedLength(orig, v, SizesOf(bits), |v|) + l[256] <= Cost(orig, other)
  {
    hide Space16, SizesOf, Sum, CostTerms, Cost, HuffmanCost, KraftTerms, Pow2, Fib, Kraft;
    SizesCount16(bits);
    forall p | 0 <= p < |v|
      ensures v[p] < 256 && SizesOf(bits)[p] <= l[v[p]]
    {
      NoLongerThanOptimal(bits, v, orig, l, p);
    }
    CodedAtMost(orig, v, SizesOf(bits), l, |v|);
    ListedCost(v, orig, l);
    NoCheaperCode(orig, other, d);
  }

  lemma SizesCount16(bits: Bits16)
    requires bits[0] == 0
    ensures |SizesOf(bits)| == Sum(bits)
  {
    SizesCount(bits, 16);
  }
}
