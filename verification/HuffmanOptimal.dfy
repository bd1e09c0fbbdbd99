/** Why merging the two smallest counts is optimal: the lower bound behind T.81 section K.2. */
module HuffmanOptimal {
  import opened Numbers
  import opened Sums

  /** Counts, indexed by symbol; a symbol with count zero is not coded. */
  type Counts = w: seq<int> | forall i :: 0 <= i < |w| ==> w[i] >= 0 witness []

  type Lengths = l: seq<int> | forall i :: 0 <= i < |l| ==> l[i] >= 0 witness []

  /** The contribution of each coded symbol to Kraft's sum, in units of 2^-d. */
  function KraftTerms(w: Counts, l: Lengths, d: nat): (t: seq<int>)
    requires |l| == |w|
    ensures |t| == |w| && forall i :: 0 <= i < |t| ==> t[i] >= 0
  {
    seq(|w|, i requires 0 <= i < |w| => if w[i] > 0 && l[i] <= d then Pow2(d - l[i]) else 0)
  }

  /** The lengths of some prefix code for the coded symbols: Kraft's inequality. */
  ghost predicate Kraft(w: Counts, l: Lengths, d: nat) {
    && |l| == |w|
    && (forall i :: 0 <= i < |w| && w[i] > 0 ==> l[i] <= d)
    && Sum(KraftTerms(w, l, d)) <= Pow2(d)
  }

  function CostTerms(w: Counts, l: Lengths): (t: seq<int>)
    requires |l| == |w|
    ensures |t| == |w|
  {
    seq(|w|, i requires 0 <= i < |w| => w[i] * l[i])
  }

  /** Total number of code bits. */
  function Cost(w: Counts, l: Lengths): int
    requires |l| == |w|
  {
    Sum(CostTerms(w, l))
  }

  /** "Find the smallest nonzero frequency. In case of ties, take the larger symbol number"; -1 if none. */
  function Smallest(w: Counts, n: nat, except: int): (c: int)
    requires n <= |w|
    ensures c == -1 || (0 <= c < n && c != except)
    ensures c >= 0 ==> w[c] > 0 && forall i :: 0 <= i < n && i != except && w[i] > 0 ==> w[c] <= w[i]
    ensures c >= 0 ==> forall i :: c < i < n && i != except && w[i] > 0 ==> w[c] < w[i]
    ensures c < 0 ==> forall i :: 0 <= i < n && i != except ==> w[i] == 0
  {
    if n == 0 then -1
    else
      var c := Smallest(w, n - 1, except);
      if n - 1 != except && w[n - 1] > 0 && (c < 0 || w[n - 1] <= w[c]) then n - 1 else c
  }

  function Merge(w: Counts, c1: nat, c2: nat): Counts
    requires c1 < |w| && c2 < |w|
  {
    w[c1 := w[c1] + w[c2]][c2 := 0]
  }

  /** The two symbols the algorithm merges next. */
  predicate NextPair(w: Counts, c1: int, c2: int) {
    && 0 <= c1 < |w| && 0 <= c2 < |w| && c1 != c2
    && w[c1] > 0 && w[c2] > 0 && w[c1] <= w[c2]
    && forall i :: 0 <= i < |w| && i != c1 && w[i] > 0 ==> w[c2] <= w[i]
  }

  lemma CostUpdate(w: Counts, l: Lengths, i: nat, v: nat)
    requires |l| == |w| && i < |w|
    ensures Cost(w, l[i := v]) == Cost(w, l) + w[i] * (v - l[i])
  {
    assert CostTerms(w, l[i := v]) == CostTerms(w, l)[i := w[i] * v];
    SumUpdate(CostTerms(w, l), i, w[i] * v);
    assert w[i] * v - w[i] * l[i] == w[i] * (v - l[i]);
  }

  lemma KraftUpdate(w: Counts, l: Lengths, d: nat, i: nat, v: nat)
    requires |l| == |w| && i < |w| && w[i] > 0 && l[i] <= d && v <= d
    ensures Sum(KraftTerms(w, l[i := v], d)) == Sum(KraftTerms(w, l, d)) - Pow2(d - l[i]) + Pow2(d - v)
  {
    hide Pow2;
    assert KraftTerms(w, l[i := v], d) == KraftTerms(w, l, d)[i := Pow2(d - v)];
    SumUpdate(KraftTerms(w, l, d), i, Pow2(d - v));
  }

  lemma SignOfProduct(x: nat, y: nat)
    ensures x * y >= 0 && (x > 0 && y > 0 ==> x * y > 0)
  {
  }

  /** Giving the shorter of two lengths to the larger count does not cost more. */
  lemma Exchange(w: Counts, l: Lengths, d: nat, a: nat, b: nat) returns (l': Lengths)
    requires Kraft(w, l, d) && a < |w| && b < |w| && a != b && 0 < w[a] <= w[b] && l[a] <= l[b]
    ensures l' == l[a := l[b]][b := l[a]]
    ensures Kraft(w, l', d) && Cost(w, l') <= Cost(w, l)
    ensures w[a] < w[b] && l[a] < l[b] ==> Cost(w, l') < Cost(w, l)
  {
    hide Pow2, KraftTerms, Cost;
    var m := l[a := l[b]];
    l' := m[b := l[a]];
    KraftUpdate(w, l, d, a, l[b]);
    KraftUpdate(w, m, d, b, l[a]);
    CostUpdate(w, l, a, l[b]);
    CostUpdate(w, m, b, l[a]);
    assert w[b] * (l[a] - l[b]) == -(w[b] * (l[b] - l[a]));
    MulCompare(w[a], w[b], l[b] - l[a] + 1);
    SignOfProduct(l[b] - l[a], w[b] - w[a]);
  }

  function Longest(w: Counts, l: Lengths, n: nat): (m: int)
    requires |l| == |w| && n <= |w|
    ensures m < 0 ==> forall i :: 0 <= i < n ==> w[i] == 0
    ensures m >= 0 ==> m < n && w[m] > 0 && forall i :: 0 <= i < n && w[i] > 0 ==> l[i] <= l[m]
  {
    if n == 0 then -1
    else
      var m := Longest(w, l, n - 1);
      if w[n - 1] > 0 && (m < 0 || l[n - 1] > l[m]) then n - 1 else m
  }

  lemma {:induction false} TermsDivisible(t: seq<int>, n: nat, q: int)
    requires q > 0 && n <= |t| && forall i :: 0 <= i < n ==> t[i] % q == 0
    ensures SumTo(t, n) % q == 0
  {
    if n > 0 {
      TermsDivisible(t, n - 1, q);
      SumMultiple(SumTo(t, n - 1), t[n - 1], q);
    }
  }

  lemma SumMultiple(a: int, b: int, q: int)
    requires q > 0 && a % q == 0 && b % q == 0
    ensures (a + b) % q == 0 && (a - b) % q == 0
  {
    var x, y := a / q, b / q;
    assert a + b == q * (x + y) && a - b == q * (x - y);
    Multiple(q, x + y);
    Multiple(q, x - y);
  }

  lemma PowDivides(e: nat, n: nat)
    requires n <= e
    ensures Pow2(e) % Pow2(n) == 0
  {
    Pow2Add(n, e - n);
    Multiple(Pow2(n), Pow2(e - n));
  }

  /** If a single symbol has the greatest length, there is room to shorten it. */
  lemma ShortenLone(w: Counts, l: Lengths, d: nat, m: nat)
    requires Kraft(w, l, d) && m < |w| && w[m] > 0 && l[m] > 0
    requires forall i :: 0 <= i < |w| && w[i] > 0 && i != m ==> l[i] < l[m]
    ensures Kraft(w, l[m := l[m] - 1], d)
    ensures Cost(w, l[m := l[m] - 1]) < Cost(w, l)
  {
    hide Pow2, Cost, Sum, KraftTerms;
    var e := d - l[m];
    var q := Pow2(e + 1);
    var t := KraftTerms(w, l, d);
    Pow2Step(e);
    OthersAreCoarse(w, l, d, m, t[m := 0]);
    SumWithout(t, m, t[m := 0], q);
    PowDivides(d, e + 1);
    SumMultiple(Pow2(d), Sum(t[m := 0]), q);
    RoomLeft(Pow2(d) - Sum(t[m := 0]), q, Pow2(e));
    KraftUpdate(w, l, d, m, l[m] - 1);
    CostUpdate(w, l, m, l[m] - 1);
  }

  lemma OthersAreCoarse(w: Counts, l: Lengths, d: nat, m: nat, t': seq<int>)
    requires |l| == |w| && m < |w| && w[m] > 0 && 0 < l[m] <= d && t' == KraftTerms(w, l, d)[m := 0]
    requires forall i :: 0 <= i < |w| && w[i] > 0 && i != m ==> l[i] < l[m]
    ensures forall i :: 0 <= i < |t'| ==> t'[i] % Pow2(d - l[m] + 1) == 0
    ensures KraftTerms(w, l, d)[m] == Pow2(d - l[m])
  {
    hide Pow2;
    forall i | 0 <= i < |t'|
      ensures t'[i] % Pow2(d - l[m] + 1) == 0
    {
      if i != m && w[i] > 0 {
        PowDivides(d - l[i], d - l[m] + 1);
      }
    }
  }

  lemma SumWithout(t: seq<int>, m: nat, t': seq<int>, q: int)
    requires q > 0 && m < |t| && t' == t[m := 0] && forall i :: 0 <= i < |t'| ==> t'[i] % q == 0
    ensures Sum(t') % q == 0 && Sum(t) == Sum(t') + t[m]
  {
    TermsDivisible(t', |t'|, q);
    SumUpdate(t, m, 0);
  }

  lemma RoomLeft(x: int, q: int, h: int)
    requires h > 0 && q == 2 * h && x % q == 0 && x >= h
    ensures x >= q
  {
  }

  /** Two coded symbols cannot both have the empty code. */
  lemma TwoNeedBits(w: Counts, l: Lengths, d: nat, a: nat, b: nat)
    requires Kraft(w, l, d) && a < |w| && b < |w| && a != b && w[a] > 0 && w[b] > 0
    ensures l[a] > 0
  {
    hide Pow2;
    var t := KraftTerms(w, l, d);
    var t' := t[a := 0];
    SumUpdate(t, a, 0);
    SumToNonneg(t', |t'|);
    assert t'[b] == Pow2(d - l[b]);
    assert t[a] == Pow2(d - l[a]);
  }

  /** Some prefix code at most as costly gives the two smallest counts the same, greatest, length. */
  lemma {:induction false} DeepestPair(w: Counts, l: Lengths, d: nat, c1: nat, c2: nat) returns (l': Lengths)
    requires Kraft(w, l, d) && NextPair(w, c1, c2)
    ensures Kraft(w, l', d) && Cost(w, l') <= Cost(w, l)
    ensures l'[c1] == l'[c2] > 0
    decreases Cost(w, l)
  {
    hide Pow2, KraftTerms, CostTerms, Sum, Longest;
    var m := Longest(w, l, |w|);
    TwoNeedBits(w, l, d, c1, c2);
    if forall i :: 0 <= i < |w| && w[i] > 0 && i != m ==> l[i] < l[m] {
      ShortenLone(w, l, d, m);
      CostNonneg(w, l[m := l[m] - 1]);
      l' := DeepestPair(w, l[m := l[m] - 1], d, c1, c2);
    } else {
      var q :| 0 <= q < |w| && w[q] > 0 && q != m && l[q] == l[m];
      l' := l;
      var p := if m == c2 || q == c1 then q else m;
      if p != c1 {
        l' := Exchange(w, l', d, c1, p);
      }
      var r := if l[m] == l'[c2] then c2 else if p == m then q else m;
      if r != c2 {
        l' := Exchange(w, l', d, c2, r);
      }
    }
  }

  lemma CostNonneg(w: Counts, l: Lengths)
    requires |l| == |w|
    ensures Cost(w, l) >= 0
  {
    SumToNonneg(CostTerms(w, l), |w|);
  }

  /** Any prefix code costs at least the sum of the two smallest counts more than some prefix code for the
      counts with those two merged. */
  lemma MergeStep(w: Counts, l: Lengths, d: nat, c1: nat, c2: nat) returns (l': Lengths)
    requires Kraft(w, l, d) && NextPair(w, c1, c2)
    ensures Kraft(Merge(w, c1, c2), l', d)
    ensures Cost(Merge(w, c1, c2), l') + w[c1] + w[c2] <= Cost(w, l)
  {
    hide Longest;
    var m := DeepestPair(w, l, d, c1, c2);
    l' := m[c1 := m[c1] - 1];
    var w' := Merge(w, c1, c2);
    MergedKraft(w, m, d, c1, c2);
    MergedCost(w, m, c1, c2);
  }

  lemma MergedKraft(w: Counts, m: Lengths, d: nat, c1: nat, c2: nat)
    requires Kraft(w, m, d) && NextPair(w, c1, c2) && m[c1] == m[c2] > 0
    ensures Kraft(Merge(w, c1, c2), m[c1 := m[c1] - 1], d)
    ensures Sum(KraftTerms(Merge(w, c1, c2), m[c1 := m[c1] - 1], d)) == Sum(KraftTerms(w, m, d))
  {
    hide Pow2;
    var w', l' := Merge(w, c1, c2), m[c1 := m[c1] - 1];
    var t, t' := KraftTerms(w, m, d), KraftTerms(w', l', d);
    Pow2Step(d - m[c1]);
    assert t' == t[c1 := Pow2(d - m[c1] + 1)][c2 := 0];
    SumUpdate(t, c1, Pow2(d - m[c1] + 1));
    SumUpdate(t[c1 := Pow2(d - m[c1] + 1)], c2, 0);
  }

  lemma MergedCost(w: Counts, m: Lengths, c1: nat, c2: nat)
    requires |m| == |w| && NextPair(w, c1, c2) && m[c1] == m[c2] > 0
    ensures Cost(Merge(w, c1, c2), m[c1 := m[c1] - 1]) + w[c1] + w[c2] == Cost(w, m)
  {
    var w', l' := Merge(w, c1, c2), m[c1 := m[c1] - 1];
    var t, t' := CostTerms(w, m), CostTerms(w', l');
    var v := (w[c1] + w[c2]) * (m[c1] - 1);
    assert t' == t[c1 := v][c2 := 0];
    SumUpdate(t, c1, v);
    SumUpdate(t[c1 := v], c2, 0);
    assert w[c1] * m[c1] + w[c2] * m[c2] == v + w[c1] + w[c2];
  }

  /** Number of symbols still to be coded. */
  function Active(w: Counts, n: nat): (k: nat)
    requires n <= |w|
    ensures k <= n
  {
    if n == 0 then 0 else Active(w, n - 1) + if w[n - 1] > 0 then 1 else 0
  }

  lemma {:induction false} ActiveUpdate(w: Counts, i: nat, v: nat, n: nat)
    requires i < |w| && n <= |w|
    ensures Active(w[i := v], n) == Active(w, n)
            + if i < n then (if v > 0 then 1 else 0) - (if w[i] > 0 then 1 else 0) else 0
  {
    if n > 0 {
      ActiveUpdate(w, i, v, n - 1);
    }
  }

  lemma MergeShrinks(w: Counts, c1: nat, c2: nat)
    requires NextPair(w, c1, c2)
    ensures Active(Merge(w, c1, c2), |w|) == Active(w, |w|) - 1
  {
    hide Active;
    var u: Counts := w[c1 := w[c1] + w[c2]];
    ActiveUpdate(w, c1, w[c1] + w[c2], |w|);
    ActiveUpdate(u, c2, 0, |w|);
  }

  /** What Huffman's procedure pays: at every merge, the merged count. */
  function HuffmanCost(w: Counts): int
    decreases Active(w, |w|)
  {
    var c1 := Smallest(w, |w|, -1);
    var c2 := Smallest(w, |w|, c1);
    if c1 < 0 || c2 < 0 then 0
    else
      MergeShrinks(w, c1, c2);
      w[c1] + w[c2] + HuffmanCost(Merge(w, c1, c2))
  }

  /** Huffman's theorem: no code that satisfies Kraft's inequality is cheaper. */
  lemma {:induction false} NoCheaperCode(w: Counts, l: Lengths, d: nat)
    requires Kraft(w, l, d)
    ensures HuffmanCost(w) <= Cost(w, l)
    decreases Active(w, |w|)
  {
    hide Kraft, Cost, Smallest;
    var c1 := Smallest(w, |w|, -1);
    var c2 := Smallest(w, |w|, c1);
    KraftLength(w, l, d);
    if c1 < 0 || c2 < 0 {
      CostNonneg(w, l);
    } else {
      MergeShrinks(w, c1, c2);
      var l' := MergeStep(w, l, d, c1, c2);
      NoCheaperCode(Merge(w, c1, c2), l', d);
    }
  }

  lemma KraftLength(w: Counts, l: Lengths, d: nat)
    requires Kraft(w, l, d)
    ensures |l| == |w|
  {
  }
}
