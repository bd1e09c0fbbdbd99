/** The second half of `jpeg_gen_optimal_table`: counting code lengths, limiting them to 16 bits by the
    method of T.81 section K.2, and listing the symbols. */
module HuffmanLimit {
  import opened Numbers
  import opened Sums
  import opened HuffmanOptimal
  import opened HuffmanTree

  const MAX_CLEN := 32

  /** Number of symbols per code length, as UINT8 bits[MAX_CLEN + 1]. */
  type LengthCounts = b: seq<int> | |b| == 33 && forall k :: 0 <= k < 33 ==> b[k] >= 0 witness seq(33, _ => 0)

  function SpaceTerms(b: LengthCounts): (t: seq<int>)
    ensures |t| == 33
  {
    seq(33, k requires 0 <= k < 33 => b[k] * Pow2(32 - k))
  }

  /** Code space used by the lengths, in units of 2^-32. */
  function Space(b: LengthCounts): int {
    Sum(SpaceTerms(b))
  }

  lemma SpaceUpdate(b: LengthCounts, k: nat, v: nat)
    requires k < 33
    ensures Space(b[k := v]) == Space(b) + (v - b[k]) * Pow2(32 - k)
    ensures Sum(b[k := v]) == Sum(b) + v - b[k]
  {
    hide Pow2;
    assert SpaceTerms(b[k := v]) == SpaceTerms(b)[k := v * Pow2(32 - k)];
    SumUpdate(SpaceTerms(b), k, v * Pow2(32 - k));
    SumUpdate(b, k, v);
    assert (v - b[k]) * Pow2(32 - k) == v * Pow2(32 - k) - b[k] * Pow2(32 - k);
  }

  /** With nothing longer than `i`, a full code has an even number of codes of length `i`. */
  lemma LongestIsEven(b: LengthCounts, i: nat)
    requires Space(b) == Pow2(32) && 0 < i <= 32 && forall k :: i < k < 33 ==> b[k] == 0
    ensures b[i] % 2 == 0
  {
    hide Pow2, Sum, SpaceTerms;
    var q := Pow2(33 - i);
    var t := SpaceTerms(b);
    ShorterAreCoarse(b, i, t[i := 0]);
    TermAt(b, i);
    SumWithout(t, i, t[i := 0], q);
    PowDivides(32, 33 - i);
    SumMultiple(Pow2(32), Sum(t[i := 0]), q);
    Pow2Step(32 - i);
    HalfMultiple(b[i], Pow2(32 - i));
  }

  lemma ShorterAreCoarse(b: LengthCounts, i: nat, t': seq<int>)
    requires 0 < i <= 32 && (forall k :: i < k < 33 ==> b[k] == 0) && t' == SpaceTerms(b)[i := 0]
    ensures forall k :: 0 <= k < 33 ==> t'[k] % Pow2(33 - i) == 0
  {
    hide SpaceTerms, Pow2;
    var q := Pow2(33 - i);
    forall k | 0 <= k < 33
      ensures t'[k] % q == 0
    {
      CoarseTerm(b, i, k);
      Multiple(q, 0);
    }
  }

  lemma TermAt(b: LengthCounts, i: nat)
    requires i < 33
    ensures SpaceTerms(b)[i] == b[i] * Pow2(32 - i)
  {
  }

  lemma CoarseTerm(b: LengthCounts, i: nat, k: nat)
    requires 0 < i <= 32 && k < 33 && (k > i ==> b[k] == 0)
    ensures k != i ==> SpaceTerms(b)[k] % Pow2(33 - i) == 0
  {
    hide Pow2;
    if k < i {
      PowDivides(32 - k, 33 - i);
      ScaledMultiple(b[k], Pow2(32 - k), Pow2(33 - i));
    } else if k > i {
      ScaledMultiple(0, 0, Pow2(33 - i));
      assert b[k] * Pow2(32 - k) == 0;
    }
  }

  lemma ScaledMultiple(a: int, x: int, q: int)
    requires q > 0 && x % q == 0
    ensures (a * x) % q == 0
  {
    var y := x / q;
    assert a * x == q * (a * y);
    Multiple(q, a * y);
  }

  lemma DivExact(x: int, q: int)
    requires q > 0 && x % q == 0
    ensures x == x / q * q
  {
  }

  lemma HalfMultiple(a: int, h: int)
    requires h > 0 && (a * h) % (2 * h) == 0
    ensures a % 2 == 0
  {
    var x := a * h;
    var y := x / (2 * h);
    DivExact(x, 2 * h);
    MulAssoc(y, 2, h);
    MulCompare(a, y * 2, h);
  }

  /** A full code with at most 255 codes, some of length i > 16, also has one of length at most i - 2. */
  lemma DonorExists(b: LengthCounts, i: nat)
    requires Space(b) == Pow2(32) && Sum(b) <= 255 && 16 < i <= 32 && b[0] == 0
    requires forall k :: i < k < 33 ==> b[k] == 0
    ensures exists j :: 1 <= j <= i - 2 && b[j] > 0
  {
    hide Pow2, Space, Sum;
    if forall j :: 1 <= j <= i - 2 ==> b[j] == 0 {
      OnlyLongest(b, i);
      TooFew(b[i], b[i - 1], i);
      assert false;
    }
  }

  lemma OnlyLongest(b: LengthCounts, i: nat)
    requires 1 < i <= 32 && forall k :: 0 <= k < 33 && k != i && k != i - 1 ==> b[k] == 0
    ensures Sum(b) == b[i] + b[i - 1]
    ensures Space(b) == b[i] * Pow2(32 - i) + b[i - 1] * (2 * Pow2(32 - i))
  {
    hide Pow2, Space;
    var z: LengthCounts := b[i := 0];
    var y: LengthCounts := z[i - 1 := 0];
    SpaceUpdate(b, i, 0);
    SpaceUpdate(z, i - 1, 0);
    SumToZero(y, 33);
    EmptySpace(y);
    Pow2Step(32 - i);
    assert (0 - b[i]) * Pow2(32 - i) == -(b[i] * Pow2(32 - i));
    assert (0 - b[i - 1]) * Pow2(33 - i) == -(b[i - 1] * (2 * Pow2(32 - i)));
  }

  lemma EmptySpace(y: LengthCounts)
    requires forall k :: 0 <= k < 33 ==> y[k] == 0
    ensures Space(y) == 0
  {
    hide Pow2;
    SumToZero(SpaceTerms(y), 33);
  }

  lemma TooFew(p: nat, q: nat, i: nat)
    requires 16 < i <= 32 && p + q <= 255
    ensures p * Pow2(32 - i) + q * (2 * Pow2(32 - i)) < Pow2(32)
  {
    hide Pow2;
    var h := Pow2(32 - i);
    Pow2Add(i, 32 - i);
    Pow2Monotone(16, i);
    Pow2Values();
    assert p * h + q * (2 * h) == (p + 2 * q) * h;
    MulCompare(p + 2 * q, Pow2(i), h);
  }

  /** One round of K.2: two codes of length i and one of length j become one of i - 1 and two of j + 1. */
  function Moved(b: LengthCounts, i: nat, j: nat): seq<int>
    requires 2 < i <= 32 && j <= i - 2
  {
    var b1 := b[i := b[i] - 2];
    var b2 := b1[i - 1 := b1[i - 1] + 1];
    var b3 := b2[j + 1 := b2[j + 1] + 2];
    b3[j := b3[j] - 1]
  }

  lemma MoveKeepsSpace(b: LengthCounts, i: nat, j: nat)
    requires 2 < i <= 32 && 1 <= j <= i - 2 && b[i] >= 2 && b[j] > 0
    ensures forall k :: 0 <= k < 33 ==> Moved(b, i, j)[k] >= 0
    ensures Space(Moved(b, i, j)) == Space(b) && Sum(Moved(b, i, j)) == Sum(b)
  {
    hide Pow2, Space, Sum;
    var b1: LengthCounts := b[i := b[i] - 2];
    var b2: LengthCounts := b1[i - 1 := b1[i - 1] + 1];
    var b3: LengthCounts := b2[j + 1 := b2[j + 1] + 2];
    SpaceChange(b, i, -2, -2 * Pow2(32 - i));
    SpaceChange(b1, i - 1, 1, Pow2(33 - i));
    SpaceChange(b2, j + 1, 2, 2 * Pow2(31 - j));
    SpaceChange(b3, j, -1, -Pow2(32 - j));
    Pow2Step(32 - i);
    Pow2Step(31 - j);
  }

  lemma SpaceChange(b: LengthCounts, k: nat, delta: int, space: int)
    requires k < 33 && b[k] + delta >= 0 && space == delta * Pow2(32 - k)
    ensures Space(b[k := b[k] + delta]) == Space(b) + space && Sum(b[k := b[k] + delta]) == Sum(b) + delta
  {
    hide Pow2, Space, Sum;
    SpaceUpdate(b, k, b[k] + delta);
  }

  /** A full code: what the lengths are before the pseudo-symbol's slot is taken out. */
  ghost predicate FullCode(b: LengthCounts, n: nat) {
    b[0] == 0 && Space(b) == Pow2(32) && Sum(b) == n
  }

  lemma BitsBounded(b: LengthCounts, k: nat)
    requires k < 33
    ensures b[k] <= Sum(b)
  {
    SumToNonneg(b, 33);
  }

  /** A round of T.81 section K.2 as Figure K.3 has it: of the greatest length `i`, a pair of codes is taken out. Their
      common prefix serves one of the two symbols; a code of the next shortest length in use makes room for the other,
      and both symbols there are one bit longer. All other lengths keep their counts. */
  ghost predicate Round(b: LengthCounts, b': LengthCounts, i: nat, j: nat) {
    && 16 < i <= 32 && b[i] > 0 && (forall k :: i < k < 33 ==> b[k] == 0)
    && 1 <= j <= i - 2 && b[j] > 0 && (forall m :: j < m <= i - 2 ==> b[m] == 0)
    && forall k :: 0 <= k < 33 ==>
         b'[k] == b[k] - (if k == i then 2 else if k == j then 1 else 0)
                  + (if k == i - 1 then 1 else 0) + (if k == j + 1 then 2 else 0)
  }

  ghost predicate Shortens(b: LengthCounts, b': LengthCounts) {
    exists i, j :: Round(b, b', i, j)
  }

  /** The successive counts of the rounds. */
  ghost predicate Rounds(bs: seq<LengthCounts>) {
    bs != [] && forall m :: 0 < m < |bs| ==> RoundAt(bs, m)
  }

  ghost predicate RoundAt(bs: seq<LengthCounts>, m: nat)
    requires 0 < m < |bs|
  {
    Shortens(bs[m - 1], bs[m])
  }

  /** Rounds lead from one to the other, and no code is longer than 16 bits any more. */
  ghost predicate LimitedTo(b: LengthCounts, b': LengthCounts) {
    && (exists bs :: Rounds(bs) && bs != [] && bs[0] == b && bs[|bs| - 1] == b')
    && AllShort(b')
  }

  ghost predicate AllShort(b: LengthCounts) {
    forall k :: 16 < k < 33 ==> b[k] == 0
  }

  lemma RoundIsUnique(b: LengthCounts, x: LengthCounts, y: LengthCounts)
    requires Shortens(b, x) && Shortens(b, y)
    ensures x == y
  {
    var i, j :| Round(b, x, i, j);
    var i', j' :| Round(b, y, i', j');
    assert i == i' && j == j';
  }

  lemma {:induction false} RoundsAreUnique(bs: seq<LengthCounts>, cs: seq<LengthCounts>)
    requires Rounds(bs) && Rounds(cs) && bs[0] == cs[0]
    requires AllShort(bs[|bs| - 1]) && AllShort(cs[|cs| - 1])
    ensures bs == cs
  {
    hide Round;
    if |bs| == 1 || |cs| == 1 {
      if |bs| > 1 {
        assert RoundAt(bs, 1);
        NotShortened(bs[0], bs[1]);
      } else if |cs| > 1 {
        assert RoundAt(cs, 1);
        NotShortened(cs[0], cs[1]);
      }
    } else {
      assert RoundAt(bs, 1) && RoundAt(cs, 1);
      RoundIsUnique(bs[0], bs[1], cs[1]);
      LaterRounds(bs);
      LaterRounds(cs);
      RoundsAreUnique(bs[1..], cs[1..]);
      assert bs == [bs[0]] + bs[1..] && cs == [cs[0]] + cs[1..];
    }
  }

  lemma LaterRounds(bs: seq<LengthCounts>)
    requires Rounds(bs) && |bs| > 1
    ensures Rounds(bs[1..])
  {
    hide Shortens;
    forall m | 0 < m < |bs[1..]|
      ensures RoundAt(bs[1..], m)
    {
      assert RoundAt(bs, m + 1);
    }
  }

  lemma NotShortened(b: LengthCounts, b': LengthCounts)
    requires Shortens(b, b')
    ensures exists k :: 16 < k < 33 && b[k] != 0
  {
    var i, j :| Round(b, b', i, j);
  }

  lemma MoreRounds(b0: LengthCounts, bs: seq<LengthCounts>, b: LengthCounts)
    requires Rounds(bs) && bs[0] == b0 && Shortens(bs[|bs| - 1], b)
    ensures Rounds(bs + [b]) && (bs + [b])[0] == b0
  {
    hide Shortens;
    forall m | 0 < m < |bs + [b]|
      ensures RoundAt(bs + [b], m)
    {
      assert m < |bs| ==> RoundAt(bs, m);
    }
  }

  /** The body of the length-limiting loop: a donor length is found, and two codes of length i are shortened. */
  method LimitRound(bits: array<int>, i: nat, ghost n: nat)
    requires bits.Length == 33 && (forall k :: 0 <= k < 33 ==> bits[k] >= 0) && n <= 255
    requires FullCode(bits[..], n) && 16 < i <= 32 && bits[i] > 0 && forall k :: i < k < 33 ==> bits[k] == 0
    modifies bits
    ensures forall k :: 0 <= k < 33 ==> bits[k] >= 0
    ensures FullCode(bits[..], n) && forall k :: i < k < 33 ==> bits[k] == 0
    ensures bits[i] == old(bits[i]) - 2 && Shortens(old(bits[..]), bits[..])
  {
    hide Pow2, Space, Sum;
    ghost var b: LengthCounts := bits[..];
    LongestIsEven(b, i);
    DonorExists(b, i);
    var j := i - 2;
    while bits[j] == 0
      invariant 1 <= j <= i - 2 && exists m :: 1 <= m <= j && b[m] > 0
      invariant bits[..] == b && forall m :: j < m <= i - 2 ==> b[m] == 0
      decreases j
    {
      j := j - 1;
    }
    MoveKeepsSpace(b, i, j);
    ghost var b' := Moved(b, i, j);
    RoomInByte(b', n);
    bits[i] := (bits[i] - 2) % 256;
    bits[i - 1] := (bits[i - 1] + 1) % 256;
    bits[j + 1] := (bits[j + 1] + 2) % 256;
    bits[j] := (bits[j] - 1) % 256;
    assert bits[..] == b';
    assert Round(b, b', i, j);
  }

  /** The length-limiting loop. UINT8 arithmetic is exact because there are at most 255 symbols. */
  method LimitLengths(bits: array<int>, ghost n: nat)
    requires bits.Length == 33 && (forall k :: 0 <= k < 33 ==> bits[k] >= 0) && n <= 255
    requires FullCode(bits[..], n)
    modifies bits
    ensures forall k :: 0 <= k < 33 ==> bits[k] >= 0
    ensures FullCode(bits[..], n) && forall k :: 16 < k < 33 ==> bits[k] == 0
    ensures LimitedTo(old(bits[..]), bits[..])
    ensures (forall k :: 16 < k < 33 ==> old(bits[k]) == 0) ==> bits[..] == old(bits[..])
  {
    hide Pow2, Space, Sum, Shortens, Rounds;
    ghost var b0: LengthCounts := bits[..];
    ghost var bs: seq<LengthCounts> := [b0];
    NoRounds(b0);
    var i := MAX_CLEN;
    while i > 16
      invariant 16 <= i <= 32 && forall k :: 0 <= k < 33 ==> bits[k] >= 0
      invariant FullCode(bits[..], n) && forall k :: i < k < 33 ==> bits[k] == 0
      invariant (forall k :: 16 < k < 33 ==> old(bits[k]) == 0) ==> bits[..] == old(bits[..])
      invariant Rounds(bs) && bs != [] && bs[0] == b0 && bs[|bs| - 1] == bits[..]
    {
      while bits[i] > 0
        invariant forall k :: 0 <= k < 33 ==> bits[k] >= 0
        invariant FullCode(bits[..], n) && forall k :: i < k < 33 ==> bits[k] == 0
        invariant (forall k :: 16 < k < 33 ==> old(bits[k]) == 0) ==> bits[..] == old(bits[..])
        invariant Rounds(bs) && bs != [] && bs[0] == b0 && bs[|bs| - 1] == bits[..]
        decreases bits[i]
      {
        LimitRound(bits, i, n);
        ghost var b: LengthCounts := bits[..];
        MoreRounds(b0, bs, b);
        bs := bs + [b];
      }
      i := i - 1;
    }
  }

  lemma NoRounds(b: LengthCounts)
    ensures Rounds([b])
  {
  }

  lemma RoomInByte(b: LengthCounts, n: nat)
    requires Sum(b) == n <= 255
    ensures forall k :: 0 <= k < 33 ==> b[k] <= 255
  {
    forall k | 0 <= k < 33
      ensures b[k] <= 255
    {
      BitsBounded(b, k);
    }
  }

  lemma {:induction false} KraftRescale(w: Counts, l: Lengths, d: nat, e: nat, n: nat)
    requires |l| == |w| && n <= |w| && forall i :: 0 <= i < |w| && w[i] > 0 ==> l[i] <= d
    ensures SumTo(KraftTerms(w, l, d + e), n) == SumTo(KraftTerms(w, l, d), n) * Pow2(e)
  {
    hide Pow2;
    if n > 0 {
      KraftRescale(w, l, d, e, n - 1);
      var i := n - 1;
      if w[i] > 0 {
        Pow2Add(d - l[i], e);
      }
      assert KraftTerms(w, l, d + e)[i] == KraftTerms(w, l, d)[i] * Pow2(e);
      Split(SumTo(KraftTerms(w, l, d), i), KraftTerms(w, l, d)[i], Pow2(e));
    }
  }

  /** With every length at most 32, the optimal lengths fill code space in units of 2^-32 as well. */
  lemma OptimalFills(orig: Counts, l: Lengths)
    requires Optimal(orig, l) && forall i :: 0 <= i < SYMBOLS ==> l[i] <= MAX_CLEN
    ensures Sum(KraftTerms(orig, l, MAX_CLEN)) == Pow2(32)
  {
    hide Pow2, KraftTerms, Cost;
    KraftRescale(orig, l, MAX_CLEN, 225, SYMBOLS);
    Pow2Add(32, 225);
    MulCompare(Sum(KraftTerms(orig, l, MAX_CLEN)), Pow2(32), Pow2(225));
  }

  /** How many of the first `n` symbols have length `k`. */
  function CountOf(l: Lengths, k: nat, n: nat): nat
    requires n <= |l|
  {
    if n == 0 then 0 else CountOf(l, k, n - 1) + if l[n - 1] == k then 1 else 0
  }

  /** The counts for the first `n` symbols. */
  function Tally(l: Lengths, n: nat): LengthCounts
    requires n <= |l| && forall i :: 0 <= i < n ==> l[i] <= MAX_CLEN
  {
    if n == 0 then seq(33, _ => 0)
    else
      var b := Tally(l, n - 1);
      if l[n - 1] == 0 then b else b[l[n - 1] := b[l[n - 1]] + 1]
  }

  lemma {:induction false} TallyIs(l: Lengths, n: nat)
    requires n <= |l| && forall i :: 0 <= i < n ==> l[i] <= MAX_CLEN
    ensures Tally(l, n)[0] == 0 && forall k :: 1 <= k < 33 ==> Tally(l, n)[k] == CountOf(l, k, n)
  {
    if n > 0 {
      TallyIs(l, n - 1);
    }
  }

  lemma {:induction false} TallySums(orig: Counts, l: Lengths, n: nat)
    requires n <= |l| == |orig| && forall i :: 0 <= i < n ==> l[i] <= MAX_CLEN && (l[i] > 0 <==> orig[i] > 0)
    ensures Sum(Tally(l, n)) == Active(orig, n) && Space(Tally(l, n)) == SumTo(KraftTerms(orig, l, MAX_CLEN), n)
  {
    hide Pow2, Space, Sum;
    var b := Tally(l, n);
    if n == 0 {
      EmptySpace(b);
      NoCounts(b);
    } else {
      TallySums(orig, l, n - 1);
      var b0 := Tally(l, n - 1);
      SpaceUpdate(b0, l[n - 1], b0[l[n - 1]] + 1);
    }
  }

  /** The optimal lengths are a full code. */
  lemma TallyIsFull(orig: Counts, l: Lengths)
    requires Optimal(orig, l) && forall i :: 0 <= i < SYMBOLS ==> l[i] <= MAX_CLEN
    ensures FullCode(Tally(l, SYMBOLS), Active(orig, SYMBOLS))
  {
    hide Pow2, Space, Tally, Active, KraftTerms, Fib, Cost;
    OptimalFills(orig, l);
    TallySums(orig, l, SYMBOLS);
    TallyIs(l, SYMBOLS);
  }

  lemma NoCounts(b: LengthCounts)
    requires forall k :: 0 <= k < 33 ==> b[k] == 0
    ensures Sum(b) == 0
  {
    SumToZero(b, 33);
  }

  /** At most 255 symbols: no count overflows. */
  lemma TallyFits(orig: Counts, l: Lengths, n: nat)
    requires n <= |l| == |orig| && forall i :: 0 <= i < n ==> l[i] <= MAX_CLEN && (l[i] > 0 <==> orig[i] > 0)
    requires Active(orig, |orig|) <= 255
    ensures forall k :: 0 <= k < 33 ==> Tally(l, n)[k] <= 255
  {
    hide Tally, Active, Sum, Space;
    ActiveGrows(orig, n, |orig|);
    TallySums(orig, l, n);
    RoomInByte(Tally(l, n), Active(orig, n));
  }

  /** "Now count the number of symbols of each code length"; fails when some length exceeds MAX_CLEN. */
  method CountLengths(codesize: array<int>, bits: array<int>, ghost orig: Counts) returns (ok: bool)
    requires codesize.Length == SYMBOLS && bits.Length == 33 && codesize != bits
    requires |orig| == SYMBOLS && Active(orig, SYMBOLS) <= 255
    requires forall i :: 0 <= i < SYMBOLS ==> codesize[i] >= 0 && (codesize[i] > 0 <==> orig[i] > 0)
    requires forall k :: 0 <= k < 33 ==> bits[k] == 0
    modifies bits
    ensures ok <==> forall i :: 0 <= i < SYMBOLS ==> codesize[i] <= MAX_CLEN
    ensures ok ==> bits[..] == Tally(codesize[..], SYMBOLS)
    ensures codesize[..] == old(codesize[..])
  {
    hide Active;
    ghost var l: Lengths := codesize[..];
    var i := 0;
    while i <= 256
      invariant i <= SYMBOLS && codesize[..] == l
      invariant forall j :: 0 <= j < i ==> l[j] <= MAX_CLEN
      invariant bits[..] == Tally(l, i)
    {
      if codesize[i] != 0 {
        if codesize[i] > MAX_CLEN {
          return false;
        }
        TallyFits(orig, l, i + 1);
        ghost var b: LengthCounts := bits[..];
        assert Tally(l, i + 1) == b[l[i] := b[l[i]] + 1];
        bits[codesize[i]] := (bits[codesize[i]] + 1) % 256;
        assert bits[..] == b[l[i] := b[l[i]] + 1];
      }
      i := i + 1;
    }
    return true;
  }

  lemma {:induction false} ActiveGrows(w: Counts, m: nat, n: nat)
    requires m <= n <= |w|
    ensures Active(w, m) <= Active(w, n)
  {
    if m < n {
      ActiveGrows(w, m, n - 1);
    }
  }

  /** "Remove the count for the pseudo-symbol 256 from the largest codelength"; returns that length. */
  method DropPseudo(bits: array<int>, ghost n: nat) returns (i: nat)
    requires bits.Length == 33 && (forall k :: 0 <= k < 33 ==> bits[k] >= 0) && n > 0
    requires FullCode(bits[..], n) && forall k :: 16 < k < 33 ==> bits[k] == 0
    modifies bits
    ensures 1 <= i <= 16 && old(bits[i]) > 0 && forall k :: i < k < 33 ==> bits[k] == 0
    ensures forall k :: 0 <= k < 33 ==> bits[k] >= 0 && bits[k] == old(bits[k]) - if k == i then 1 else 0
    ensures bits[0] == 0 && Sum(bits[..]) == n - 1 && Space(bits[..]) == Pow2(32) - Pow2(32 - i)
  {
    hide Pow2, Space, Sum;
    ghost var b: LengthCounts := bits[..];
    SomeCode(b);
    i := 16;
    while bits[i] == 0
      invariant i <= 16 && bits[..] == b
      invariant exists k :: 0 <= k <= i && b[k] > 0
      invariant forall k :: i < k < 33 ==> b[k] == 0
      decreases i
    {
      i := i - 1;
    }
    SpaceUpdate(b, i, b[i] - 1);
    bits[i] := bits[i] - 1;
    assert bits[..] == b[i := b[i] - 1];
  }

  lemma SomeCode(b: LengthCounts)
    requires Sum(b) > 0
    ensures exists k :: 0 <= k < 33 && b[k] > 0
  {
    if forall k :: 0 <= k < 33 ==> b[k] == 0 {
      SumToZero(b, 33);
    }
  }

  /** The symbols that get a code, each once, in order of their optimal code lengths and then of their numbers. */
  ghost predicate Listed(v: seq<nat>, orig: Counts, l: Lengths) {
    && |orig| == |l| == SYMBOLS && Distinct(v)
    && (forall p :: 0 <= p < |v| ==> v[p] < 256 && orig[v[p]] > 0)
    && (forall j :: 0 <= j < 256 && orig[j] > 0 ==> j in v)
    && (forall p, q :: 0 <= p < q < |v| ==> l[v[p]] < l[v[q]] || (l[v[p]] == l[v[q]] && v[p] < v[q]))
  }

  /** The list so far: all symbols with lengths below `i`, and those of length `i` below symbol `j`. */
  ghost predicate SortedUpTo(v: seq<nat>, l: Lengths, i: nat, j: nat) {
    && |l| == SYMBOLS && Distinct(v)
    && (forall q :: 0 <= q < |v| ==> v[q] < 256 && (0 < l[v[q]] < i || (0 < l[v[q]] == i && v[q] < j)))
    && (forall m :: 0 <= m < 256 && (0 < l[m] < i || (0 < l[m] == i && m < j)) ==> m in v)
    && (forall q, r :: 0 <= q < r < |v| ==> l[v[q]] < l[v[r]] || (l[v[q]] == l[v[r]] && v[q] < v[r]))
  }

  lemma SortedNext(v: seq<nat>, l: Lengths, i: nat, j: nat)
    requires SortedUpTo(v, l, i, j) && 0 < i && j < 256
    ensures l[j] == i ==> |v| < 256 && SortedUpTo(v + [j], l, i, j + 1)
    ensures l[j] != i ==> SortedUpTo(v, l, i, j + 1)
  {
    if l[j] == i {
      assert j !in v;
      FewerThanAll(v, j);
      var v' := v + [j];
      assert forall q :: 0 <= q < |v| ==> v'[q] == v[q];
      forall m | 0 <= m < 256 && (0 < l[m] < i || (l[m] == i && m < j + 1))
        ensures m in v'
      {
        assert v'[|v|] == j;
        assert m == j || m in v;
      }
    }
  }

  lemma SortedWrap(v: seq<nat>, l: Lengths, i: nat)
    requires SortedUpTo(v, l, i, 256) && i > 0
    ensures SortedUpTo(v, l, i + 1, 0)
  {
  }

  lemma SortedStart(l: Lengths)
    requires |l| == SYMBOLS
    ensures SortedUpTo([], l, 1, 0)
  {
  }

  lemma SortedEnd(v: seq<nat>, l: Lengths, orig: Counts)
    requires SortedUpTo(v, l, 33, 0) && |orig| == SYMBOLS
    requires forall i :: 0 <= i < SYMBOLS ==> 0 <= l[i] <= MAX_CLEN && (l[i] > 0 <==> orig[i] > 0)
    ensures Listed(v, orig, l)
  {
  }

  /** "Return a list of the symbols sorted by code length." */
  method SortSymbols(codesize: array<int>, huffval: array<int>, ghost orig: Counts) returns (p: nat, ghost v: seq<nat>)
    requires codesize.Length == SYMBOLS && huffval.Length == 256 && codesize != huffval && |orig| == SYMBOLS
    requires forall i :: 0 <= i < SYMBOLS ==> 0 <= codesize[i] <= MAX_CLEN && (codesize[i] > 0 <==> orig[i] > 0)
    modifies huffval
    ensures p == |v| <= 256 && huffval[..p] == v && Listed(v, orig, codesize[..])
  {
    hide SortedUpTo, Listed, Distinct;
    p := 0;
    v := [];
    ghost var l: Lengths := codesize[..];
    SortedStart(l);
    var i := 1;
    while i <= MAX_CLEN
      invariant 1 <= i <= 33 && codesize[..] == l
      invariant p == |v| <= 256 && huffval[..p] == v && SortedUpTo(v, l, i, 0)
    {
      p, v := SortOneLength(codesize, huffval, i, p, v, l);
      SortedWrap(v, l, i);
      i := i + 1;
    }
    SortedEnd(v, l, orig);
  }

  method SortOneLength(codesize: array<int>, huffval: array<int>, i: nat, p0: nat, ghost v0: seq<nat>, ghost l: Lengths)
    returns (p: nat, ghost v: seq<nat>)
    requires codesize.Length == SYMBOLS && huffval.Length == 256 && codesize != huffval && codesize[..] == l && i > 0
    requires p0 == |v0| <= 256 && huffval[..p0] == v0 && SortedUpTo(v0, l, i, 0)
    modifies huffval
    ensures p == |v| <= 256 && huffval[..p] == v && SortedUpTo(v, l, i, 256)
  {
    hide SortedUpTo, Distinct;
    p, v := p0, v0;
    var j := 0;
    while j <= 255
      invariant j <= 256 && codesize[..] == l
      invariant p == |v| <= 256 && huffval[..p] == v && SortedUpTo(v, l, i, j)
    {
      SortedNext(v, l, i, j);
      if codesize[j] == i {
        ghost var v' := v + [j];
        huffval[p] := j % 256;
        p := p + 1;
        assert huffval[..p] == v';
        v := v';
      }
      j := j + 1;
    }
  }

  /** A list of distinct bytes that misses one has room for it. */
  lemma FewerThanAll(v: seq<nat>, j: nat)
    requires Distinct(v) && (forall q :: 0 <= q < |v| ==> v[q] < 256) && j < 256 && j !in v
    ensures |v| < 256
  {
    var ones := seq(256, i => if i in v then 1 else 0);
    SumAtIsSum(ones, v, |v|);
    AllOnes(ones, v, |v|);
    var full := ones[j := 1];
    SumUpdate(ones, j, 1);
    BoundedSum(full, 256);
  }

  lemma {:induction false} AllOnes(s: seq<int>, v: seq<nat>, n: nat)
    requires n <= |v| && (forall j :: 0 <= j < |v| ==> v[j] < |s| && s[v[j]] == 1)
    ensures SumAt(s, v, n) == n
  {
    if n > 0 {
      AllOnes(s, v, n - 1);
    }
  }

  lemma {:induction false} BoundedSum(s: seq<int>, n: nat)
    requires n <= |s| && forall i :: 0 <= i < |s| ==> s[i] <= 1
    ensures SumTo(s, n) <= n
  {
    if n > 0 {
      BoundedSum(s, n - 1);
    }
  }

  /** The list is as long as the number of real symbols used. */
  lemma ListedCount(v: seq<nat>, orig: Counts, l: Lengths)
    requires Listed(v, orig, l)
    ensures |v| == Active(orig, 256)
  {
    var ones := seq(256, i requires 0 <= i < 256 => if orig[i] > 0 then 1 else 0);
    forall i | 0 <= i < 256 && ones[i] != 0
      ensures exists j :: 0 <= j < |v| && v[j] == i
    {
      assert i in v;
    }
    SumAtIsSum(ones, v, |v|);
    AllOnes(ones, v, |v|);
    ActiveIsSum(orig, ones, 256);
  }

  lemma {:induction false} ActiveIsSum(w: Counts, ones: seq<int>, n: nat)
    requires n <= |ones| <= |w| && forall i :: 0 <= i < |ones| ==> ones[i] == if w[i] > 0 then 1 else 0
    ensures Active(w, n) == SumTo(ones, n)
  {
    if n > 0 {
      ActiveIsSum(w, ones, n - 1);
    }
  }

  lemma {:induction false} FibMonotone(m: nat, n: nat)
    requires m <= n
    ensures Fib(m) <= Fib(n)
  {
    if m < n {
      FibMonotone(m, n - 1);
    }
  }

  /** JERR_HUFF_CLEN_OVERFLOW needs at least Fib(35) counted symbols. */
  lemma OverflowNeedsFib35(orig: Counts, l: Lengths, i: nat)
    requires Optimal(orig, l) && i < SYMBOLS && l[i] > MAX_CLEN
    ensures Sum(orig) >= Fib(35)
  {
    hide Fib, Pow2, Cost;
    FibMonotone(35, l[i] + 2);
  }

  /** Number of codes of each length from 0 to 16, as in JHUFF_TBL. */
  type Bits16 = b: seq<int> | |b| == 17 && forall k :: 0 <= k < 17 ==> b[k] >= 0 witness seq(17, _ => 0)

  function SpaceTerms16(b: Bits16): (t: seq<int>)
    ensures |t| == 17
  {
    seq(17, k requires 0 <= k < 17 => b[k] * Pow2(16 - k))
  }

  /** Code space used, in units of 2^-16. */
  function Space16(b: Bits16): int {
    Sum(SpaceTerms16(b))
  }

  lemma {:induction false} SpaceRescale(b: LengthCounts, n: nat)
    requires n <= 17
    ensures SumTo(SpaceTerms(b), n) == SumTo(SpaceTerms16(b[..17]), n) * Pow2(16)
  {
    hide Pow2;
    if n > 0 {
      var k := n - 1;
      SpaceRescale(b, k);
      Pow2Add(16 - k, 16);
      MulAssoc(b[k], Pow2(16 - k), Pow2(16));
      Split(SumTo(SpaceTerms16(b[..17]), k), SpaceTerms16(b[..17])[k], Pow2(16));
    }
  }

  lemma {:induction false} SumToTail(s: seq<int>, m: nat, n: nat)
    requires m <= n <= |s| && forall i :: m <= i < n ==> s[i] == 0
    ensures SumTo(s, n) == SumTo(s, m)
  {
    if m < n {
      SumToTail(s, m, n - 1);
    }
  }

  lemma {:induction false} SumToTake(s: seq<int>, t: seq<int>, n: nat)
    requires n <= |t| <= |s| && t == s[..|t|]
    ensures SumTo(s, n) == SumTo(t, n)
  {
    if n > 0 {
      SumToTake(s, t, n - 1);
    }
  }

  lemma LongTermsVanish(b: LengthCounts)
    requires forall k :: 16 < k < 33 ==> b[k] == 0
    ensures SumTo(SpaceTerms(b), 33) == SumTo(SpaceTerms(b), 17)
  {
    hide Pow2;
    var t := SpaceTerms(b);
    forall k | 17 <= k < 33
      ensures t[k] == 0
    {
      assert b[k] * Pow2(32 - k) == 0;
    }
    SumToTail(t, 17, 33);
  }

  /** The lengths 0 to 16 carry the whole table when nothing is longer. */
  lemma ShortTable(b: LengthCounts, i: nat)
    requires 1 <= i <= 16 && (forall k :: 16 < k < 33 ==> b[k] == 0) && Space(b) == Pow2(32) - Pow2(32 - i)
    ensures Sum(b[..17]) == Sum(b) && Space16(b[..17]) == Pow2(16) - Pow2(16 - i)
  {
    hide Pow2, SumTo, SpaceTerms, SpaceTerms16;
    SumToTail(b, 17, 33);
    SumToTake(b, b[..17], 17);
    LongTermsVanish(b);
    SpaceRescale(b, 17);
    ScaleGap(Space16(b[..17]), i);
  }

  lemma ScaleGap(x: int, i: nat)
    requires i <= 16 && x * Pow2(16) == Pow2(32) - Pow2(32 - i)
    ensures x == Pow2(16) - Pow2(16 - i)
  {
    hide Pow2;
    Pow2Add(16, 16);
    Pow2Add(16 - i, 16);
    Split(Pow2(16), -Pow2(16 - i), Pow2(16));
    assert -Pow2(16 - i) * Pow2(16) == -Pow2(32 - i);
    MulCompare(x, Pow2(16) - Pow2(16 - i), Pow2(16));
  }

  /** Only one code slot, of the greatest length `i`, is unused. */
  ghost predicate OneSlotLeft(bits: Bits16, i: nat) {
    && 1 <= i <= 16 && Space16(bits) == Pow2(16) - Pow2(16 - i)
    && forall k :: i < k <= 16 ==> bits[k] == 0
  }

  /** When no optimal length exceeds 16, the lengths are the optimal ones, except for one slot of length `i`. */
  ghost predicate AsCounted(bits: Bits16, l: Lengths, i: nat) {
    (forall j :: 0 <= j < |l| ==> l[j] <= 16)
    ==> forall k :: 1 <= k <= 16 ==> bits[k] == CountOf(l, k, |l|) - if k == i then 1 else 0
  }

  lemma {:induction false} NoneSoLong(l: Lengths, k: nat, n: nat)
    requires n <= |l| && forall j :: 0 <= j < |l| ==> l[j] < k
    ensures CountOf(l, k, n) == 0
  {
    if n > 0 {
      NoneSoLong(l, k, n - 1);
    }
  }

  lemma NothingToLimit(l: Lengths)
    requires forall j :: 0 <= j < |l| ==> l[j] <= 16
    ensures forall k :: 16 < k < 33 ==> Tally(l, |l|)[k] == 0
  {
    hide Tally, CountOf;
    TallyIs(l, |l|);
    forall k: nat | 16 < k < 33
      ensures CountOf(l, k, |l|) == 0
    {
      NoneSoLong(l, k, |l|);
    }
  }

  lemma DroppedIsAsCounted(l: Lengths, b1: LengthCounts, bits: Bits16, i: nat)
    requires forall j :: 0 <= j < |l| ==> l[j] <= MAX_CLEN
    requires (forall k :: 16 < k < 33 ==> Tally(l, |l|)[k] == 0) ==> b1 == Tally(l, |l|)
    requires forall k :: 0 <= k < 17 ==> bits[k] == b1[k] - if k == i then 1 else 0
    ensures AsCounted(bits, l, i)
  {
    hide Tally, CountOf;
    TallyIs(l, |l|);
    if forall j :: 0 <= j < |l| ==> l[j] <= 16 {
      NothingToLimit(l);
    }
  }

  /** A table as `jpeg_gen_optimal_table` leaves it: one code for each real symbol that was counted, none for
      any other, all of code space used except one slot of the greatest length; the lengths are the optimal ones if
      those need no limiting. */
  ghost predicate GoodForCounts(bits: Bits16, v: seq<nat>, orig: Counts, l: Lengths) {
    && bits[0] == 0 && Sum(bits) == |v| && Listed(v, orig, l)
    && exists i :: OneSlotLeft(bits, i) && AsCounted(bits, l, i)
  }

  /** The counts of the table are those of the optimal lengths, limited, and without the pseudo-symbol's code, which is
      one of the greatest length. */
  ghost predicate LimitedFrom(bits: Bits16, l: Lengths) {
    && (forall j :: 0 <= j < |l| ==> l[j] <= MAX_CLEN)
    && exists b, i :: LimitedTo(Tally(l, |l|), b) && WithoutOne(bits, b, i)
  }

  ghost predicate WithoutOne(bits: Bits16, b: LengthCounts, i: nat) {
    && 1 <= i <= 16 && b[i] > 0 && (forall k :: i < k < 33 ==> b[k] == 0)
    && forall k :: 0 <= k < 17 ==> bits[k] == b[k] - if k == i then 1 else 0
  }

  /** This leaves no choice: the optimal lengths determine the table's counts. */
  lemma LimitingDecides(bits: Bits16, bits': Bits16, l: Lengths)
    requires LimitedFrom(bits, l) && LimitedFrom(bits', l)
    ensures bits == bits'
  {
    hide Rounds, Tally;
    var b, i :| LimitedTo(Tally(l, |l|), b) && WithoutOne(bits, b, i);
    var b', i' :| LimitedTo(Tally(l, |l|), b') && WithoutOne(bits', b', i');
    var bs :| Rounds(bs) && bs != [] && bs[0] == Tally(l, |l|) && bs[|bs| - 1] == b;
    var cs :| Rounds(cs) && cs != [] && cs[0] == Tally(l, |l|) && cs[|cs| - 1] == b';
    RoundsAreUnique(bs, cs);
    assert i == i';
  }

  datatype Outcome = ClenOverflow | Made(bits: Bits16, huffval: seq<nat>)

  /** `jpeg_gen_optimal_table`. */
  method GenOptimalTable(freq: array<int>) returns (r: Outcome, ghost l: Lengths)
    requires freq.Length == SYMBOLS && forall i :: 0 <= i < SYMBOLS ==> freq[i] >= 0
    requires Sum(freq[..][256 := 1]) <= MAX_COUNT
    requires 1 <= Active(freq[..], 256) <= 254
    modifies freq
    ensures var orig := old(freq[..])[256 := 1];
            && Optimal(orig, l) && l == CodeLengths(orig)
            && (r.ClenOverflow? <==> exists i :: 0 <= i < SYMBOLS && l[i] > MAX_CLEN)
            && (r.ClenOverflow? ==> Sum(orig) >= Fib(35))
            && (r.Made? ==> GoodForCounts(r.bits, r.huffval, orig, l) && LimitedFrom(r.bits, l))
  {
    hide Pow2, Sum, Fib, Optimal, CodeLengths, Listed, Space, Space16, Tally, AsCounted, Active, LimitedTo;
    ghost var orig: Counts := freq[..][256 := 1];
    SomeActive(freq[..], 256);
    SymbolCount(freq[..], orig);
    var codesize := BuildLengths(freq);
    l := codesize[..];
    OptimalShape(orig, l);
    var bits := new int[33](_ => 0);
    var ok := CountLengths(codesize, bits, orig);
    if !ok {
      ghost var i :| 0 <= i < SYMBOLS && l[i] > MAX_CLEN;
      OverflowNeedsFib35(orig, l, i);
      return ClenOverflow, l;
    }
    TallyIsFull(orig, l);
    LimitLengths(bits, Active(orig, SYMBOLS));
    ghost var limited: LengthCounts := bits[..];
    var i := DropPseudo(bits, Active(orig, SYMBOLS));
    ShortTable(bits[..], i);
    DroppedIsAsCounted(l, limited, bits[..17], i);
    var huffval := new int[256](_ => 0);
    var p;
    ghost var v;
    p, v := SortSymbols(codesize, huffval, orig);
    ListedCount(v, orig, l);
    r := Made(bits[..17], huffval[..p]);
    assert huffval[..p] == v;
    assert OneSlotLeft(bits[..17], i);
    assert WithoutOne(bits[..17], limited, i);
  }

  lemma OptimalShape(orig: Counts, l: Lengths)
    requires Optimal(orig, l)
    ensures |orig| == |l| == SYMBOLS && forall i :: 0 <= i < SYMBOLS ==> (l[i] > 0 <==> orig[i] > 0)
  {
    hide Pow2, Cost, Fib;
  }

  lemma {:induction false} SomeActive(w: Counts, n: nat)
    requires n <= |w| && Active(w, n) > 0
    ensures exists i :: 0 <= i < n && w[i] > 0
  {
    if w[n - 1] == 0 {
      SomeActive(w, n - 1);
    }
  }

  lemma {:induction false} SameActive(w: Counts, w': Counts, n: nat)
    requires n <= |w| && n <= |w'| && forall i :: 0 <= i < n ==> w[i] == w'[i]
    ensures Active(w, n) == Active(w', n)
  {
    if n > 0 {
      SameActive(w, w', n - 1);
    }
  }

  lemma SymbolCount(w: Counts, orig: Counts)
    requires |w| == SYMBOLS && orig == w[256 := 1]
    ensures Active(orig, SYMBOLS) == Active(w, 256) + 1 && Active(orig, 256) == Active(w, 256)
  {
    SameActive(w, orig, 256);
  }

  /** Counts that grow like Fibonacci's numbers, for 33 symbols. */
  function FibCounts(): (w: Counts)
    ensures |w| == SYMBOLS && forall i :: 0 <= i < SYMBOLS ==> w[i] == if i < 33 then Fib(i + 3) else 0
  {
    seq(SYMBOLS, i requires 0 <= i < SYMBOLS => if i < 33 then Fib(i + 3) else 0)
  }

  /** After `k` merges: one tree, headed by `h`, with the first `k` symbols and the pseudo-symbol, that at depth `k`;
      and the other symbols by themselves. */
  ghost predicate OneChain(w: Counts, len: Lengths, root: seq<int>, k: nat, h: nat) {
    && |w| == |len| == |root| == SYMBOLS && k <= 33 && (h == 256 || h < k)
    && len[256] == k && root[256] == h && w[h] == Fib(k + 4) - 2
    && forall i :: 0 <= i < SYMBOLS && i != h ==> w[i] == if k <= i < 33 then Fib(i + 3) else 0
  }

  lemma FibGrows(m: nat, n: nat)
    requires 2 <= m < n
    ensures 0 < Fib(m) < Fib(n)
  {
    FibMonotone(m + 1, n);
    FibMonotone(2, m);
    FibMonotone(1, m - 1);
  }

  /** The next merge takes the tree and the next symbol. */
  lemma ChainPair(w: Counts, len: Lengths, root: seq<int>, k: nat, h: nat)
    requires OneChain(w, len, root, k, h) && k < 33
    ensures |w| == |len| == |root| == SYMBOLS
    ensures var c1 := Smallest(w, SYMBOLS, -1);
            var c2 := Smallest(w, SYMBOLS, c1);
            ((c1 == h && c2 == k) || (c1 == k && c2 == h)) && NextPair(w, c1, c2)
  {
    hide Fib;
    FibGrows(k + 3, k + 4);
    FibGrows(3, k + 4);
    FibThree();
    forall i | 0 <= i < SYMBOLS && i != h && i != k && w[i] > 0
      ensures w[i] > w[h] && w[i] > w[k]
    {
      FibMonotone(k + 4, i + 3);
    }
    assert w[h] > 0 && w[k] > 0;
  }

  lemma FibThree()
    ensures Fib(3) == 2 && Fib(4) == 3
  {
  }

  lemma FiveOn(n: nat, a: nat, b: nat)
    requires Fib(n) == a && Fib(n + 1) == b
    ensures Fib(n + 5) == 3 * a + 5 * b && Fib(n + 6) == 5 * a + 8 * b
  {
    assert Fib(n + 2) == a + b;
    assert Fib(n + 3) == a + 2 * b;
    assert Fib(n + 4) == 2 * a + 3 * b;
  }

  lemma Fib37()
    ensures Fib(37) == 24157817
  {
    hide Fib;
    assert Fib(2) == 1 && Fib(3) == 2 by {
      FibTwo();
    }
    FiveOn(2, 1, 2);
    FiveOn(7, 13, 21);
    FiveOn(12, 144, 233);
    FiveOn(17, 1597, 2584);
    FiveOn(22, 17711, 28657);
    FiveOn(27, 196418, 317811);
    FiveOn(32, 2178309, 3524578);
  }

  lemma FibTwo()
    ensures Fib(2) == 1 && Fib(3) == 2
  {
  }

  lemma ChainStep(orig: Counts, w: Counts, len: Lengths, root: seq<int>, k: nat, h: nat)
    requires OneChain(w, len, root, k, h) && k < 33 && |orig| == SYMBOLS && orig[256] == 1
    ensures var c1 := Smallest(w, SYMBOLS, -1);
            var c2 := Smallest(w, SYMBOLS, c1);
            && c1 >= 0 && c2 >= 0 && NextPair(w, c1, c2)
            && OneChain(Merge(w, c1, c2), Deeper(orig, len, root, c1, c2), Reroot(root, c1, c2), k + 1, c1)
  {
    hide OneChain, Smallest, Merge, Deeper, Reroot;
    ChainPair(w, len, root, k, h);
    ChainMerged(orig, w, len, root, k, h, Smallest(w, SYMBOLS, -1), Smallest(w, SYMBOLS, Smallest(w, SYMBOLS, -1)));
  }

  lemma ChainMerged(orig: Counts, w: Counts, len: Lengths, root: seq<int>, k: nat, h: nat, c1: nat, c2: nat)
    requires OneChain(w, len, root, k, h) && k < 33 && |orig| == SYMBOLS && orig[256] == 1
    requires (c1 == h && c2 == k) || (c1 == k && c2 == h)
    ensures OneChain(Merge(w, c1, c2), Deeper(orig, len, root, c1, c2), Reroot(root, c1, c2), k + 1, c1)
  {
    FibNext(k);
    hide Fib;
    var w' := Merge(w, c1, c2);
    assert w'[c1] == w[h] + w[k] && w'[c2] == 0;
    forall i | 0 <= i < SYMBOLS && i != c1
      ensures w'[i] == if k + 1 <= i < 33 then Fib(i + 3) else 0
    {
    }
  }

  lemma FibNext(k: nat)
    ensures Fib(k + 5) == Fib(k + 4) + Fib(k + 3)
  {
  }

  lemma {:induction false} ChainLength(orig: Counts, w: Counts, len: Lengths, root: seq<int>, k: nat, h: nat)
    requires OneChain(w, len, root, k, h) && |orig| == SYMBOLS && orig[256] == 1
    ensures LengthsFrom(orig, w, len, root)[256] == 33
    decreases 33 - k
  {
    hide OneChain, Smallest, Merge, Deeper, Reroot, Active;
    ChainShape(w, len, root, k, h);
    if k < 33 {
      ChainStep(orig, w, len, root, k, h);
      var c1 := Smallest(w, SYMBOLS, -1);
      var c2 := Smallest(w, SYMBOLS, c1);
      ChainLength(orig, Merge(w, c1, c2), Deeper(orig, len, root, c1, c2), Reroot(root, c1, c2), k + 1, c1);
    } else {
      ChainEnds(w, len, root, h);
    }
  }

  lemma ChainShape(w: Counts, len: Lengths, root: seq<int>, k: nat, h: nat)
    requires OneChain(w, len, root, k, h)
    ensures |w| == |len| == |root| == SYMBOLS && k <= 33 && len[256] == k
  {
  }

  lemma ChainEnds(w: Counts, len: Lengths, root: seq<int>, h: nat)
    requires OneChain(w, len, root, 33, h)
    ensures |w| == SYMBOLS && Smallest(w, SYMBOLS, Smallest(w, SYMBOLS, -1)) < 0
  {
    hide Fib;
  }

  /** They give the pseudo-symbol a code of 33 bits. */
  lemma FibCountsOverflow()
    ensures CodeLengths(FibCounts()[256 := 1])[256] == 33
  {
    hide Fib, LengthsFrom;
    var orig: Counts := FibCounts()[256 := 1];
    FibThree();
    ChainLength(orig, orig, Zeros(SYMBOLS), Identity(SYMBOLS), 0, 256);
  }

  lemma {:induction false} FibSum(n: nat)
    requires n <= SYMBOLS
    ensures SumTo(FibCounts(), n) == Fib((if n <= 33 then n else 33) + 4) - 3
    ensures Active(FibCounts(), n) == if n <= 33 then n else 33
  {
    hide Fib;
    if n == 0 {
      FibThree();
    } else {
      FibSum(n - 1);
      if n <= 33 {
        FibStep(n);
        FibGrows(2, n + 2);
      }
    }
  }

  lemma FibStep(n: nat)
    requires n > 0
    ensures Fib(n + 4) == Fib(n + 3) + Fib(n + 2)
  {
  }

  /** The total stays far below what the source allows, and the case that it calls impossible occurs. */
  method OverflowOccurs() returns (r: Outcome)
    ensures r.ClenOverflow?
  {
    hide Fib, LengthsFrom, CodeLengths, Optimal, Active, Sum, SumTo;
    ghost var w := FibCounts();
    var freq := new int[SYMBOLS](i => if 0 <= i < 33 then Fib(i + 3) else 0);
    assert freq[..] == w;
    Fib37();
    FibSum(SYMBOLS);
    FibSum(256);
    SumUpdate(w, 256, 1);
    SumOf(w);
    FibCountsOverflow();
    ghost var l;
    r, l := GenOptimalTable(freq);
  }

  lemma SumOf(s: seq<int>)
    ensures Sum(s) == SumTo(s, |s|)
  {
  }
}
