/** The tree-building loop of `jpeg_gen_optimal_table` (`jchuff.c`): repeated merging with linked chains. */
module HuffmanTree {
  import opened Numbers
  import opened Sums
  import opened HuffmanOptimal

  const SYMBOLS := 257
  const MAX_COUNT := 1000000000

  function Fib(n: nat): nat {
    if n == 0 then 0 else if n == 1 then 1 else Fib(n - 1) + Fib(n - 2)
  }

  /** The chain starting at `chain[0]` is what `others` links together. */
  ghost predicate Linked(others: seq<int>, chain: seq<nat>) {
    && (forall j :: 0 <= j < |chain| ==> chain[j] < |others|)
    && forall j :: 0 <= j < |chain| ==> LinkAt(others, chain, j)
  }

  ghost predicate LinkAt(others: seq<int>, chain: seq<nat>, j: nat)
    requires j < |chain| && chain[j] < |others|
  {
    others[chain[j]] == if j + 1 < |chain| then chain[j + 1] else -1
  }

  /** Which coded symbols belong to the tree headed by `h`. */
  ghost predicate Members(orig: Counts, root: seq<int>, h: int, chain: seq<nat>) {
    && |root| == |orig|
    && (forall j :: 0 <= j < |chain| ==> chain[j] < |orig| && orig[chain[j]] > 0 && root[chain[j]] == h)
    && (forall i :: 0 <= i < |orig| && orig[i] > 0 && root[i] == h ==> i in chain)
  }

  /** One tree: a symbol with a nonzero current count heads a chain of all the symbols of its tree. */
  ghost predicate Tree(orig: Counts, w: Counts, others: seq<int>, root: seq<int>, h: nat, chain: seq<nat>) {
    && |orig| == |w| == |others| == |root| == SYMBOLS && h < SYMBOLS
    && (if w[h] > 0 then chain != [] && chain[0] == h else chain == [])
    && Linked(others, chain) && Distinct(chain) && Members(orig, root, h, chain)
  }

  ghost predicate Forest(orig: Counts, w: Counts, others: seq<int>, root: seq<int>, chains: seq<seq<nat>>) {
    && |orig| == |w| == |others| == |root| == |chains| == SYMBOLS
    && (forall h :: 0 <= h < SYMBOLS ==> Tree(orig, w, others, root, h, chains[h]))
    && (forall i :: 0 <= i < SYMBOLS && orig[i] > 0 ==> 0 <= root[i] < SYMBOLS)
  }

  function Joined(chains: seq<seq<nat>>, c1: nat, c2: nat): seq<seq<nat>>
    requires c1 < |chains| && c2 < |chains|
  {
    chains[c1 := chains[c1] + chains[c2]][c2 := []]
  }

  function Reroot(root: seq<int>, c1: nat, c2: nat): (r: seq<int>)
    ensures |r| == |root|
  {
    seq(|root|, i requires 0 <= i < |root| => if root[i] == c2 then c1 else root[i])
  }

  lemma LinkJoined(others: seq<int>, a: seq<nat>, b: seq<nat>, root: seq<int>, c1: nat, c2: nat)
    requires a != [] && b != [] && b[0] == c2 && c1 != c2
    requires Linked(others, a) && Linked(others, b) && Distinct(a) && Distinct(b) && |root| == |others|
    requires forall j :: 0 <= j < |a| ==> root[a[j]] == c1
    requires forall j :: 0 <= j < |b| ==> root[b[j]] == c2
    ensures Linked(others[a[|a| - 1] := c2], a + b) && Distinct(a + b)
  {
    var ab, others' := a + b, others[a[|a| - 1] := c2];
    forall j | 0 <= j < |ab|
      ensures LinkAt(others', ab, j)
    {
      if j < |a| {
        assert LinkAt(others, a, j);
        assert ab[j] == a[j] && root[a[j]] == c1;
        if j + 1 < |a| {
          assert ab[j + 1] == a[j + 1] && a[j] != a[|a| - 1];
        } else {
          assert ab[j + 1] == b[0];
        }
      } else {
        var i := j - |a|;
        assert LinkAt(others, b, i);
        assert ab[j] == b[i] && root[b[i]] == c2 && root[a[|a| - 1]] == c1;
        assert i + 1 < |b| ==> ab[j + 1] == b[i + 1];
      }
    }
    forall i, j | 0 <= i < j < |ab|
      ensures ab[i] != ab[j]
    {
      assert i < |a| <= j ==> root[ab[i]] == c1 && root[ab[j]] == c2;
    }
  }

  lemma LinkKept(others: seq<int>, chain: seq<nat>, last: nat, v: int)
    requires Linked(others, chain) && last < |others| && last !in chain
    ensures Linked(others[last := v], chain)
  {
    var others' := others[last := v];
    forall j | 0 <= j < |chain|
      ensures LinkAt(others', chain, j)
    {
      assert LinkAt(others, chain, j);
    }
  }

  lemma JoinKeepsForest(orig: Counts, w: Counts, others: seq<int>, root: seq<int>, chains: seq<seq<nat>>, c1: nat,
                        c2: nat)
    requires Forest(orig, w, others, root, chains) && NextPair(w, c1, c2)
    ensures Tree(orig, w, others, root, c1, chains[c1]) && Tree(orig, w, others, root, c2, chains[c2])
    ensures var last := chains[c1][|chains[c1]| - 1];
            last < SYMBOLS
            && Forest(orig, Merge(w, c1, c2), others[last := c2], Reroot(root, c1, c2), Joined(chains, c1, c2))
  {
    hide Linked, Distinct;
    var a, b := chains[c1], chains[c2];
    assert Tree(orig, w, others, root, c1, a) && Tree(orig, w, others, root, c2, b);
    var last := a[|a| - 1];
    var w', others', root' := Merge(w, c1, c2), others[last := c2], Reroot(root, c1, c2);
    var chains' := Joined(chains, c1, c2);
    LinkJoined(others, a, b, root, c1, c2);
    forall h | 0 <= h < SYMBOLS
      ensures Tree(orig, w', others', root', h, chains'[h])
    {
      assert Tree(orig, w, others, root, h, chains[h]);
      if h == c1 {
      } else if h == c2 {
        EmptyChain(others');
      } else {
        LinkKept(others, chains[h], last, c2);
      }
    }
  }

  lemma EmptyChain(others: seq<int>)
    ensures Linked(others, []) && Distinct([])
  {
  }

  /** "Increment the codesize of everything in c's tree branch"; returns the last symbol of the branch. */
  method Deepen(codesize: array<int>, others: array<int>, c0: nat, ghost chain: seq<nat>) returns (c: nat)
    requires codesize.Length == others.Length == SYMBOLS && codesize != others
    requires chain != [] && chain[0] == c0 && Linked(others[..], chain) && Distinct(chain)
    modifies codesize
    ensures c == chain[|chain| - 1] < SYMBOLS
    ensures forall i :: 0 <= i < SYMBOLS ==> codesize[i] == old(codesize[i]) + if i in chain then 1 else 0
  {
    c := c0;
    ghost var o := others[..];
    assert LinkAt(o, chain, 0);
    codesize[c] := codesize[c] + 1;
    ghost var k := 0;
    while others[c] >= 0
      invariant k < |chain| && c == chain[k] < SYMBOLS && others[..] == o
      invariant forall i :: 0 <= i < SYMBOLS ==> codesize[i] == old(codesize[i]) + if i in chain[..k + 1] then 1 else 0
      decreases |chain| - k
    {
      assert LinkAt(o, chain, k);
      c := others[c];
      k := k + 1;
      assert LinkAt(o, chain, k);
      assert chain[..k + 1] == chain[..k] + [c];
      codesize[c] := codesize[c] + 1;
    }
    assert LinkAt(o, chain, k);
    assert chain[..k + 1] == chain;
  }

  /** The search for the smallest nonzero count, leaving out `except`. */
  method FindSmallest(freq: array<int>, except: int) returns (c: int)
    requires freq.Length == SYMBOLS && forall i :: 0 <= i < SYMBOLS ==> 0 <= freq[i] <= MAX_COUNT
    ensures c == Smallest(freq[..], SYMBOLS, except)
  {
    c := -1;
    var v := MAX_COUNT;
    var i := 0;
    ghost var w: Counts := freq[..];
    while i <= 256
      invariant i <= SYMBOLS && c == Smallest(w, i, except)
      invariant v == if c < 0 then MAX_COUNT else w[c]
    {
      if freq[i] != 0 && freq[i] <= v && i != except {
        v := freq[i];
        c := i;
      }
      i := i + 1;
    }
  }

  /** `len` with the symbols of `chain` one level deeper. */
  function Raised(len: Lengths, chain: seq<nat>): (r: Lengths)
    ensures |r| == |len|
  {
    seq(|len|, i requires 0 <= i < |len| => len[i] + if i in chain then 1 else 0)
  }

  lemma {:induction false} RaiseCost(orig: Counts, len: Lengths, chain: seq<nat>, n: nat)
    requires |orig| == |len| && n <= |chain| && Distinct(chain) && forall j :: 0 <= j < |chain| ==> chain[j] < |orig|
    ensures Cost(orig, Raised(len, chain[..n])) == Cost(orig, len) + SumAt(orig, chain, n)
  {
    hide Cost;
    if n == 0 {
      assert Raised(len, chain[..0]) == len;
    } else {
      var x := chain[n - 1];
      RaiseCost(orig, len, chain, n - 1);
      assert chain[..n] == chain[..n - 1] + [x];
      var m := Raised(len, chain[..n - 1]);
      assert Raised(len, chain[..n]) == m[x := m[x] + 1];
      CostUpdate(orig, m, x, m[x] + 1);
    }
  }

  /** What one tree weighs: its count, and a full share of code space. */
  ghost predicate Balanced(orig: Counts, w: Counts, len: Lengths, h: nat, chain: seq<nat>, d: nat) {
    && |orig| == |w| == |len| == SYMBOLS && h < SYMBOLS
    && (forall j :: 0 <= j < |chain| ==> chain[j] < SYMBOLS && len[chain[j]] <= d)
    && (w[h] > 0 ==> w[h] == SumAt(orig, chain, |chain|)
                     && SumAt(KraftTerms(orig, len, d), chain, |chain|) == Pow2(d))
  }

  lemma HalfShare(orig: Counts, len: Lengths, len': Lengths, chain: seq<nat>, d: nat)
    requires |orig| == |len| == |len'| && d > 0
    requires forall j :: 0 <= j < |chain| ==>
               chain[j] < |orig| && orig[chain[j]] > 0 && len'[chain[j]] == len[chain[j]] + 1 <= d
    requires SumAt(KraftTerms(orig, len, d), chain, |chain|) == Pow2(d)
    ensures SumAt(KraftTerms(orig, len', d), chain, |chain|) == Pow2(d - 1)
  {
    hide Pow2;
    var t, t' := KraftTerms(orig, len, d), KraftTerms(orig, len', d);
    forall j | 0 <= j < |chain|
      ensures t[chain[j]] == 2 * t'[chain[j]]
    {
      Pow2Step(d - len'[chain[j]]);
    }
    SumAtScaled(t, t', chain, |chain|, 2);
    Pow2Step(d - 1);
  }

  lemma JoinBalanced(orig: Counts, w: Counts, len: Lengths, c1: nat, c2: nat, a: seq<nat>, b: seq<nat>, d: nat)
    requires NextPair(w, c1, c2) && Balanced(orig, w, len, c1, a, d) && Balanced(orig, w, len, c2, b, d) && d > 0
    requires forall j :: 0 <= j < |a| ==> orig[a[j]] > 0 && len[a[j]] < d
    requires forall j :: 0 <= j < |b| ==> orig[b[j]] > 0 && len[b[j]] < d
    ensures Balanced(orig, Merge(w, c1, c2), Raised(len, a + b), c1, a + b, d)
  {
    hide Pow2, KraftTerms;
    var len' := Raised(len, a + b);
    HalfShare(orig, len, len', a, d);
    HalfShare(orig, len, len', b, d);
    Pow2Step(d - 1);
    SumAtAppend(orig, a, b, |b|);
    SumAtAppend(KraftTerms(orig, len', d), a, b, |b|);
    var ab := a + b;
    forall j | 0 <= j < |ab|
      ensures ab[j] < SYMBOLS && len'[ab[j]] <= d
    {
      assert j < |a| ==> ab[j] == a[j];
      assert j >= |a| ==> ab[j] == b[j - |a|];
    }
  }

  lemma OtherBalanced(orig: Counts, w: Counts, w': Counts, len: Lengths, h: nat, chain: seq<nat>, ab: seq<nat>, d: nat)
    requires Balanced(orig, w, len, h, chain, d) && |w'| == |w| && w'[h] == w[h]
    requires forall j :: 0 <= j < |chain| ==> chain[j] !in ab
    ensures Balanced(orig, w', Raised(len, ab), h, chain, d)
  {
    hide Pow2;
    SumAtSame(KraftTerms(orig, len, d), KraftTerms(orig, Raised(len, ab), d), chain, |chain|);
  }

  /** Depth against weight: a tree as deep as `e` somewhere weighs at least Fib(e + 2), the heavier of its two
      subtrees at least Fib(e + 1), and no other tree is lighter than that subtree. */
  ghost predicate Grown(w: Counts, len: Lengths, h: nat, chain: seq<nat>, big: seq<int>) {
    && |w| == |len| == |big| && h < |w|
    && (forall j :: 0 <= j < |chain| ==> chain[j] < |len|)
    && (forall j :: 0 <= j < |chain| ==>
          w[h] >= Fib(len[chain[j]] + 2) && (len[chain[j]] > 0 ==> big[h] >= Fib(len[chain[j]] + 1)))
    && (forall g :: 0 <= g < |w| && g != h && w[g] > 0 && w[h] > 0 ==> w[g] >= big[h])
  }

  lemma DeeperIsHeavier(w: Counts, len: Lengths, c: nat, other: nat, chain: seq<nat>, big: seq<int>, j: nat)
    requires Grown(w, len, c, chain, big) && other < |w| && other != c && w[other] > 0 && w[c] > 0 && j < |chain|
    ensures w[c] + w[other] >= Fib(len[chain[j]] + 3)
  {
  }

  lemma JoinGrown(w: Counts, len: Lengths, c1: nat, c2: nat, a: seq<nat>, b: seq<nat>, big: seq<int>)
    requires NextPair(w, c1, c2) && Grown(w, len, c1, a, big) && Grown(w, len, c2, b, big)
    ensures Grown(Merge(w, c1, c2), Raised(len, a + b), c1, a + b, big[c1 := w[c2]])
  {
    hide Fib;
    var ab, len' := a + b, Raised(len, a + b);
    forall j | 0 <= j < |ab|
      ensures ab[j] < |len|
      ensures w[c1] + w[c2] >= Fib(len'[ab[j]] + 2) && w[c2] >= Fib(len'[ab[j]] + 1)
    {
      if j < |a| {
        assert ab[j] == a[j];
        DeeperIsHeavier(w, len, c1, c2, a, big, j);
      } else {
        assert ab[j] == b[j - |a|];
        DeeperIsHeavier(w, len, c2, c1, b, big, j - |a|);
      }
    }
  }

  lemma OtherGrown(w: Counts, len: Lengths, c1: nat, c2: nat, h: nat, chain: seq<nat>, ab: seq<nat>, big: seq<int>)
    requires NextPair(w, c1, c2) && Grown(w, len, h, chain, big) && h != c1 && h != c2
    requires forall j :: 0 <= j < |chain| ==> chain[j] !in ab
    ensures Grown(Merge(w, c1, c2), Raised(len, ab), h, chain, big[c1 := w[c2]])
  {
  }

  /** The state of the merging loop: a forest of balanced trees, as heavy as they are deep. */
  ghost predicate Trees(orig: Counts, w: Counts, len: Lengths, others: seq<int>, root: seq<int>, chains: seq<seq<nat>>,
                        big: seq<int>, d: nat)
  {
    && Forest(orig, w, others, root, chains) && |len| == |big| == SYMBOLS
    && (forall h :: 0 <= h < SYMBOLS ==> Balanced(orig, w, len, h, chains[h], d))
    && (forall h :: 0 <= h < SYMBOLS ==> Grown(w, len, h, chains[h], big))
  }

  lemma JoinTrees(orig: Counts, w: Counts, len: Lengths, others: seq<int>, root: seq<int>, chains: seq<seq<nat>>,
                  big: seq<int>, d: nat, c1: nat, c2: nat)
    requires Trees(orig, w, len, others, root, chains, big, d) && NextPair(w, c1, c2)
    requires d > 0 && forall i :: 0 <= i < SYMBOLS ==> len[i] < d
    ensures var a, b := chains[c1], chains[c2];
            && a != [] && Tree(orig, w, others, root, c1, a) && Tree(orig, w, others, root, c2, b)
            && a[|a| - 1] < SYMBOLS
            && Linked(others[a[|a| - 1] := c2], b)
            && Trees(orig, Merge(w, c1, c2), Raised(len, a + b), others[a[|a| - 1] := c2],
                     Reroot(root, c1, c2), Joined(chains, c1, c2), big[c1 := w[c2]], d)
  {
    hide Balanced, Grown, Linked, Distinct, Fib;
    JoinKeepsForest(orig, w, others, root, chains, c1, c2);
    var a, b := chains[c1], chains[c2];
    var last := a[|a| - 1];
    LinkKept(others, b, last, c2);
    var w', len', chains', big' := Merge(w, c1, c2), Raised(len, a + b), Joined(chains, c1, c2), big[c1 := w[c2]];
    JoinBalanced(orig, w, len, c1, c2, a, b, d);
    JoinGrown(w, len, c1, c2, a, b, big);
    forall h | 0 <= h < SYMBOLS
      ensures Balanced(orig, w', len', h, chains'[h], d) && Grown(w', len', h, chains'[h], big')
    {
      assert Tree(orig, w, others, root, h, chains[h]);
      if h == c2 {
        NoTree(orig, w', len', h, big', d);
      } else if h != c1 {
        OtherBalanced(orig, w, w', len, h, chains[h], a + b, d);
        OtherGrown(w, len, c1, c2, h, chains[h], a + b, big);
      }
    }
  }

  lemma NoTree(orig: Counts, w: Counts, len: Lengths, h: nat, big: seq<int>, d: nat)
    requires |orig| == |w| == |len| == |big| == SYMBOLS && h < SYMBOLS && w[h] == 0
    ensures Balanced(orig, w, len, h, [], d) && Grown(w, len, h, [], big)
  {
  }

  /** The code lengths of an optimal code, all of code space used, with their depth bounded by the total count. */
  ghost predicate Optimal(orig: Counts, l: Lengths) {
    && |orig| == |l| == SYMBOLS
    && (forall i :: 0 <= i < SYMBOLS ==> l[i] <= SYMBOLS && (l[i] > 0 <==> orig[i] > 0))
    && (forall i :: 0 <= i < SYMBOLS && orig[i] > 0 ==> Fib(l[i] + 2) <= Sum(orig))
    && Sum(KraftTerms(orig, l, SYMBOLS)) == Pow2(SYMBOLS)
    && Cost(orig, l) == HuffmanCost(orig)
  }

  function Unlinked(): (s: seq<int>)
    ensures |s| == SYMBOLS && forall i :: 0 <= i < SYMBOLS ==> s[i] == -1
  {
    seq(SYMBOLS, _ => -1)
  }

  function Single(orig: Counts): (c: seq<seq<nat>>)
    ensures |c| == |orig| && forall i :: 0 <= i < |orig| ==> c[i] == if orig[i] > 0 then [i] else []
  {
    seq(|orig|, i requires 0 <= i < |orig| => if orig[i] > 0 then [i] else [])
  }

  function Identity(n: nat): (s: seq<int>)
    ensures |s| == n && forall i :: 0 <= i < n ==> s[i] == i
  {
    seq(n, i => i)
  }

  function Zeros(n: nat): (s: Lengths)
    ensures |s| == n && forall i :: 0 <= i < n ==> s[i] == 0
  {
    seq(n, _ => 0)
  }

  lemma SingleSum(s: seq<int>, i: nat)
    requires i < |s|
    ensures SumAt(s, [i], 1) == s[i]
  {
  }

  lemma StartTrees(orig: Counts, d: nat)
    requires |orig| == SYMBOLS
    ensures Trees(orig, orig, Zeros(SYMBOLS), Unlinked(), Identity(SYMBOLS), Single(orig), Zeros(SYMBOLS), d)
  {
    hide Tree, Balanced, Grown;
    forall h | 0 <= h < SYMBOLS
      ensures Tree(orig, orig, Unlinked(), Identity(SYMBOLS), h, Single(orig)[h])
      ensures Balanced(orig, orig, Zeros(SYMBOLS), h, Single(orig)[h], d)
      ensures Grown(orig, Zeros(SYMBOLS), h, Single(orig)[h], Zeros(SYMBOLS))
    {
      StartTree(orig, h, d);
    }
  }

  lemma StartTree(orig: Counts, h: nat, d: nat)
    requires |orig| == SYMBOLS && h < SYMBOLS
    ensures Tree(orig, orig, Unlinked(), Identity(SYMBOLS), h, Single(orig)[h])
    ensures Balanced(orig, orig, Zeros(SYMBOLS), h, Single(orig)[h], d)
    ensures Grown(orig, Zeros(SYMBOLS), h, Single(orig)[h], Zeros(SYMBOLS))
  {
    hide Pow2;
    var len := Zeros(SYMBOLS);
    if orig[h] > 0 {
      SingleSum(orig, h);
      SingleSum(KraftTerms(orig, len, d), h);
      assert Fib(2) == 1;
    }
  }

  /** When one tree is left, every coded symbol is in its chain. */
  lemma AllInLastChain(orig: Counts, w: Counts, others: seq<int>, root: seq<int>, chains: seq<seq<nat>>, h: nat)
    requires Forest(orig, w, others, root, chains) && h < SYMBOLS
    requires forall g :: 0 <= g < SYMBOLS && g != h ==> w[g] == 0
    ensures Distinct(chains[h]) && forall j :: 0 <= j < |chains[h]| ==> chains[h][j] < SYMBOLS
    ensures forall i :: 0 <= i < SYMBOLS && orig[i] > 0 ==> i in chains[h]
  {
    hide Linked, Distinct;
    assert Tree(orig, w, others, root, h, chains[h]);
    forall i | 0 <= i < SYMBOLS && orig[i] > 0
      ensures i in chains[h]
    {
      assert Tree(orig, w, others, root, root[i], chains[root[i]]);
    }
  }

  lemma ListedSum(s: seq<int>, chain: seq<nat>)
    requires Distinct(chain) && forall j :: 0 <= j < |chain| ==> chain[j] < |s|
    requires forall i :: 0 <= i < |s| && s[i] != 0 ==> i in chain
    ensures Sum(s) == SumAt(s, chain, |chain|)
  {
    hide Sum, SumAt, Distinct;
    SumAtIsSum(s, chain, |chain|);
  }

  lemma GrownAt(w: Counts, len: Lengths, h: nat, chain: seq<nat>, big: seq<int>, i: nat)
    requires Grown(w, len, h, chain, big) && i in chain
    ensures i < |len| && w[h] >= Fib(len[i] + 2)
  {
  }

  /** So its weights are those of the whole table. */
  lemma LastTree(orig: Counts, w: Counts, len: Lengths, others: seq<int>, root: seq<int>, chains: seq<seq<nat>>,
                 big: seq<int>, d: nat, h: nat)
    requires Trees(orig, w, len, others, root, chains, big, d) && h < SYMBOLS && w[h] > 0
    requires forall g :: 0 <= g < SYMBOLS && g != h ==> w[g] == 0
    ensures Sum(KraftTerms(orig, len, d)) == Pow2(d) && Sum(orig) == w[h]
    ensures forall i :: 0 <= i < SYMBOLS && orig[i] > 0 ==> Fib(len[i] + 2) <= Sum(orig) && len[i] <= d
  {
    hide Pow2, Tree, Fib, KraftTerms, SumAt, Sum, Grown, Distinct;
    var chain := chains[h];
    assert Balanced(orig, w, len, h, chain, d) && Grown(w, len, h, chain, big);
    AllInLastChain(orig, w, others, root, chains, h);
    UncodedTerms(orig, len, d);
    ListedSum(orig, chain);
    ListedSum(KraftTerms(orig, len, d), chain);
    forall i | 0 <= i < SYMBOLS && orig[i] > 0
      ensures Fib(len[i] + 2) <= Sum(orig) && len[i] <= d
    {
      GrownAt(w, len, h, chain, big, i);
    }
  }

  lemma UncodedTerms(w: Counts, l: Lengths, d: nat)
    requires |l| == |w|
    ensures forall i :: 0 <= i < |w| && w[i] == 0 ==> KraftTerms(w, l, d)[i] == 0
  {
  }

  lemma MergeKeepsSum(w: Counts, c1: nat, c2: nat)
    requires c1 < |w| && c2 < |w| && c1 != c2
    ensures Sum(Merge(w, c1, c2)) == Sum(w)
  {
    SumUpdate(w, c1, w[c1] + w[c2]);
    SumUpdate(w[c1 := w[c1] + w[c2]], c2, 0);
  }

  lemma CountsInRange(w: Counts)
    requires |w| == SYMBOLS && Sum(w) <= MAX_COUNT
    ensures forall i :: 0 <= i < SYMBOLS ==> 0 <= w[i] <= MAX_COUNT
  {
    SumToNonneg(w, |w|);
  }

  lemma JoinCost(orig: Counts, w: Counts, len: Lengths, a: seq<nat>, b: seq<nat>, d: nat, c1: nat, c2: nat)
    requires NextPair(w, c1, c2) && Balanced(orig, w, len, c1, a, d) && Balanced(orig, w, len, c2, b, d)
    requires Distinct(a + b)
    requires c1 == Smallest(w, SYMBOLS, -1) && c2 == Smallest(w, SYMBOLS, c1)
    ensures Cost(orig, Raised(len, a + b)) + HuffmanCost(Merge(w, c1, c2)) == Cost(orig, len) + HuffmanCost(w)
  {
    hide Cost, KraftTerms, Pow2, Raised;
    var ab := a + b;
    forall j | 0 <= j < |ab|
      ensures ab[j] < SYMBOLS
    {
      assert j < |a| ==> ab[j] == a[j];
      assert j >= |a| ==> ab[j] == b[j - |a|];
    }
    RaiseCost(orig, len, ab, |ab|);
    assert ab[..|ab|] == ab;
    SumAtAppend(orig, a, b, |b|);
  }

  lemma ZeroCost(orig: Counts)
    requires |orig| == SYMBOLS
    ensures Cost(orig, Zeros(SYMBOLS)) == 0
  {
    SumToZero(CostTerms(orig, Zeros(SYMBOLS)), SYMBOLS);
  }

  lemma TreesDisjoint(orig: Counts, w: Counts, others: seq<int>, root: seq<int>, a: seq<nat>, b: seq<nat>, c1: nat,
                      c2: nat)
    requires Tree(orig, w, others, root, c1, a) && Tree(orig, w, others, root, c2, b) && c1 != c2
    ensures forall i :: i in a ==> i !in b
  {
  }

  lemma RaisedTwice(len: Lengths, a: seq<nat>, b: seq<nat>, m: seq<int>)
    requires |m| == |len| && forall i :: i in a ==> i !in b
    requires forall i :: 0 <= i < |len| ==> m[i] == len[i] + (if i in a then 1 else 0) + (if i in b then 1 else 0)
    ensures m == Raised(len, a + b)
  {
  }

  /** The invariant of the merging loop. */
  ghost predicate Merging(orig: Counts, w: Counts, len: Lengths, others: seq<int>, root: seq<int>,
                          chains: seq<seq<nat>>, big: seq<int>)
  {
    && Trees(orig, w, len, others, root, chains, big, SYMBOLS)
    && Cost(orig, len) + HuffmanCost(w) == HuffmanCost(orig)
    && Sum(w) == Sum(orig) <= MAX_COUNT
    && (forall i :: 0 <= i < SYMBOLS ==> len[i] + Active(w, SYMBOLS) <= Active(orig, SYMBOLS))
    && (forall i :: 0 <= i < SYMBOLS && orig[i] == 0 ==> len[i] == 0)
    && (exists i :: 0 <= i < SYMBOLS && w[i] > 0)
  }

  lemma StartMerging(orig: Counts)
    requires |orig| == SYMBOLS && Sum(orig) <= MAX_COUNT && orig[256] > 0
    ensures Merging(orig, orig, Zeros(SYMBOLS), Unlinked(), Identity(SYMBOLS), Single(orig), Zeros(SYMBOLS))
  {
    hide Trees, Cost, HuffmanCost, Sum;
    StartTrees(orig, SYMBOLS);
    ZeroCost(orig);
  }

  /** The coded symbols of two trees, one level deeper. */
  function Deeper(orig: Counts, len: Lengths, root: seq<int>, c1: nat, c2: nat): (r: Lengths)
    requires |orig| == |len| == |root|
    ensures |r| == |len|
  {
    seq(|len|, i requires 0 <= i < |len| => len[i] + if orig[i] > 0 && (root[i] == c1 || root[i] == c2) then 1 else 0)
  }

  /** The lengths that merging ends with, from lengths and heads of trees so far. */
  function LengthsFrom(orig: Counts, w: Counts, len: Lengths, root: seq<int>): (r: Lengths)
    requires |orig| == |w| == |len| == |root|
    ensures |r| == |orig|
    decreases Active(w, |w|)
  {
    var c1 := Smallest(w, |w|, -1);
    var c2 := Smallest(w, |w|, c1);
    if c1 < 0 || c2 < 0 then len
    else
      MergeShrinks(w, c1, c2);
      LengthsFrom(orig, Merge(w, c1, c2), Deeper(orig, len, root, c1, c2), Reroot(root, c1, c2))
  }

  /** The code lengths that the procedure of T.81 section K.2 assigns to these counts, with the source's choice among
      equal counts, before they are limited. */
  function CodeLengths(orig: Counts): (r: Lengths)
    ensures |r| == |orig|
  {
    LengthsFrom(orig, orig, Zeros(|orig|), Identity(|orig|))
  }

  lemma LengthsStep(orig: Counts, w: Counts, len: Lengths, others: seq<int>, root: seq<int>, chains: seq<seq<nat>>,
                    big: seq<int>, c1: int, c2: int)
    requires Merging(orig, w, len, others, root, chains, big)
    requires c1 == Smallest(w, SYMBOLS, -1) && c2 == Smallest(w, SYMBOLS, c1) && c2 >= 0
    ensures |orig| == |w| == |len| == |root| == |chains| == SYMBOLS && NextPair(w, c1, c2)
    ensures LengthsFrom(orig, w, len, root)
            == LengthsFrom(orig, Merge(w, c1, c2), Raised(len, chains[c1] + chains[c2]), Reroot(root, c1, c2))
  {
    hide Trees, Cost, HuffmanCost, Sum, Smallest, Active, Balanced, Linked, Reroot;
    TreesShape(orig, w, len, others, root, chains, big, SYMBOLS);
    assert Tree(orig, w, others, root, c1, chains[c1]) && Tree(orig, w, others, root, c2, chains[c2]);
    assert Raised(len, chains[c1] + chains[c2]) == Deeper(orig, len, root, c1, c2);
  }

  lemma LengthsDone(orig: Counts, w: Counts, len: Lengths, root: seq<int>)
    requires |orig| == |w| == |len| == |root| == SYMBOLS && Smallest(w, SYMBOLS, Smallest(w, SYMBOLS, -1)) < 0
    ensures LengthsFrom(orig, w, len, root) == len
  {
  }

  lemma MergingStep(orig: Counts, w: Counts, len: Lengths, others: seq<int>, root: seq<int>, chains: seq<seq<nat>>,
                    big: seq<int>, c1: int, c2: int)
    requires Merging(orig, w, len, others, root, chains, big)
    requires c1 == Smallest(w, SYMBOLS, -1) && c2 == Smallest(w, SYMBOLS, c1) && c2 >= 0
    ensures |orig| == |w| == |len| == |others| == |root| == |chains| == |big| == SYMBOLS && NextPair(w, c1, c2)
    ensures var a, b := chains[c1], chains[c2];
            && a != [] && a[0] == c1 && b != [] && b[0] == c2
            && Linked(others, a) && Distinct(a) && Distinct(b) && (forall i :: i in a ==> i !in b)
            && a[|a| - 1] < SYMBOLS && Linked(others[a[|a| - 1] := c2], b)
            && Merging(orig, Merge(w, c1, c2), Raised(len, a + b), others[a[|a| - 1] := c2],
                       Reroot(root, c1, c2), Joined(chains, c1, c2), big[c1 := w[c2]])
    ensures Active(Merge(w, c1, c2), SYMBOLS) < Active(w, SYMBOLS)
  {
    hide Trees, Cost, HuffmanCost, Sum, Smallest, Active, Balanced, Grown, Linked;
    TreesShape(orig, w, len, others, root, chains, big, SYMBOLS);
    var a, b := chains[c1], chains[c2];
    TreesDisjoint(orig, w, others, root, a, b, c1, c2);
    MergeShrinks(w, c1, c2);
    JoinTrees(orig, w, len, others, root, chains, big, SYMBOLS, c1, c2);
    DisjointAppend(a, b);
    JoinCost(orig, w, len, a, b, SYMBOLS, c1, c2);
    MergeKeepsSum(w, c1, c2);
    assert Merge(w, c1, c2)[c1] > 0;
    forall i | 0 <= i < SYMBOLS && orig[i] == 0
      ensures i !in a + b
    {
    }
  }

  lemma DisjointAppend(a: seq<nat>, b: seq<nat>)
    requires Distinct(a) && Distinct(b) && forall i :: i in a ==> i !in b
    ensures Distinct(a + b)
  {
    var ab := a + b;
    forall i, j | 0 <= i < j < |ab|
      ensures ab[i] != ab[j]
    {
      assert i < |a| ==> ab[i] == a[i];
      assert i >= |a| ==> ab[i] == b[i - |a|];
      assert j < |a| ==> ab[j] == a[j];
      assert j >= |a| ==> ab[j] == b[j - |a|];
      assert i < |a| ==> a[i] in a;
      assert j >= |a| ==> b[j - |a|] in b;
    }
  }

  /** "Done if we've merged everything into one frequency." */
  lemma Finished(orig: Counts, w: Counts, len: Lengths, others: seq<int>, root: seq<int>, chains: seq<seq<nat>>,
                 big: seq<int>, c1: int)
    requires Merging(orig, w, len, others, root, chains, big)
    requires c1 == Smallest(w, SYMBOLS, -1) && Smallest(w, SYMBOLS, c1) < 0
    requires orig[256] > 0 && exists i :: 0 <= i < 256 && orig[i] > 0
    ensures Optimal(orig, len)
  {
    hide Trees, Cost, KraftTerms, Pow2, Sum, Fib;
    TreesShape(orig, w, len, others, root, chains, big, SYMBOLS);
    LastTree(orig, w, len, others, root, chains, big, SYMBOLS, c1);
    assert HuffmanCost(w) == 0;
    var r :| 0 <= r < 256 && orig[r] > 0;
    forall i | 0 <= i < SYMBOLS && orig[i] > 0
      ensures len[i] > 0
    {
      TwoNeedBits(orig, len, SYMBOLS, i, if i == 256 then r else 256);
    }
    forall i | 0 <= i < SYMBOLS
      ensures len[i] <= SYMBOLS
    {
    }
  }

  lemma TreesShape(orig: Counts, w: Counts, len: Lengths, others: seq<int>, root: seq<int>, chains: seq<seq<nat>>,
                   big: seq<int>, d: nat)
    requires Trees(orig, w, len, others, root, chains, big, d)
    ensures |orig| == |w| == |len| == |others| == |root| == |chains| == |big| == SYMBOLS
    ensures forall h :: 0 <= h < SYMBOLS ==>
              Tree(orig, w, others, root, h, chains[h]) && Balanced(orig, w, len, h, chains[h], d)
  {
  }

  lemma SomeReal(w: seq<int>, orig: Counts)
    requires |w| == SYMBOLS && orig == w[256 := 1] && exists i :: 0 <= i < 256 && w[i] > 0
    ensures exists i :: 0 <= i < 256 && orig[i] > 0
  {
    var r :| 0 <= r < 256 && w[r] > 0;
    assert orig[r] > 0;
  }

  /** "Else merge the two counts/trees." */
  method MergePair(freq: array<int>, codesize: array<int>, others: array<int>, c1: nat, c2: nat, ghost a: seq<nat>,
                   ghost b: seq<nat>)
    requires freq.Length == codesize.Length == others.Length == SYMBOLS
    requires freq != codesize && codesize != others && freq != others
    requires forall i :: 0 <= i < SYMBOLS ==> freq[i] >= 0 && codesize[i] >= 0
    requires c1 < SYMBOLS && c2 < SYMBOLS && c1 != c2
    requires a != [] && a[0] == c1 && b != [] && b[0] == c2 && Distinct(a) && Distinct(b)
    requires (forall i :: i in a ==> i !in b) && Linked(others[..], a)
    requires a[|a| - 1] < SYMBOLS && Linked(others[..][a[|a| - 1] := c2], b)
    modifies freq, codesize, others
    ensures freq[..] == Merge(old(freq[..]), c1, c2)
    ensures codesize[..] == Raised(old(codesize[..]), a + b)
    ensures others[..] == old(others[..])[a[|a| - 1] := c2]
  {
    hide Linked, Distinct;
    ghost var len: Lengths := codesize[..];
    freq[c1] := freq[c1] + freq[c2];
    freq[c2] := 0;
    var last := Deepen(codesize, others, c1, a);
    others[last] := c2;
    last := Deepen(codesize, others, c2, b);
    RaisedTwice(len, a, b, codesize[..]);
  }

  /** "Huffman's basic algorithm to assign optimal code lengths to symbols". `freq` is destroyed. */
  method BuildLengths(freq: array<int>) returns (codesize: array<int>)
    requires freq.Length == SYMBOLS && forall i :: 0 <= i < SYMBOLS ==> freq[i] >= 0
    requires Sum(freq[..][256 := 1]) <= MAX_COUNT
    requires exists i :: 0 <= i < 256 && freq[i] > 0
    modifies freq
    ensures fresh(codesize) && codesize.Length == SYMBOLS
    ensures forall i :: 0 <= i < SYMBOLS ==> codesize[i] >= 0
    ensures Optimal(old(freq[..])[256 := 1], codesize[..])
    ensures codesize[..] == CodeLengths(old(freq[..])[256 := 1])
  {
    hide Merging, Sum, Smallest, Optimal, Linked, Distinct, Active, Raised, Reroot, Joined, LengthsFrom;
    codesize := new int[SYMBOLS](_ => 0);
    var others := new int[SYMBOLS](_ => -1);
    freq[256] := 1;
    ghost var orig: Counts := freq[..];
    assert orig == old(freq[..])[256 := 1];
    SomeReal(old(freq[..]), orig);
    ghost var root, chains, big: seq<int> := Identity(SYMBOLS), Single(orig), Zeros(SYMBOLS);
    StartMerging(orig);
    assert codesize[..] == Zeros(SYMBOLS) && others[..] == Unlinked();
    MergeAll(freq, codesize, others, orig, root, chains, big);
  }

  /** The merging loop. */
  method MergeAll(freq: array<int>, codesize: array<int>, others: array<int>, ghost orig: Counts, ghost root0: seq<int>,
                  ghost chains0: seq<seq<nat>>, ghost big0: seq<int>)
    requires freq.Length == codesize.Length == others.Length == SYMBOLS
    requires freq != codesize && freq != others && codesize != others
    requires forall i :: 0 <= i < SYMBOLS ==> freq[i] >= 0 && codesize[i] >= 0
    requires Merging(orig, freq[..], codesize[..], others[..], root0, chains0, big0)
    requires |orig| == |root0| == SYMBOLS && orig[256] > 0 && exists i :: 0 <= i < 256 && orig[i] > 0
    modifies freq, codesize, others
    ensures forall i :: 0 <= i < SYMBOLS ==> codesize[i] >= 0
    ensures Optimal(orig, codesize[..])
    ensures codesize[..] == LengthsFrom(orig, old(freq[..]), old(codesize[..]), root0)
  {
    hide Merging, Sum, Smallest, Optimal, Linked, Distinct, Active, Raised, Reroot, Joined, LengthsFrom;
    ghost var root, chains, big := root0, chains0, big0;
    ghost var w: Counts, len: Lengths := freq[..], codesize[..];
    MergingShape(orig, w, len, others[..], root, chains, big);
    ghost var goal := LengthsFrom(orig, w, len, root);
    while true
      invariant w == freq[..] && len == codesize[..]
      invariant Merging(orig, w, len, others[..], root, chains, big)
      invariant |root| == |w| == |len| == SYMBOLS && LengthsFrom(orig, w, len, root) == goal
      decreases Active(w, SYMBOLS)
    {
      MergingCounts(orig, w, len, others[..], root, chains, big);
      var c1 := FindSmallest(freq, -1);
      var c2 := FindSmallest(freq, c1);
      if c2 < 0 {
        Finished(orig, w, len, others[..], root, chains, big, c1);
        LengthsDone(orig, w, len, root);
        break;
      }
      MergingStep(orig, w, len, others[..], root, chains, big, c1, c2);
      LengthsStep(orig, w, len, others[..], root, chains, big, c1, c2);
      ghost var a, b := chains[c1], chains[c2];
      MergePair(freq, codesize, others, c1, c2, a, b);
      root, chains, big := Reroot(root, c1, c2), Joined(chains, c1, c2), big[c1 := w[c2]];
      w, len := Merge(w, c1, c2), Raised(len, a + b);
    }
  }

  lemma MergingShape(orig: Counts, w: Counts, len: Lengths, others: seq<int>, root: seq<int>, chains: seq<seq<nat>>,
                     big: seq<int>)
    requires Merging(orig, w, len, others, root, chains, big)
    ensures |w| == |len| == |root| == SYMBOLS
  {
  }

  lemma MergingCounts(orig: Counts, w: Counts, len: Lengths, others: seq<int>, root: seq<int>, chains: seq<seq<nat>>,
                      big: seq<int>)
    requires Merging(orig, w, len, others, root, chains, big)
    ensures |w| == SYMBOLS && forall i :: 0 <= i < SYMBOLS ==> 0 <= w[i] <= MAX_COUNT
  {
    CountsInRange(w);
  }
}
