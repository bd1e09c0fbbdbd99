/** Canonical Huffman codes: `jpeg_make_c_derived_tbl` (`jchuff.c`), Annex C of T.81. */
module DerivedTable {
  import opened Numbers
  import opened Sums
  import opened HuffmanOptimal
  import opened HuffmanLimit

  /** Code lengths in the order of the symbols, each from 1 to 16 and none shorter than the one before. */
  type Sizes = s: seq<nat> | Ascending(s) witness []

  ghost predicate Ascending(s: seq<nat>) {
    && (forall j :: 0 <= j < |s| ==> 1 <= s[j] <= 16)
    && forall i, j :: 0 <= i <= j < |s| ==> s[i] <= s[j]
  }

  /** The left end of code number `n` in code space, in units of 2^-16: the room taken by the codes before it. */
  function Left(s: Sizes, n: nat): (e: nat)
    requires n <= |s|
  {
    if n == 0 then 0 else Left(s, n - 1) + Pow2(16 - s[n - 1])
  }

  lemma {:induction false} LeftMonotone(s: Sizes, m: nat, n: nat)
    requires m <= n <= |s|
    ensures Left(s, m) <= Left(s, n) && (m < n ==> Left(s, m) < Left(s, n))
  {
    if m < n {
      LeftMonotone(s, m, n - 1);
    }
  }

  /** `code` is the canonical code of position `p`: its interval of code space starts where the codes before end. */
  ghost predicate Canonical(s: Sizes, p: nat, code: nat)
    requires p < |s|
  {
    code * Pow2(16 - s[p]) == Left(s, p)
  }

  function Times(l: nat, n: nat): (s: seq<nat>)
    ensures |s| == n && forall j :: 0 <= j < n ==> s[j] == l
  {
    seq(n, _ => l)
  }

  /** Figure C.1: the lengths 1 to `l`, each as often as `bits` says. */
  function SizesTo(bits: Bits16, l: nat): (s: seq<nat>)
    requires l <= 16
    ensures Ascending(s) && forall j :: 0 <= j < |s| ==> s[j] <= l
  {
    if l == 0 then [] else SizesTo(bits, l - 1) + Times(l, bits[l])
  }

  function SizesOf(bits: Bits16): Sizes {
    SizesTo(bits, 16)
  }

  lemma {:induction false} SizesCount(bits: Bits16, l: nat)
    requires l <= 16 && bits[0] == 0
    ensures |SizesTo(bits, l)| == SumTo(bits, l + 1)
  {
    if l == 0 {
      assert SumTo(bits, 1) == 0;
    } else {
      SizesCount(bits, l - 1);
    }
  }

  lemma {:induction false} LeftAppend(s: Sizes, t: Sizes, n: nat)
    requires s <= t && n <= |s|
    ensures Left(t, n) == Left(s, n)
  {
    if n > 0 {
      LeftAppend(s, t, n - 1);
    }
  }

  lemma {:induction false} LeftOfRun(s: Sizes, m: nat, n: nat, l: nat)
    requires m <= n <= |s| && 1 <= l <= 16 && forall j :: m <= j < n ==> s[j] == l
    ensures Left(s, n) == Left(s, m) + (n - m) * Pow2(16 - l)
  {
    hide Pow2;
    if m < n {
      LeftOfRun(s, m, n - 1, l);
      Split(n - 1 - m, 1, Pow2(16 - l));
    }
  }

  lemma {:induction false} LeftIsSpace(bits: Bits16, l: nat)
    requires l <= 16 && bits[0] == 0
    ensures Left(SizesTo(bits, l), |SizesTo(bits, l)|) == SumTo(SpaceTerms16(bits), l + 1)
  {
    hide Pow2, SpaceTerms16;
    TermIs(bits, l);
    if l == 0 {
      assert SumTo(SpaceTerms16(bits), 0) == 0;
    } else {
      LeftIsSpace(bits, l - 1);
      var s, t := SizesTo(bits, l - 1), SizesTo(bits, l);
      LeftAppend(s, t, |s|);
      LeftOfRun(t, |s|, |t|, l);
    }
  }

  lemma TermIs(bits: Bits16, l: nat)
    requires l <= 16
    ensures SpaceTerms16(bits)[l] == bits[l] * Pow2(16 - l)
    ensures bits[l] == 0 ==> SpaceTerms16(bits)[l] == 0
  {
    hide Pow2;
  }

  /** Code and length by symbol; length 0 marks a symbol without code. */
  datatype Table = Table(co: seq<nat>, si: seq<nat>)

  /** Symbol `v[p]` has canonical code number `p`, and the other symbols have none. */
  ghost predicate Derives(s: Sizes, v: seq<Byte>, t: Table) {
    && |s| <= |v| && |t.co| == |t.si| == 256 && Distinct(v[..|s|])
    && (forall p :: 0 <= p < |s| ==> t.si[v[p]] == s[p] && Canonical(s, p, t.co[v[p]]))
    && (forall i :: 0 <= i < 256 && i !in v[..|s|] ==> t.si[i] == 0)
    && Left(s, |s|) < Pow2(16)
  }

  /** What a table has to satisfy to be accepted: at most 256 codes, not all of code space used, symbols in
      range and listed once. */
  ghost predicate Acceptable(bits: Bits16, v: seq<Byte>, isDC: bool)
    requires |v| == 256
  {
    var s := SizesOf(bits);
    && |s| <= 256 && Left(s, |s|) < Pow2(16)
    && Distinct(v[..|s|]) && forall p :: 0 <= p < |s| ==> v[p] <= if isDC then 15 else 255
  }

  lemma {:induction false} ShortCodes(bits: Bits16, l: nat, m: nat)
    requires l <= m <= 16
    ensures SizesTo(bits, l) <= SizesTo(bits, m)
  {
    if l < m {
      ShortCodes(bits, l, m - 1);
    }
  }

  lemma SizesStart(bits: Bits16)
    ensures SizesTo(bits, 0) == []
  {
  }

  lemma SizesStep(bits: Bits16, l: nat)
    requires 1 <= l <= 16
    ensures SizesTo(bits, l) == SizesTo(bits, l - 1) + Times(l, bits[l])
  {
  }

  lemma OneMoreOf(before: seq<nat>, l: nat, n: nat)
    ensures before + Times(l, n + 1) == before + Times(l, n) + [l]
  {
  }

  /** Figure C.1. The table is zero-terminated. */
  method ListSizes(bits: Bits16, huffsize: array<nat>) returns (ok: bool, lastp: nat)
    requires huffsize.Length == 257
    modifies huffsize
    ensures ok <==> |SizesOf(bits)| <= 256
    ensures ok ==> lastp == |SizesOf(bits)| && huffsize[..lastp] == SizesOf(bits) && huffsize[lastp] == 0
  {
    hide SizesTo;
    SizesStart(bits);
    var p := 0;
    var l := 1;
    while l <= 16
      invariant 1 <= l <= 17 && p <= 256
      invariant huffsize[..p] == SizesTo(bits, l - 1)
    {
      var i := bits[l];
      ghost var before := SizesTo(bits, l - 1);
      SizesStep(bits, l);
      ShortCodes(bits, l, 16);
      if i < 0 || p + i > 256 {
        return false, 0;
      }
      while i > 0
        invariant 0 <= i <= bits[l] && p == |before| + bits[l] - i
        invariant huffsize[..p] == before + Times(l, bits[l] - i)
      {
        OneMoreOf(before, l, bits[l] - i);
        huffsize[p] := l;
        p := p + 1;
        i := i - 1;
      }
      l := l + 1;
    }
    huffsize[p] := 0;
    return true, p;
  }

  /** Figure C.2, with the check that no code is all ones. */
  method AssignCodes(huffsize: array<nat>, huffcode: array<nat>, ghost s: Sizes) returns (ok: bool)
    requires huffsize.Length == huffcode.Length == 257 && huffsize != huffcode
    requires |s| <= 256 && huffsize[..|s|] == s && huffsize[|s|] == 0
    modifies huffcode
    ensures ok <==> Left(s, |s|) < Pow2(16)
    ensures ok ==> forall p :: 0 <= p < |s| ==> Canonical(s, p, huffcode[p])
  {
    hide Pow2, Left;
    var code := 0;
    var si := huffsize[0];
    var p := 0;
    LeftStart(s);
    assert Canonically(s, 0, huffcode[..]);
    while huffsize[p] != 0
      invariant p <= |s| && si <= 17 && huffsize[..|s|] == s && huffsize[|s|] == 0
      invariant p < |s| ==> 1 <= si <= s[p]
      invariant code * Pow2(17 - si) == 2 * Left(s, p) && Left(s, p) < Pow2(16)
      invariant Canonically(s, p, huffcode[..])
      decreases 17 - si
    {
      Pow2Step(16 - si);
      MulAssoc(code, 2, Pow2(16 - si));
      CodeRoom(code, si, Left(s, p));
      while huffsize[p] == si
        invariant p <= |s| && huffsize[..|s|] == s && huffsize[|s|] == 0
        invariant p < |s| ==> si <= s[p]
        invariant code * Pow2(16 - si) == Left(s, p)
        invariant Canonically(s, p, huffcode[..])
        decreases |s| - p
      {
        NextCode(s, p, code, huffcode[..]);
        huffcode[p] := code;
        p := p + 1;
        code := code + 1;
      }
      CodeRoom(code, si, Left(s, p));
      if code >= Pow2(si) {
        LeftMonotone(s, p, |s|);
        return false;
      }
      MulAssoc(2, code, Pow2(16 - si));
      code := code * 2;
      si := si + 1;
    }
    return true;
  }

  lemma LeftStart(s: Sizes)
    ensures Left(s, 0) == 0 < Pow2(16)
  {
  }

  ghost predicate Canonically(s: Sizes, n: nat, c: seq<nat>)
    requires n <= |s| <= |c|
  {
    forall p :: 0 <= p < n ==> Canonical(s, p, c[p])
  }

  lemma NextCode(s: Sizes, p: nat, code: nat, c: seq<nat>)
    requires p < |s| <= |c| && code * Pow2(16 - s[p]) == Left(s, p) && Canonically(s, p, c)
    ensures Canonically(s, p + 1, c[p := code])
    ensures (code + 1) * Pow2(16 - s[p]) == Left(s, p + 1)
  {
    hide Pow2;
    Split(code, 1, Pow2(16 - s[p]));
  }

  lemma CodeRoom(code: nat, si: nat, left: nat)
    requires si <= 16 && code * Pow2(16 - si) == left
    ensures code >= Pow2(si) <==> left >= Pow2(16)
  {
    hide Pow2;
    Pow2Add(si, 16 - si);
    MulCompare(code, Pow2(si), Pow2(16 - si));
  }

  /** The encoding tables after `p` symbols. */
  ghost predicate Filled(s: Sizes, code: seq<nat>, v: seq<Byte>, p: nat, co: seq<nat>, si: seq<nat>)
    requires p <= |s| <= |v| && |s| <= |code| && |co| == |si| == 256
  {
    && Distinct(v[..p])
    && (forall q :: 0 <= q < p ==> si[v[q]] == s[q] && co[v[q]] == code[q])
    && (forall i :: 0 <= i < 256 && i !in v[..p] ==> si[i] == 0)
  }

  /** One more symbol: it must not have a code yet. */
  lemma FillNext(s: Sizes, code: seq<nat>, v: seq<Byte>, p: nat, co: seq<nat>, si: seq<nat>)
    requires p < |s| <= |v| && |s| <= |code| && |co| == |si| == 256 && Filled(s, code, v, p, co, si)
    ensures si[v[p]] != 0 ==> !Distinct(v[..|s|])
    ensures si[v[p]] == 0 ==> Filled(s, code, v, p + 1, co[v[p] := code[p]], si[v[p] := s[p]])
  {
  }

  /** Figure C.3, with the checks for out-of-range and duplicated symbols. */
  method FillTables(huffsize: array<nat>, huffcode: array<nat>, huffval: seq<Byte>, maxsymbol: nat, lastp: nat,
                    ghost s: Sizes)
    returns (ok: bool, t: Table)
    requires huffsize.Length == huffcode.Length == 257 && |huffval| == 256 && lastp == |s| <= 256
    requires huffsize[..lastp] == s
    ensures ok <==> Distinct(huffval[..lastp]) && forall p :: 0 <= p < lastp ==> huffval[p] <= maxsymbol
    ensures ok ==> |t.co| == |t.si| == 256 && Filled(s, huffcode[..], huffval, lastp, t.co, t.si)
  {
    hide Filled, Distinct, Ascending;
    var ehufco := new nat[256](_ => 0);
    var ehufsi := new nat[256](_ => 0);
    ghost var code := huffcode[..];
    NoneFilled(s, code, huffval, ehufco[..], ehufsi[..]);
    var p := 0;
    while p < lastp
      invariant p <= lastp && huffsize[..lastp] == s && huffcode[..] == code
      invariant forall q :: 0 <= q < p ==> huffval[q] <= maxsymbol
      invariant Filled(s, code, huffval, p, ehufco[..], ehufsi[..])
    {
      var i := huffval[p];
      FillNext(s, code, huffval, p, ehufco[..], ehufsi[..]);
      if i < 0 || i > maxsymbol || ehufsi[i] != 0 {
        return false, Table([], []);
      }
      ghost var co, si := ehufco[..], ehufsi[..];
      ehufco[i] := huffcode[p];
      ehufsi[i] := huffsize[p];
      assert ehufco[..] == co[i := code[p]] && ehufsi[..] == si[i := s[p]];
      p := p + 1;
    }
    FilledDistinct(s, code, huffval, p, ehufco[..], ehufsi[..]);
    return true, Table(ehufco[..], ehufsi[..]);
  }

  lemma NoneFilled(s: Sizes, code: seq<nat>, v: seq<Byte>, co: seq<nat>, si: seq<nat>)
    requires |s| <= |v| && |s| <= |code| && |co| == |si| == 256 && forall i :: 0 <= i < 256 ==> si[i] == 0
    ensures Filled(s, code, v, 0, co, si)
  {
  }

  lemma FilledDistinct(s: Sizes, code: seq<nat>, v: seq<Byte>, p: nat, co: seq<nat>, si: seq<nat>)
    requires p <= |s| <= |v| && |s| <= |code| && |co| == |si| == 256 && Filled(s, code, v, p, co, si)
    ensures Distinct(v[..p])
  {
  }

  lemma FilledDerives(s: Sizes, code: seq<nat>, v: seq<Byte>, t: Table)
    requires |s| <= |v| && |s| <= |code| && |t.co| == |t.si| == 256 && Filled(s, code, v, |s|, t.co, t.si)
    requires Canonically(s, |s|, code) && Left(s, |s|) < Pow2(16)
    ensures Derives(s, v, t)
  {
    hide Canonical, Left, Pow2;
  }

  /** `jpeg_make_c_derived_tbl`, for a table that exists. */
  method MakeDerivedTable(bits: Bits16, huffval: seq<Byte>, isDC: bool) returns (ok: bool, t: Table)
    requires |huffval| == 256
    ensures ok <==> Acceptable(bits, huffval, isDC)
    ensures ok ==> Derives(SizesOf(bits), huffval, t)
  {
    hide Pow2, Left, SizesOf, Canonical, Filled, Distinct, Derives, Ascending;
    t := Table([], []);
    var huffsize := new nat[257](_ => 0);
    var lastp;
    ok, lastp := ListSizes(bits, huffsize);
    if !ok {
      return;
    }
    ghost var s: Sizes := SizesOf(bits);
    var huffcode := new nat[257](_ => 0);
    ok := AssignCodes(huffsize, huffcode, s);
    if !ok {
      return;
    }
    ok, t := FillTables(huffsize, huffcode, huffval, if isDC then 15 else 255, lastp, s);
    if ok {
      FilledDerives(s, huffcode[..], huffval, t);
    }
  }

  lemma PositionOf(s: Sizes, v: seq<Byte>, t: Table, a: Byte) returns (p: nat)
    requires Derives(s, v, t) && t.si[a] > 0
    ensures p < |s| && v[p] == a && t.si[a] == s[p] && Canonical(s, p, t.co[a])
  {
    hide Canonical, Left;
    assert a in v[..|s|];
    p :| 0 <= p < |s| && v[..|s|][p] == a;
  }

  /** Where the code of position `p` ends in code space. */
  lemma CodeEnd(s: Sizes, p: nat, code: nat)
    requires p < |s| && Canonical(s, p, code)
    ensures (code + 1) * Pow2(16 - s[p]) == Left(s, p + 1)
  {
    hide Pow2;
    Split(code, 1, Pow2(16 - s[p]));
  }

  /** No code is all ones, so that the padding after the last code cannot be taken for one. */
  lemma NoAllOnes(s: Sizes, v: seq<Byte>, t: Table, a: Byte)
    requires Derives(s, v, t) && t.si[a] > 0
    ensures 1 <= t.si[a] <= 16 && t.co[a] + 1 < Pow2(t.si[a])
  {
    hide Pow2, Left, Canonical;
    var p := PositionOf(s, v, t, a);
    CodeEnd(s, p, t.co[a]);
    LeftMonotone(s, p + 1, |s|);
    CodeRoom(t.co[a] + 1, s[p], Left(s, p + 1));
  }

  /** No code is a prefix of another. */
  lemma PrefixFree(s: Sizes, v: seq<Byte>, t: Table, a: Byte, b: Byte)
    requires Derives(s, v, t) && 0 < t.si[a] <= t.si[b] && a != b
    ensures t.co[b] / Pow2(t.si[b] - t.si[a]) != t.co[a]
  {
    hide Pow2, Left, Canonical;
    var p := PositionOf(s, v, t, a);
    var q := PositionOf(s, v, t, b);
    CodeEnd(s, p, t.co[a]);
    var d := s[q] - s[p];
    if t.co[b] / Pow2(d) == t.co[a] {
      SameInterval(s, p, q, t.co[a], t.co[b]);
      assert false;
    }
  }

  lemma SameInterval(s: Sizes, p: nat, q: nat, a: nat, b: nat)
    requires p < |s| && q < |s| && s[p] <= s[q] && Canonical(s, p, a) && Canonical(s, q, b)
    requires b / Pow2(s[q] - s[p]) == a
    ensures p == q
  {
    hide Pow2, Left;
    var d, u := Pow2(s[q] - s[p]), Pow2(16 - s[q]);
    Pow2Add(s[q] - s[p], 16 - s[q]);
    DivBounds(b, d);
    MulCompare(a * d, b, u);
    MulCompare(b, (a + 1) * d, u);
    MulAssoc(a, d, u);
    MulAssoc(a + 1, d, u);
    CodeEnd(s, p, a);
    if q < p {
      LeftMonotone(s, q, p);
      assert false;
    } else if p < q {
      LeftMonotone(s, p + 1, q);
      assert false;
    }
  }

  /** A table made by `jpeg_gen_optimal_table` is accepted, and gives a code to every symbol that was counted. */
  lemma GeneratedIsAcceptable(bits: Bits16, v: seq<nat>, orig: Counts, l: Lengths, huffval: seq<Byte>, isDC: bool)
    requires GoodForCounts(bits, v, orig, l) && |v| <= |huffval| == 256 && huffval[..|v|] == v
    requires isDC ==> forall i :: 16 <= i < 256 ==> orig[i] == 0
    ensures Acceptable(bits, huffval, isDC) && |SizesOf(bits)| == |v|
  {
    hide Pow2, Left;
    SizesCount(bits, 16);
    LeftIsSpace(bits, 16);
    var s := SizesOf(bits);
    assert Sum(bits) == SumTo(bits, 17) && Space16(bits) == SumTo(SpaceTerms16(bits), 17);
    forall p | 0 <= p < |s|
      ensures huffval[p] <= if isDC then 15 else 255
    {
      assert huffval[p] == v[p];
    }
  }

  lemma CountedIsCoded(bits: Bits16, v: seq<nat>, orig: Counts, l: Lengths, huffval: seq<Byte>, t: Table, i: Byte)
    requires GoodForCounts(bits, v, orig, l) && |v| <= |huffval| == 256 && huffval[..|v|] == v
    requires |SizesOf(bits)| == |v| && Derives(SizesOf(bits), huffval, t)
    ensures orig[i] > 0 <==> t.si[i] > 0
  {
    hide Pow2, Left, Canonical;
    if orig[i] > 0 {
      assert i in v;
      var p :| 0 <= p < |v| && v[p] == i;
      assert huffval[p] == i;
    } else if t.si[i] > 0 {
      var p := PositionOf(SizesOf(bits), huffval, t, i);
    }
  }
}
