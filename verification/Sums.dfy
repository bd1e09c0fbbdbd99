/** Finite sums over sequences of integers. */
module Sums {

  function SumTo(s: seq<int>, n: nat): int
    requires n <= |s|
  {
    if n == 0 then 0 else SumTo(s, n - 1) + s[n - 1]
  }

  function Sum(s: seq<int>): int {
    SumTo(s, |s|)
  }

  lemma {:induction false} SumToUpdate(s: seq<int>, i: nat, v: int, n: nat)
    requires i < |s| && n <= |s|
    ensures SumTo(s[i := v], n) == SumTo(s, n) + if i < n then v - s[i] else 0
  {
    if n > 0 {
      SumToUpdate(s, i, v, n - 1);
    }
  }

  lemma SumUpdate(s: seq<int>, i: nat, v: int)
    requires i < |s|
    ensures Sum(s[i := v]) == Sum(s) - s[i] + v
  {
    SumToUpdate(s, i, v, |s|);
  }

  lemma {:induction false} SumToNonneg(s: seq<int>, n: nat)
    requires n <= |s| && forall i :: 0 <= i < |s| ==> s[i] >= 0
    ensures SumTo(s, n) >= 0
    ensures forall i :: 0 <= i < n ==> SumTo(s, n) >= s[i]
  {
    if n > 0 {
      SumToNonneg(s, n - 1);
    }
  }

  lemma {:induction false} SumToZero(s: seq<int>, n: nat)
    requires n <= |s| && forall i :: 0 <= i < n ==> s[i] == 0
    ensures SumTo(s, n) == 0
  {
    if n > 0 {
      SumToZero(s, n - 1);
    }
  }

  /** The sum of `s` over the positions listed in `at`. */
  function SumAt(s: seq<int>, at: seq<nat>, n: nat): int
    requires n <= |at| && forall j :: 0 <= j < |at| ==> at[j] < |s|
  {
    if n == 0 then 0 else SumAt(s, at, n - 1) + s[at[n - 1]]
  }

  ghost predicate Distinct(at: seq<nat>) {
    forall i, j :: 0 <= i < j < |at| ==> at[i] != at[j]
  }

  lemma {:induction false} SumAtPrefix(s: seq<int>, at: seq<nat>, at': seq<nat>, n: nat)
    requires n <= |at| && at <= at' && forall j :: 0 <= j < |at'| ==> at'[j] < |s|
    ensures (forall j :: 0 <= j < |at| ==> at[j] < |s|) && SumAt(s, at, n) == SumAt(s, at', n)
  {
    assert forall j :: 0 <= j < |at| ==> at[j] == at'[j];
    if n > 0 {
      SumAtPrefix(s, at, at', n - 1);
    }
  }

  lemma {:induction false} SumAtAppend(s: seq<int>, a: seq<nat>, b: seq<nat>, n: nat)
    requires n <= |b| && (forall j :: 0 <= j < |a| ==> a[j] < |s|) && forall j :: 0 <= j < |b| ==> b[j] < |s|
    ensures forall j :: 0 <= j < |a + b| ==> (a + b)[j] < |s|
    ensures SumAt(s, a + b, |a| + n) == SumAt(s, a, |a|) + SumAt(s, b, n)
  {
    if n == 0 {
      SumAtPrefix(s, a, a + b, |a|);
    } else {
      SumAtAppend(s, a, b, n - 1);
    }
  }

  lemma {:induction false} SumAtSame(s: seq<int>, t: seq<int>, at: seq<nat>, n: nat)
    requires |s| == |t| && n <= |at| && forall j :: 0 <= j < |at| ==> at[j] < |s|
    requires forall j :: 0 <= j < n ==> s[at[j]] == t[at[j]]
    ensures SumAt(s, at, n) == SumAt(t, at, n)
  {
    if n > 0 {
      SumAtSame(s, t, at, n - 1);
    }
  }

  lemma {:induction false} SumAtScaled(s: seq<int>, t: seq<int>, at: seq<nat>, n: nat, k: int)
    requires |s| == |t| && n <= |at| && forall j :: 0 <= j < |at| ==> at[j] < |s|
    requires forall j :: 0 <= j < n ==> s[at[j]] == k * t[at[j]]
    ensures SumAt(s, at, n) == k * SumAt(t, at, n)
  {
    if n > 0 {
      SumAtScaled(s, t, at, n - 1, k);
    }
  }

  /** Listing every nonzero position once sums the whole sequence. */
  lemma {:induction false} SumAtIsSum(s: seq<int>, at: seq<nat>, n: nat)
    requires n <= |at| && (forall j :: 0 <= j < |at| ==> at[j] < |s|) && Distinct(at)
    requires forall i :: 0 <= i < |s| && s[i] != 0 ==> exists j :: 0 <= j < n && at[j] == i
    ensures Sum(s) == SumAt(s, at, n)
    decreases n
  {
    if n == 0 {
      SumToZero(s, |s|);
    } else {
      var x := at[n - 1];
      var s' := s[x := 0];
      forall i | 0 <= i < |s'| && s'[i] != 0
        ensures exists j :: 0 <= j < n - 1 && at[j] == i
      {
        var j :| 0 <= j < n && at[j] == i;
      }
      SumAtIsSum(s', at, n - 1);
      SumUpdate(s, x, 0);
      SumAtSame(s, s', at, n - 1);
    }
  }
}
