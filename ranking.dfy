/** Scores, their descending order, and the rule "1 when strictly above a
    threshold, else 0" used by the top-k prediction, the 0.5 cut of the
    walk-forward scores and the binarisation of raw labels. */
module Ranking {

  /** Descending order, as `sorted(s, reverse=True)` leaves a list. */
  predicate SortedDesc(s: seq<real>)
  {
    forall i, j :: 0 <= i < j < |s| ==> s[i] >= s[j]
  }

  /** No score occurs twice. */
  predicate NoTies(s: seq<real>)
  {
    forall x :: x in multiset(s) ==> multiset(s)[x] <= 1
  }

  /** Inserts x into a descending list, keeping it descending. */
  function InsertDesc(x: real, s: seq<real>): (r: seq<real>)
    requires SortedDesc(s)
    ensures |r| == |s| + 1
    ensures multiset(r) == multiset(s) + multiset{x}
    ensures SortedDesc(r)
    ensures r[0] == if s == [] || x >= s[0] then x else s[0]
  {
    if s == [] || x >= s[0] then
      SortedCons(x, s);
      [x] + s
    else
      SortedTail(s);
      var rest := InsertDesc(x, s[1..]);
      assert s == [s[0]] + s[1..];
      SortedCons(s[0], rest);
      [s[0]] + rest
  }

  /** A head no smaller than the first element keeps a list descending. */
  lemma SortedCons(h: real, s: seq<real>)
    requires SortedDesc(s) && (s == [] || h >= s[0])
    ensures SortedDesc([h] + s)
  {
    forall i, j | 0 <= i < j < |s| + 1
      ensures ([h] + s)[i] >= ([h] + s)[j]
    {
      if i == 0 && j > 1 {
        assert s[0] >= s[j - 1];
      }
    }
  }

  /** `sorted(s, reverse=True)`: the descending permutation of `s`. */
  function SortDesc(s: seq<real>): (r: seq<real>)
    ensures |r| == |s|
    ensures multiset(r) == multiset(s)
    ensures SortedDesc(r)
  {
    if s == [] then []
    else
      assert s == [s[0]] + s[1..];
      InsertDesc(s[0], SortDesc(s[1..]))
  }

  /** Every score in a descending list is at most its head. */
  lemma SortedHeadIsMax(s: seq<real>, x: real)
    requires SortedDesc(s) && x in multiset(s)
    ensures s != [] && x <= s[0]
  {
    var i :| 0 <= i < |s| && s[i] == x;
    assert i == 0 || s[0] >= s[i];
  }

  lemma SortedTail(s: seq<real>)
    requires SortedDesc(s) && s != []
    ensures SortedDesc(s[1..])
  {
    forall i, j | 0 <= i < j < |s| - 1
      ensures s[1..][i] >= s[1..][j]
    {
      assert s[1..][i] == s[i + 1] && s[1..][j] == s[j + 1];
    }
  }

  lemma MultisetTail(s: seq<real>)
    requires s != []
    ensures multiset(s[1..]) == multiset(s) - multiset{s[0]}
  {
    assert s == [s[0]] + s[1..];
  }

  /** Two descending lists with the same scores have the same head. */
  lemma SortedSameHead(a: seq<real>, b: seq<real>)
    requires SortedDesc(a) && SortedDesc(b) && a != []
    requires multiset(a) == multiset(b)
    ensures b != [] && a[0] == b[0]
  {
    assert a[0] in multiset(a);
    SortedHeadIsMax(b, a[0]);
    assert b[0] in multiset(b);
    SortedHeadIsMax(a, b[0]);
  }

  /** A descending order of a multiset of scores is unique, so SortDesc is
      the order any correct descending sort produces. */
  lemma {:induction false} SortedPermutationUnique(a: seq<real>, b: seq<real>)
    requires SortedDesc(a) && SortedDesc(b)
    requires multiset(a) == multiset(b)
    ensures a == b
  {
    if a == [] {
      assert |b| == |multiset(b)| == 0;
    } else {
      SortedSameHead(a, b);
      MultisetTail(a);
      MultisetTail(b);
      SortedTail(a);
      SortedTail(b);
      SortedPermutationUnique(a[1..], b[1..]);
      ConsEqual(a, b);
    }
  }

  lemma ConsEqual(a: seq<real>, b: seq<real>)
    requires a != [] && b != [] && a[0] == b[0] && a[1..] == b[1..]
    ensures a == b
  {
    assert a == [a[0]] + a[1..];
    assert b == [b[0]] + b[1..];
  }

  /** How many scores lie strictly above t. */
  function CountAbove(s: seq<real>, t: real): (r: nat)
    ensures r <= |s|
  {
    if s == [] then 0 else (if s[0] > t then 1 else 0) + CountAbove(s[1..], t)
  }

  lemma {:induction false} CountAboveConcat(a: seq<real>, b: seq<real>, t: real)
    ensures CountAbove(a + b, t) == CountAbove(a, t) + CountAbove(b, t)
  {
    if a != [] {
      assert (a + b)[0] == a[0];
      assert (a + b)[1..] == a[1..] + b;
      CountAboveConcat(a[1..], b, t);
    } else {
      assert a + b == b;
    }
  }

  /** Taking out the score at position i. */
  lemma RemoveAt(b: seq<real>, i: nat, t: real)
    requires i < |b|
    ensures multiset(b[..i] + b[i + 1..]) == multiset(b) - multiset{b[i]}
    ensures CountAbove(b, t) == CountAbove(b[..i] + b[i + 1..], t) + (if b[i] > t then 1 else 0)
  {
    assert b == b[..i] + ([b[i]] + b[i + 1..]);
    CountAboveConcat(b[..i], [b[i]] + b[i + 1..], t);
    CountAboveConcat([b[i]], b[i + 1..], t);
    CountAboveConcat(b[..i], b[i + 1..], t);
  }

  /** The count depends only on the multiset of scores, not their order. */
  lemma {:induction false} CountAbovePermutation(a: seq<real>, b: seq<real>, t: real)
    requires multiset(a) == multiset(b)
    ensures CountAbove(a, t) == CountAbove(b, t)
  {
    if a == [] {
      assert |b| == |multiset(b)| == 0;
    } else {
      assert a[0] in multiset(b);
      var i :| 0 <= i < |b| && b[i] == a[0];
      RemoveAt(b, i, t);
      MultisetTail(a);
      CountAbovePermutation(a[1..], b[..i] + b[i + 1..], t);
    }
  }

  lemma {:induction false} CountAboveNone(s: seq<real>, t: real)
    requires forall i :: 0 <= i < |s| ==> s[i] <= t
    ensures CountAbove(s, t) == 0
  {
    if s != [] {
      CountAboveNone(s[1..], t);
    }
  }

  lemma {:induction false} CountAboveAll(s: seq<real>, t: real)
    requires forall i :: 0 <= i < |s| ==> s[i] > t
    ensures CountAbove(s, t) == |s|
  {
    if s != [] {
      CountAboveAll(s[1..], t);
    }
  }

  /** In a descending list, at most k scores are strictly above the one at
      position k: only those ranked before it can be. */
  lemma SortedCountBound(s: seq<real>, k: nat)
    requires SortedDesc(s) && k < |s|
    ensures CountAbove(s, s[k]) <= k
  {
    assert s == s[..k] + s[k..];
    CountAboveConcat(s[..k], s[k..], s[k]);
    CountAboveNone(s[k..], s[k]);
  }

  /** Two equal scores at different positions occur at least twice. */
  lemma RepeatedScore(s: seq<real>, i: nat, j: nat)
    requires i < j < |s| && s[i] == s[j]
    ensures multiset(s)[s[i]] >= 2
  {
    assert s == s[..j] + [s[j]] + s[j + 1..];
    assert s[i] in multiset(s[..j]);
  }

  /** Without ties, a descending list is strictly descending. */
  lemma NoTiesStrict(s: seq<real>, i: nat, j: nat)
    requires SortedDesc(s) && NoTies(s) && i < j < |s|
    ensures s[i] > s[j]
  {
    if s[i] == s[j] {
      RepeatedScore(s, i, j);
      assert false;
    }
  }

  /** How many of the scores exceed the one at descending rank k. */
  lemma TopKCountBound(scores: seq<real>, k: nat)
    requires k < |scores|
    ensures CountAbove(scores, SortDesc(scores)[k]) <= k
  {
    var r := SortDesc(scores);
    SortedCountBound(r, k);
    CountAbovePermutation(scores, r, r[k]);
  }

  /** In a descending list without ties, exactly k scores are above the
      one at position k. */
  lemma StrictCountExact(r: seq<real>, k: nat)
    requires SortedDesc(r) && NoTies(r) && k < |r|
    ensures CountAbove(r, r[k]) == k
  {
    PrefixAbove(r, k);
    forall j | 0 <= j < |r[k..]|
      ensures r[k..][j] <= r[k]
    {
      assert r[k..][j] == r[k + j];
    }
    CountSplit(r, k, r[k]);
  }

  /** A list whose first k scores are above t and whose rest are not has
      exactly k scores above t. */
  lemma CountSplit(r: seq<real>, k: nat, t: real)
    requires k <= |r|
    requires forall j :: 0 <= j < k ==> r[..k][j] > t
    requires forall j :: 0 <= j < |r[k..]| ==> r[k..][j] <= t
    ensures CountAbove(r, t) == k
  {
    assert r == r[..k] + r[k..];
    CountAboveConcat(r[..k], r[k..], t);
    CountAboveAll(r[..k], t);
    CountAboveNone(r[k..], t);
  }

  /** Without ties, every score ranked before position k is above it. */
  lemma PrefixAbove(r: seq<real>, k: nat)
    requires SortedDesc(r) && NoTies(r) && k < |r|
    ensures forall j :: 0 <= j < k ==> r[..k][j] > r[k]
  {
    forall j | 0 <= j < k
      ensures r[..k][j] > r[k]
    {
      NoTiesStrict(r, j, k);
    }
  }

  /** Without ties, exactly k scores exceed the one at descending rank k. */
  lemma TopKCountExact(scores: seq<real>, k: nat)
    requires k < |scores| && NoTies(scores)
    ensures CountAbove(scores, SortDesc(scores)[k]) == k
  {
    var r := SortDesc(scores);
    assert multiset(r) == multiset(scores);
    assert NoTies(r);
    StrictCountExact(r, k);
    CountAbovePermutation(scores, r, r[k]);
  }

  /** The 0/1 labelling of scores: 1 exactly when the score is strictly
      above the threshold. */
  function Labels(s: seq<real>, t: real): (r: seq<int>)
    ensures |r| == |s|
    ensures forall i :: 0 <= i < |s| ==> r[i] == (if s[i] > t then 1 else 0)
  {
    if s == [] then [] else [if s[0] > t then 1 else 0] + Labels(s[1..], t)
  }

  /** Labels are determined score by score. */
  lemma LabelsPointwise(s: seq<real>, t: real, p: seq<int>)
    requires |p| == |s|
    requires forall i :: 0 <= i < |s| ==> p[i] == (if s[i] > t then 1 else 0)
    ensures p == Labels(s, t)
  {
  }

  /** Labelling works score by score, so it distributes over concatenation. */
  lemma LabelsAppend(a: seq<real>, b: seq<real>, t: real)
    ensures Labels(a + b, t) == Labels(a, t) + Labels(b, t)
  {
    var p := Labels(a, t) + Labels(b, t);
    forall k | 0 <= k < |a + b|
      ensures p[k] == (if (a + b)[k] > t then 1 else 0)
    {
      if k >= |a| {
        assert (a + b)[k] == b[k - |a|];
      }
    }
    LabelsPointwise(a + b, t, p);
  }

  /** The number of 1 entries. */
  function CountOnes(p: seq<int>): (r: nat)
    ensures r <= |p|
  {
    if p == [] then 0 else (if p[0] == 1 then 1 else 0) + CountOnes(p[1..])
  }

  /** Labelling keeps exactly the scores above the threshold as 1s. */
  lemma {:induction false} LabelsCount(s: seq<real>, t: real)
    ensures CountOnes(Labels(s, t)) == CountAbove(s, t)
  {
    if s != [] {
      assert Labels(s, t)[1..] == Labels(s[1..], t);
      LabelsCount(s[1..], t);
    }
  }
}
