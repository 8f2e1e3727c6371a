/** Sequence operations shared by the selectors: the order-preserving filter
    that list comprehensions and `if ...: continue` loops perform, and the
    choice `sort(key, reverse=True)[0]` makes with Python's stable sort. */
module Seqs {
  import opened Strings

  /** `a` can be obtained from `b` by deleting elements (order kept). */
  predicate IsSubseq<T(==)>(a: seq<T>, b: seq<T>)
    decreases |b|
  {
    |a| == 0 || (|b| > 0 && if a[0] == b[0] then IsSubseq(a[1..], b[1..]) else IsSubseq(a, b[1..]))
  }

  /** `[x for x in xs if p(x)]`. */
  function Filter<T(==)>(xs: seq<T>, p: T -> bool): (r: seq<T>)
    ensures |r| <= |xs|
    ensures IsSubseq(r, xs)
    ensures forall i :: 0 <= i < |r| ==> p(r[i])
    ensures forall i :: 0 <= i < |xs| && p(xs[i]) ==> xs[i] in r
    ensures |r| == 0 <==> forall i :: 0 <= i < |xs| ==> !p(xs[i])
    decreases |xs|
  {
    if |xs| == 0 then []
    else
      var rest := Filter(xs[1..], p);
      assert forall i :: 1 <= i < |xs| ==> xs[i] == xs[1..][i - 1];
      if p(xs[0]) then [xs[0]] + rest else rest
  }

  /** The filter keeps every copy: an element meeting `p` occurs in the
      result as often as in `xs`, any other element not at all. */
  lemma {:induction false} FilterKeepsEveryCopy<T(!new)>(xs: seq<T>, p: T -> bool)
    ensures forall x :: multiset(Filter(xs, p))[x] == if p(x) then multiset(xs)[x] else 0
    decreases |xs|
  {
    if |xs| > 0 {
      FilterKeepsEveryCopy(xs[1..], p);
      assert xs == [xs[0]] + xs[1..];
      assert multiset(xs) == multiset([xs[0]]) + multiset(xs[1..]);
    }
  }

  /** Where the `k`-th kept element comes from: position `i` of `xs`, with
      every earlier element that meets `p` among the first `k` kept ones. */
  lemma {:induction false} FilterOrigin<T(!new)>(xs: seq<T>, p: T -> bool, k: nat) returns (i: nat)
    requires k < |Filter(xs, p)|
    ensures i < |xs| && xs[i] == Filter(xs, p)[k]
    ensures forall j :: 0 <= j < i && p(xs[j]) ==> xs[j] in Filter(xs, p)[..k]
    decreases |xs|
  {
    var r := Filter(xs, p);
    var rest := Filter(xs[1..], p);
    if p(xs[0]) {
      assert r == [xs[0]] + rest;
      if k == 0 {
        i := 0;
      } else {
        var i' := FilterOrigin(xs[1..], p, k - 1);
        i := i' + 1;
        assert r[..k] == [xs[0]] + rest[..k - 1];
        forall j | 0 <= j < i && p(xs[j])
          ensures xs[j] in r[..k]
        {
          if j > 0 {
            assert xs[j] == xs[1..][j - 1];
          }
        }
      }
    } else {
      assert r == rest;
      var i' := FilterOrigin(xs[1..], p, k);
      i := i' + 1;
      forall j | 0 <= j < i && p(xs[j])
        ensures xs[j] in r[..k]
      {
        assert j > 0;
        assert xs[j] == xs[1..][j - 1];
      }
    }
  }

  /** Every element of a subsequence occurs in the original. */
  lemma {:induction false} SubseqMembers<T>(a: seq<T>, b: seq<T>)
    requires IsSubseq(a, b)
    ensures forall x :: x in a ==> x in b
    decreases |b|
  {
    if |a| > 0 {
      if a[0] == b[0] {
        SubseqMembers(a[1..], b[1..]);
        assert forall x :: x in a ==> x == a[0] || x in a[1..];
      } else {
        SubseqMembers(a, b[1..]);
      }
    }
  }

  lemma FilterMembers<T(!new)>(xs: seq<T>, p: T -> bool)
    ensures forall x :: x in Filter(xs, p) <==> x in xs && p(x)
  {
    SubseqMembers(Filter(xs, p), xs);
  }

  /** An upper bound of every key that is below `x` makes `x` an upper bound too. */
  lemma RaiseBound(keys: seq<string>, k: nat, x: string)
    requires k < |keys|
    requires forall j :: 0 <= j < |keys| ==> LexLe(keys[j], keys[k])
    requires LexLe(keys[k], x)
    ensures forall j :: 0 <= j < |keys| ==> LexLe(keys[j], x)
  {
    forall j | 0 <= j < |keys|
      ensures LexLe(keys[j], x)
    {
      LexLeTransitive(keys[j], keys[k], x);
    }
  }

  /** The index a stable descending sort puts first: a greatest key under
      Python's string ordering, and the earliest position holding it. */
  function FirstMaxIndex(keys: seq<string>): (i: nat)
    requires |keys| > 0
    ensures i < |keys|
    ensures forall j :: 0 <= j < |keys| ==> LexLe(keys[j], keys[i])
    ensures forall j :: 0 <= j < i ==> keys[j] != keys[i]
    decreases |keys|
  {
    if |keys| == 1 then
      LexLeReflexive(keys[0]);
      0
    else
      var init := keys[..|keys| - 1];
      var last := keys[|keys| - 1];
      var k := FirstMaxIndex(init);
      LexLeTotal(last, init[k]);
      if LexLe(last, init[k]) then
        LexLeReflexive(init[k]);
        k
      else
        LexLeReflexive(last);
        RaiseBound(init, k, last);
        |keys| - 1
  }
}
