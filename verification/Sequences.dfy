/** Order-insensitive facts about sequences, stated through multisets. */
module Sequences {

  lemma ElementBetween(xs: seq<nat>, low: nat, high: nat)
    requires forall x :: x in xs ==> low <= x < high
    ensures |xs| > 0 ==> low < high
  {
    if |xs| > 0 {
      assert xs[0] in xs;
    }
  }

  function Map<A, B>(f: A -> B, s: seq<A>): (r: seq<B>)
    ensures |r| == |s| && forall i :: 0 <= i < |s| ==> r[i] == f(s[i])
  {
    if |s| == 0 then [] else [f(s[0])] + Map(f, s[1..])
  }

  lemma MapConcat<A, B>(f: A -> B, a: seq<A>, b: seq<A>)
    ensures Map(f, a + b) == Map(f, a) + Map(f, b)
  {
  }

  /** Position of an element known to be in `b`, and what remains without it. */
  lemma Extract<T>(b: seq<T>, x: T) returns (k: nat, rest: seq<T>)
    requires x in b
    ensures k < |b| && b[k] == x && rest == b[..k] + b[k + 1..]
    ensures b == b[..k] + ([x] + b[k + 1..])
    ensures multiset(rest) == multiset(b) - multiset{x}
  {
    k :| 0 <= k < |b| && b[k] == x;
    rest := b[..k] + b[k + 1..];
    assert b == b[..k] + ([x] + b[k + 1..]);
    assert multiset(b) == multiset(b[..k]) + (multiset{x} + multiset(b[k + 1..]));
  }

  lemma SameElements<T>(a: seq<T>, b: seq<T>)
    requires multiset(a) == multiset(b)
    ensures forall x :: x in a <==> x in b
    ensures |a| == |b|
  {
    assert |multiset(a)| == |a| && |multiset(b)| == |b|;
    assert forall x :: x in a <==> x in multiset(a);
    assert forall x :: x in b <==> x in multiset(b);
  }

  /** Where the first element of `a` stands in `b`, and what `b` holds besides it. */
  lemma WithoutFirst<T>(a: seq<T>, b: seq<T>) returns (k: nat, rest: seq<T>)
    requires |a| > 0 && multiset(a) == multiset(b)
    ensures k < |b| && rest == b[..k] + b[k + 1..] && b == b[..k] + ([a[0]] + b[k + 1..])
    ensures multiset(a[1..]) == multiset(rest)
  {
    SameElements(a, b);
    assert a[0] in a;
    k, rest := Extract(b, a[0]);
    assert a == [a[0]] + a[1..];
  }

  lemma {:induction false} MapIgnoresOrder<A, B>(f: A -> B, a: seq<A>, b: seq<A>)
    requires multiset(a) == multiset(b)
    ensures multiset(Map(f, a)) == multiset(Map(f, b))
  {
    SameElements(a, b);
    if |a| != 0 {
      var k, rest := WithoutFirst(a, b);
      MapIgnoresOrder(f, a[1..], rest);
      MapConcat(f, b[..k], b[k + 1..]);
      MapConcat(f, b[..k], [a[0]] + b[k + 1..]);
      MapConcat(f, [a[0]], b[k + 1..]);
      assert a == [a[0]] + a[1..];
      MapConcat(f, [a[0]], a[1..]);
    }
  }

  ghost predicate Pairwise<T(!new)>(ok: (T, T) -> bool, s: seq<T>) {
    forall i, j :: 0 <= i < j < |s| ==> ok(s[i], s[j])
  }

  ghost predicate Each<T(!new)>(ok: (T, T) -> bool, x: T, s: seq<T>) {
    forall i :: 0 <= i < |s| ==> ok(x, s[i])
  }

  ghost predicate Symmetric<T(!new)>(ok: (T, T) -> bool) {
    forall x, y :: ok(x, y) == ok(y, x)
  }

  /** A symmetric pairwise property, with one element singled out at any position. */
  lemma PairwiseAround<T(!new)>(ok: (T, T) -> bool, before: seq<T>, x: T, after: seq<T>)
    requires Symmetric(ok)
    requires Each(ok, x, before + after) && Pairwise(ok, before + after)
    ensures Pairwise(ok, before + ([x] + after))
  {
    var all, rest, k := before + ([x] + after), before + after, |before|;
    forall i, j | 0 <= i < j < |all|
      ensures ok(all[i], all[j])
    {
      var i', j' := if i < k then i else i - 1, if j < k then j else j - 1;
      if i == k {
        assert all[j] == rest[j'];
      } else if j == k {
        assert all[i] == rest[i'] && ok(x, rest[i']) == ok(rest[i'], x);
      } else {
        assert all[i] == rest[i'] && all[j] == rest[j'];
      }
    }
  }

  lemma FirstAgainstRest<T(!new)>(ok: (T, T) -> bool, a: seq<T>, rest: seq<T>)
    requires |a| > 0 && Pairwise(ok, a) && multiset(a[1..]) == multiset(rest)
    ensures Each(ok, a[0], rest) && Pairwise(ok, a[1..])
  {
    SameElements(a[1..], rest);
    forall i | 0 <= i < |rest|
      ensures ok(a[0], rest[i])
    {
      assert rest[i] in a[1..];
    }
  }

  /** A symmetric pairwise property sees only which elements there are. */
  lemma {:induction false} PairwiseIgnoresOrder<T(!new)>(ok: (T, T) -> bool, a: seq<T>, b: seq<T>)
    requires Symmetric(ok) && multiset(a) == multiset(b) && Pairwise(ok, a)
    ensures Pairwise(ok, b)
  {
    SameElements(a, b);
    if |a| != 0 {
      var k, rest := WithoutFirst(a, b);
      FirstAgainstRest(ok, a, rest);
      PairwiseIgnoresOrder(ok, a[1..], rest);
      PairwiseAround(ok, b[..k], a[0], b[k + 1..]);
    }
  }
}
