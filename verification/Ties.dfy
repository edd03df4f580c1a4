/** Insertions at one boundary: how they are spliced, and when their order can be seen. */
module Ties {
  import opened Numbers
  import opened Sequences
  import opened Batch

  predicate ShareBoundary(a: ValidatedEdit, b: ValidatedEdit) {
    a.IsInsertion() && b.IsInsertion() && a.startOrdinal == b.startOrdinal
  }

  /** Two insertions at one boundary whose contents may change places. */
  predicate Commute(a: ValidatedEdit, b: ValidatedEdit) {
    ShareBoundary(a, b) ==> a.content + b.content == b.content + a.content
  }

  /** What any sort by place makes of two edits of a compatible batch whose shared insertions commute. */
  predicate Settled(a: ValidatedEdit, b: ValidatedEdit) {
    !PlaceLess(b, a) && !EditsOverlap(a, b) && Commute(a, b)
  }

  function Contents(es: seq<ValidatedEdit>): Bytes {
    if |es| == 0 then [] else es[0].content + Contents(es[1..])
  }

  ghost predicate InsertionsAt(es: seq<ValidatedEdit>, byte: nat) {
    forall e :: e in es ==> e.IsInsertion() && e.startByte == e.endByte == byte
  }

  // ---------------------------------------------------------------- splicing a group

  lemma ConsSplice(source: Bytes, e: ValidatedEdit, rest: seq<ValidatedEdit>, cursor: nat)
    requires Chain([e] + rest, cursor, |source|)
    ensures cursor <= e.startByte <= e.endByte <= |source| && Chain(rest, e.endByte, |source|)
    ensures CursorSplice(source, [e] + rest, cursor) ==
      source[cursor..e.startByte] + e.content + CursorSplice(source, rest, e.endByte)
  {
    assert ([e] + rest)[1..] == rest;
    ChainBounds(rest, e.endByte, |source|);
  }

  lemma {:induction false} GroupSplice(
    source: Bytes, group: seq<ValidatedEdit>, after: seq<ValidatedEdit>, byte: nat, cursor: nat)
    requires Chain(group + after, cursor, |source|) && InsertionsAt(group, byte) && |group| > 0
    ensures cursor <= byte <= |source| && Chain(after, byte, |source|)
    ensures CursorSplice(source, group + after, cursor) ==
      source[cursor..byte] + Contents(group) + CursorSplice(source, after, byte)
    decreases |group|
  {
    var e, rest := group[0], group[1..];
    assert e in group;
    assert group + after == [e] + (rest + after);
    ConsSplice(source, e, rest + after, cursor);
    if rest == [] {
      assert rest + after == after;
      assert Contents(rest) == [];
    } else {
      GroupSplice(source, rest, after, byte, byte);
    }
  }

  lemma Regrouped(kept: Bytes, content: Bytes, before: Bytes, group: Bytes, after: Bytes)
    ensures kept + content + (before + group + after) == (kept + content + before) + group + after
  {
  }

  /** A batch around a group of insertions at one byte: everything before, the contents, everything after. */
  lemma {:induction false} SpliceAround(
    source: Bytes, before: seq<ValidatedEdit>, group: seq<ValidatedEdit>, after: seq<ValidatedEdit>,
    byte: nat, cursor: nat)
    requires Chain(before + (group + after), cursor, |source|) && InsertionsAt(group, byte) && |group| > 0
    ensures byte <= |source| && Chain(before, cursor, byte) && Chain(after, byte, |source|)
    ensures CursorSplice(source, before + (group + after), cursor) ==
      CursorSplice(source[..byte], before, cursor) + Contents(group) + CursorSplice(source, after, byte)
    decreases |before|
  {
    if before == [] {
      assert before + (group + after) == group + after;
      GroupSplice(source, group, after, byte, cursor);
      assert source[..byte][cursor..] == source[cursor..byte];
    } else {
      var e, rest := before[0], before[1..];
      assert before == [e] + rest;
      assert before + (group + after) == [e] + (rest + (group + after));
      ConsSplice(source, e, rest + (group + after), cursor);
      SpliceAround(source, rest, group, after, byte, e.endByte);
      ChainBounds(rest, e.endByte, byte);
      ConsSplice(source[..byte], e, rest, cursor);
      Regrouped(source[cursor..e.startByte], e.content, CursorSplice(source[..byte], rest, e.endByte),
        Contents(group), CursorSplice(source, after, byte));
      assert source[..byte][cursor..e.startByte] == source[cursor..e.startByte];
    }
  }

  // ---------------------------------------------------------------- changing places

  lemma HeadRegrouped<T>(others: seq<T>, e: T, after: seq<T>)
    requires |others| > 0
    ensures others + ([e] + after) == [others[0]] + (others[1..] + ([e] + after))
    ensures others + after == [others[0]] + (others[1..] + after)
  {
  }

  /** An insertion moves in front of insertions at its byte with which it commutes. */
  lemma {:induction false} MoveFront(
    source: Bytes, others: seq<ValidatedEdit>, e: ValidatedEdit, after: seq<ValidatedEdit>, cursor: nat)
    requires InsertionsAt(others, e.startByte) && InsertionsAt([e], e.startByte)
    requires forall x :: x in others ==> x.content + e.content == e.content + x.content
    requires Chain(others + ([e] + after), cursor, |source|)
    ensures Chain([e] + (others + after), cursor, |source|)
    ensures CursorSplice(source, [e] + (others + after), cursor) ==
      CursorSplice(source, others + ([e] + after), cursor)
    decreases |others|
  {
    assert e in [e];
    if others == [] {
      assert others + ([e] + after) == [e] + (others + after);
    } else {
      var x, rest, byte := others[0], others[1..], e.startByte;
      assert x in others && forall y :: y in rest ==> y in others;
      HeadRegrouped(others, e, after);
      ConsSplice(source, x, rest + ([e] + after), cursor);
      MoveFront(source, rest, e, after, byte);
      ConsSplice(source, e, rest + after, byte);
      Exchange(source, x, e, rest + after, cursor);
    }
  }

  /** Two neighbouring insertions at one byte that commute. */
  lemma Exchange(source: Bytes, x: ValidatedEdit, e: ValidatedEdit, after: seq<ValidatedEdit>, cursor: nat)
    requires InsertionsAt([x], e.startByte) && InsertionsAt([e], e.startByte)
    requires x.content + e.content == e.content + x.content
    requires cursor <= e.startByte && Chain(after, e.startByte, |source|)
    ensures e.startByte <= |source|
    ensures Chain([e] + ([x] + after), cursor, |source|)
    ensures CursorSplice(source, [e] + ([x] + after), cursor) ==
      source[cursor..e.startByte] + x.content + (e.content + CursorSplice(source, after, e.startByte))
  {
    var byte := e.startByte;
    assert x in [x] && e in [e];
    ChainBounds(after, byte, |source|);
    assert ([x] + after)[1..] == after && ([e] + ([x] + after))[1..] == [x] + after;
    ConsSplice(source, x, after, byte);
    ConsSplice(source, e, [x] + after, cursor);
    var here, rest := source[cursor..byte], CursorSplice(source, after, byte);
    assert source[byte..byte] + x.content + rest == x.content + rest;
    assert here + e.content + (x.content + rest) == here + (e.content + x.content) + rest;
    assert here + x.content + (e.content + rest) == here + (x.content + e.content) + rest;
  }

  /** In two settled orders of the same edits, what stands before the first one of the other order is tied with it. */
  lemma TiedBefore(source: Bytes, a: seq<ValidatedEdit>, b: seq<ValidatedEdit>, k: nat, i: nat)
    requires |a| > 0 && i < k < |b| && b[k] == a[0] && b[i] in a
    requires AllOnBoundaries(source, a) && Pairwise(Settled, a) && Pairwise(Settled, b)
    ensures InsertionsAt([a[0]], a[0].startByte) && InsertionsAt([b[i]], a[0].startByte)
    ensures b[i].content + a[0].content == a[0].content + b[i].content
  {
    var m :| 0 <= m < |a| && a[m] == b[i];
    assert OnBoundaries(source, a[0]) && OnBoundaries(source, a[m]);
    assert Settled(b[i], b[k]);
    assert m > 0 ==> Settled(a[0], a[m]);
  }

  lemma PairwiseWithout<T(!new)>(ok: (T, T) -> bool, s: seq<T>, k: nat)
    requires Pairwise(ok, s) && k < |s|
    ensures Pairwise(ok, s[..k] + s[k + 1..])
  {
    var rest := s[..k] + s[k + 1..];
    forall i, j | 0 <= i < j < |rest|
      ensures ok(rest[i], rest[j])
    {
      var i', j' := if i < k then i else i + 1, if j < k then j else j + 1;
      assert rest[i] == s[i'] && rest[j] == s[j'];
    }
  }

  /** The first edit of one settled order can be spliced first in the other. */
  lemma ToFront(source: Bytes, a: seq<ValidatedEdit>, b: seq<ValidatedEdit>, k: nat, cursor: nat)
    requires |a| > 0 && k < |b| && b[k] == a[0] && (forall x :: x in b ==> x in a)
    requires AllOnBoundaries(source, a) && Pairwise(Settled, a) && Pairwise(Settled, b)
    requires Chain(b, cursor, |source|)
    ensures var e, rest := a[0], b[..k] + b[k + 1..];
      && cursor <= e.startByte <= e.endByte <= |source| && Chain(rest, e.endByte, |source|)
      && CursorSplice(source, b, cursor) ==
           source[cursor..e.startByte] + e.content + CursorSplice(source, rest, e.endByte)
  {
    var e, others, after := a[0], b[..k], b[k + 1..];
    assert b == others + ([e] + after);
    if k == 0 {
      assert others + after == after && b == [e] + after;
    } else {
      forall i | 0 <= i < k
        ensures InsertionsAt([e], e.startByte) && InsertionsAt([b[i]], e.startByte)
        ensures b[i].content + e.content == e.content + b[i].content
      {
        TiedBefore(source, a, b, k, i);
      }
      assert forall i :: 0 <= i < k ==> b[i] in [b[i]];
      assert InsertionsAt([b[0]], e.startByte);
      MoveFront(source, others, e, after, cursor);
    }
    ConsSplice(source, e, others + after, cursor);
  }

  lemma SettledRests(a: seq<ValidatedEdit>, b: seq<ValidatedEdit>) returns (k: nat, rest: seq<ValidatedEdit>)
    requires |a| > 0 && multiset(a) == multiset(b) && Pairwise(Settled, a) && Pairwise(Settled, b)
    ensures k < |b| && b[k] == a[0] && rest == b[..k] + b[k + 1..] && (forall x :: x in b ==> x in a)
    ensures multiset(a[1..]) == multiset(rest) && Pairwise(Settled, a[1..]) && Pairwise(Settled, rest)
  {
    SameElements(a, b);
    k, rest := WithoutFirst(a, b);
    PairwiseWithout(Settled, a, 0);
    PairwiseWithout(Settled, b, k);
    assert a[..0] + a[0 + 1..] == a[1..];
  }

  lemma FirstOut(source: Bytes, a: seq<ValidatedEdit>, cursor: nat)
    requires |a| > 0 && Chain(a, cursor, |source|)
    ensures var e := a[0];
      && cursor <= e.startByte <= e.endByte <= |source| && Chain(a[1..], e.endByte, |source|)
      && CursorSplice(source, a, cursor) ==
           source[cursor..e.startByte] + e.content + CursorSplice(source, a[1..], e.endByte)
  {
    ChainBounds(a[1..], a[0].endByte, |source|);
  }

  /** Two orders of one set of edits that differ only among commuting insertions splice alike. */
  lemma {:induction false} SettledSameSplice(
    source: Bytes, a: seq<ValidatedEdit>, b: seq<ValidatedEdit>, cursor: nat)
    requires multiset(a) == multiset(b) && AllOnBoundaries(source, a)
    requires Pairwise(Settled, a) && Pairwise(Settled, b)
    requires Chain(a, cursor, |source|) && Chain(b, cursor, |source|)
    ensures CursorSplice(source, a, cursor) == CursorSplice(source, b, cursor)
    decreases |a|
  {
    if a == [] {
      assert |multiset(b)| == 0;
    } else {
      var k, rest := SettledRests(a, b);
      ToFront(source, a, b, k, cursor);
      FirstOut(source, a, cursor);
      SettledSameSplice(source, a[1..], rest, a[0].endByte);
    }
  }
}
