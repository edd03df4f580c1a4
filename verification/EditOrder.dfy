/** Exactly when the order of a batch can be seen in its output. */
module EditOrder {
  import opened Numbers
  import opened Sequences
  import opened Text
  import opened Batch
  import opened Ties
  import opened Protocol
  import opened EditTheorems

  /** Any two insertions of the batch at one boundary have contents that may change places. */
  ghost predicate InsertionsCommute(source: Bytes, operations: seq<EditOperation>) {
    Pairwise(Commute, Places(source, operations))
  }

  // ---------------------------------------------------------------- commuting insertions

  /** The sorted batch without its request indices. */
  function Sequenced(es: seq<ValidatedEdit>): seq<ValidatedEdit> {
    UnindexAll(SortByKey(es))
  }

  lemma SettledWithoutIndices(source: Bytes, sorted: seq<ValidatedEdit>)
    requires AllOnBoundaries(source, sorted) && Sorted(KeyLess, sorted) && PairwiseCompatible(sorted)
    requires Pairwise(Commute, UnindexAll(sorted))
    ensures AllOnBoundaries(source, UnindexAll(sorted)) && Pairwise(Settled, UnindexAll(sorted))
  {
    var us := UnindexAll(sorted);
    UnindexedCompatible(sorted);
    forall i | 0 <= i < |us|
      ensures OnBoundaries(source, us[i])
    {
      assert OnBoundaries(source, sorted[i]);
    }
    forall i, j | 0 <= i < j < |us|
      ensures Settled(us[i], us[j])
    {
      assert KeyLess(sorted[i], sorted[j]) && !EditsOverlap(us[i], us[j]) && Commute(us[i], us[j]);
    }
  }

  lemma SequencedSplice(source: Bytes, operations: seq<EditOperation>)
    requires ReferenceEdits(source, operations).Ok?
    ensures ResolveFrom(source, operations, 0).Ok?
    ensures var us := Sequenced(ResolveFrom(source, operations, 0).value);
      && multiset(us) == multiset(Places(source, operations)) && Chain(us, 0, |source|)
      && ReferenceEdits(source, operations) == Ok(CursorSplice(source, us, 0))
  {
    AppliedSorted(source, operations);
    var es := ResolveFrom(source, operations, 0).value;
    MapIgnoresOrder((e: ValidatedEdit) => e.Unindexed(), es, SortByKey(es));
    SpliceIgnoresIndices(source, SortByKey(es), Sequenced(es), 0);
  }

  lemma SequencedIsSettled(source: Bytes, operations: seq<EditOperation>)
    requires ReferenceEdits(source, operations).Ok? && InsertionsCommute(source, operations)
    ensures ResolveFrom(source, operations, 0).Ok?
    ensures var us := Sequenced(ResolveFrom(source, operations, 0).value);
      AllOnBoundaries(source, us) && Pairwise(Settled, us)
  {
    AppliedSorted(source, operations);
    SequencedSplice(source, operations);
    var es := ResolveFrom(source, operations, 0).value;
    PairwiseIgnoresOrder(Commute, Places(source, operations), Sequenced(es));
    SettledWithoutIndices(source, SortByKey(es));
  }

  /** Permuting a batch whose shared insertions commute never changes its output. */
  lemma CommutingOrderHidden(source: Bytes, a: seq<EditOperation>, b: seq<EditOperation>)
    requires multiset(a) == multiset(b) && ReferenceEdits(source, a).Ok? && InsertionsCommute(source, a)
    ensures ReferenceEdits(source, b) == ReferenceEdits(source, a)
  {
    AcceptanceIgnoresOrder(source, a, b);
    MapIgnoresOrder((operation: EditOperation) => Place(source, operation), a, b);
    PairwiseIgnoresOrder(Commute, Places(source, a), Places(source, b));
    SequencedSplice(source, a);
    SequencedSplice(source, b);
    SequencedIsSettled(source, a);
    SequencedIsSettled(source, b);
    var ua, ub := Sequenced(ResolveFrom(source, a, 0).value), Sequenced(ResolveFrom(source, b, 0).value);
    SettledSameSplice(source, ua, ub, 0);
  }

  /** Permuting an accepted batch never changes its output when no two insertions share a boundary. */
  lemma OutputIgnoresOrder(source: Bytes, a: seq<EditOperation>, b: seq<EditOperation>)
    requires multiset(a) == multiset(b) && ReferenceEdits(source, a).Ok?
    requires InsertionsApart(Places(source, a))
    ensures ReferenceEdits(source, b) == ReferenceEdits(source, a)
  {
    CommutingOrderHidden(source, a, b);
  }

  // ---------------------------------------------------------------- request order

  /**
   * The output around the sorted edits `a` and `b`, two insertions at one boundary: what stands before the
   * boundary, the one content, other insertions there, the other content, what stands after.
   */
  ghost predicate SplicedInOrder(source: Bytes, sorted: seq<ValidatedEdit>, a: nat, b: nat, output: Bytes)
    requires a < b < |sorted|
  {
    var byte, before, between, after := sorted[a].startByte, sorted[..a], sorted[a + 1..b], sorted[b + 1..];
    && byte <= |source| && Chain(before, 0, byte) && Chain(after, byte, |source|) && InsertionsAt(between, byte)
    && output ==
         CursorSplice(source[..byte], before, 0) + (sorted[a].content + (Contents(between) + sorted[b].content))
         + CursorSplice(source, after, byte)
  }

  lemma ContentsOfGroup(e: ValidatedEdit, between: seq<ValidatedEdit>, f: ValidatedEdit)
    ensures Contents([e] + (between + [f])) == e.content + (Contents(between) + f.content)
  {
    assert ([e] + (between + [f]))[1..] == between + [f];
    ContentsAppend(between, f);
  }

  lemma {:induction false} ContentsAppend(es: seq<ValidatedEdit>, f: ValidatedEdit)
    ensures Contents(es + [f]) == Contents(es) + f.content
  {
    if es == [] {
      assert es + [f] == [f] && Contents([f][1..]) == [];
    } else {
      ContentsAppend(es[1..], f);
      assert (es + [f])[1..] == es[1..] + [f];
    }
  }

  /** Everything between two insertions at one boundary in the sorted batch is an insertion there. */
  lemma GroupAt(source: Bytes, sorted: seq<ValidatedEdit>, a: nat, b: nat)
    requires AllOnBoundaries(source, sorted) && Sorted(KeyLess, sorted)
    requires a < b < |sorted| && ShareBoundary(sorted[a], sorted[b])
    ensures InsertionsAt(sorted[a..b + 1], sorted[a].startByte)
  {
    forall k | a <= k <= b
      ensures sorted[k].IsInsertion() && sorted[k].startByte == sorted[k].endByte == sorted[a].startByte
    {
      assert OnBoundaries(source, sorted[a]) && OnBoundaries(source, sorted[k]);
      assert a < k ==> KeyLess(sorted[a], sorted[k]);
      assert k < b ==> KeyLess(sorted[k], sorted[b]);
    }
  }

  lemma SortedPositions(es: seq<ValidatedEdit>, sorted: seq<ValidatedEdit>, i: nat, j: nat) returns (a: nat, b: nat)
    requires multiset(sorted) == multiset(es) && Sorted(KeyLess, sorted)
    requires i < |es| && j < |es| && es[i].index < es[j].index && ShareBoundary(es[i], es[j])
    ensures a < b < |sorted| && sorted[a] == es[i] && sorted[b] == es[j]
  {
    SameElements(sorted, es);
    assert es[i] in sorted && es[j] in sorted;
    a :| 0 <= a < |sorted| && sorted[a] == es[i];
    b :| 0 <= b < |sorted| && sorted[b] == es[j];
    assert b < a ==> KeyLess(sorted[b], sorted[a]);
  }

  lemma ResolvedAt(source: Bytes, operations: seq<EditOperation>, i: nat)
    requires ResolveFrom(source, operations, 0).Ok? && i < |operations|
    ensures var es := ResolveFrom(source, operations, 0).value;
      && i < |es| && ResolveOperation(source, i, operations[i]) == Ok(es[i]) && es[i].index == i
      && es[i].Unindexed() == Place(source, operations[i]) && es[i].content == operations[i].content
  {
    ResolvedEach(source, operations, 0);
    var es := ResolveFrom(source, operations, 0).value;
    assert Ok(es[i]) == ResolveOperation(source, 0 + i, operations[0 + i]);
  }

  lemma CutAround<T>(s: seq<T>, a: nat, b: nat)
    requires a < b < |s|
    ensures s == s[..a] + (([s[a]] + (s[a + 1..b] + [s[b]])) + s[b + 1..])
    ensures s[a..b + 1] == [s[a]] + (s[a + 1..b] + [s[b]])
  {
  }

  lemma SplicesGroup(
    source: Bytes, before: seq<ValidatedEdit>, e: ValidatedEdit, between: seq<ValidatedEdit>, f: ValidatedEdit,
    after: seq<ValidatedEdit>)
    requires Chain(before + (([e] + (between + [f])) + after), 0, |source|)
    requires InsertionsAt([e] + (between + [f]), e.startByte)
    ensures e.startByte <= |source| && Chain(before, 0, e.startByte) && Chain(after, e.startByte, |source|)
    ensures CursorSplice(source, before + (([e] + (between + [f])) + after), 0) ==
      CursorSplice(source[..e.startByte], before, 0) + (e.content + (Contents(between) + f.content))
      + CursorSplice(source, after, e.startByte)
  {
    SpliceAround(source, before, [e] + (between + [f]), after, e.startByte, 0);
    ContentsOfGroup(e, between, f);
  }

  lemma InsideGroup(
    group: seq<ValidatedEdit>, e: ValidatedEdit, between: seq<ValidatedEdit>, f: ValidatedEdit, byte: nat)
    requires group == [e] + (between + [f]) && InsertionsAt(group, byte)
    ensures InsertionsAt(between, byte)
  {
    assert forall x :: x in between ==> x in between + [f];
    assert forall x :: x in between + [f] ==> x in group;
  }

  /** A sorted batch cut at two insertions at one boundary. */
  lemma SplitAtGroup(source: Bytes, sorted: seq<ValidatedEdit>, a: nat, b: nat)
    requires Chain(sorted, 0, |source|) && a < b < |sorted|
    requires InsertionsAt(sorted[a..b + 1], sorted[a].startByte)
    ensures SplicedInOrder(source, sorted, a, b, CursorSplice(source, sorted, 0))
  {
    CutAround(sorted, a, b);
    InsideGroup(sorted[a..b + 1], sorted[a], sorted[a + 1..b], sorted[b], sorted[a].startByte);
    SplicesGroup(source, sorted[..a], sorted[a], sorted[a + 1..b], sorted[b], sorted[b + 1..]);
  }

  /** For every source and batch, of two insertions at one boundary the earlier request comes first. */
  lemma SharedInsertionsAreOrdered(source: Bytes, operations: seq<EditOperation>, i: nat, j: nat)
    requires ReferenceEdits(source, operations).Ok? && i < j < |operations|
    requires ShareBoundary(Place(source, operations[i]), Place(source, operations[j]))
    ensures ResolveFrom(source, operations, 0).Ok?
    ensures var sorted := SortByKey(ResolveFrom(source, operations, 0).value);
      exists a, b :: 0 <= a < b < |sorted|
        && Ok(sorted[a]) == ResolveOperation(source, i, operations[i])
        && Ok(sorted[b]) == ResolveOperation(source, j, operations[j])
        && SplicedInOrder(source, sorted, a, b, ReferenceEdits(source, operations).value)
  {
    AppliedSorted(source, operations);
    ResolvedAt(source, operations, i);
    ResolvedAt(source, operations, j);
    var es := ResolveFrom(source, operations, 0).value;
    var sorted := SortByKey(es);
    var a, b := SortedPositions(es, sorted, i, j);
    GroupAt(source, sorted, a, b);
    SplitAtGroup(source, sorted, a, b);
  }

  // ---------------------------------------------------------------- order that shows

  /** How many edits of a sorted batch start before the boundary. */
  function Before(sorted: seq<ValidatedEdit>, ordinal: nat): (m: nat)
    ensures m <= |sorted|
  {
    if sorted == [] || sorted[0].startOrdinal >= ordinal then 0 else 1 + Before(sorted[1..], ordinal)
  }

  lemma {:induction false} InsertsFirst(e: ValidatedEdit, es: seq<ValidatedEdit>)
    requires e.IsInsertion() && forall x :: x in es ==> e.index < x.index
    ensures var m := Before(es, e.startOrdinal);
      InsertByKey(e, es) == es[..m] + ([e] + es[m..])
  {
    if es != [] {
      var x := es[0];
      assert x in es;
      if x.startOrdinal < e.startOrdinal {
        InsertsFirst(e, es[1..]);
        var m := Before(es[1..], e.startOrdinal);
        assert es[..m + 1] == [x] + es[1..][..m] && es[m + 1..] == es[1..][m..];
      } else {
        assert es[..0] + ([e] + es[0..]) == [e] + es;
      }
    }
  }

  lemma {:induction false} BeforeStays(es: seq<ValidatedEdit>, e: ValidatedEdit)
    ensures var m := Before(es, e.startOrdinal);
      Before(es[..m] + ([e] + es[m..]), e.startOrdinal) == m
  {
    var m := Before(es, e.startOrdinal);
    var longer := es[..m] + ([e] + es[m..]);
    if m > 0 {
      BeforeStays(es[1..], e);
      assert longer[1..] == es[1..][..m - 1] + ([e] + es[1..][m - 1..]);
    }
  }

  lemma Halves<T>(es: seq<T>, m: nat, x: T, y: T)
    requires m <= |es|
    ensures var one := es[..m] + ([y] + es[m..]);
      && one[..m] == es[..m] && one[m..] == [y] + es[m..]
      && one[..m] + ([x] + one[m..]) == es[..m] + (([x] + ([] + [y])) + es[m..])
  {
    var one := es[..m] + ([y] + es[m..]);
    assert one[m..] == [y] + es[m..];
    assert [x] + ([y] + es[m..]) == ([x] + ([] + [y])) + es[m..];
  }

  lemma InsertedBefore(y: ValidatedEdit, x: ValidatedEdit, es: seq<ValidatedEdit>, m: nat)
    requires ShareBoundary(x, y) && x.index < y.index && m == Before(es, y.startOrdinal)
    requires forall e :: e in es ==> y.index < e.index
    ensures InsertByKey(x, es[..m] + ([y] + es[m..])) == es[..m] + (([x] + ([] + [y])) + es[m..])
  {
    var one := es[..m] + ([y] + es[m..]);
    forall e | e in one
      ensures x.index < e.index
    {
      assert e in es || e == y;
    }
    BeforeStays(es, y);
    InsertsFirst(x, one);
    Halves(es, m, x, y);
  }

  /** Two insertions at one boundary that come first in the request come first at their place. */
  lemma SortedPairFirst(x: ValidatedEdit, y: ValidatedEdit, tail: seq<ValidatedEdit>)
    requires ShareBoundary(x, y) && x.index < y.index && DistinctIndices(tail)
    requires forall e :: e in tail ==> y.index < e.index
    ensures var sorted := SortByKey(tail);
      var m := Before(sorted, x.startOrdinal);
      SortByKey([x, y] + tail) == sorted[..m] + (([x] + ([] + [y])) + sorted[m..])
  {
    var sorted := SortByKey(tail);
    SortByKeySorts(tail);
    SameElements(sorted, tail);
    assert ([x, y] + tail)[1..] == [y] + tail && ([y] + tail)[1..] == tail;
    InsertsFirst(y, sorted);
    InsertedBefore(y, x, sorted, Before(sorted, x.startOrdinal));
  }

  /** The output of a batch whose first two contents go in at one boundary. */
  ghost predicate AroundPair(
    source: Bytes, sorted: seq<ValidatedEdit>, ordinal: nat, byte: nat, x: Bytes, y: Bytes, output: Bytes)
  {
    var m := Before(sorted, ordinal);
    && byte <= |source| && Chain(sorted[..m], 0, byte) && Chain(sorted[m..], byte, |source|)
    && output == CursorSplice(source[..byte], sorted[..m], 0) + (x + y) + CursorSplice(source, sorted[m..], byte)
  }

  lemma PairSplice(
    source: Bytes, x: ValidatedEdit, y: ValidatedEdit, sorted: seq<ValidatedEdit>, m: nat, all: seq<ValidatedEdit>)
    requires m <= |sorted| && m == Before(sorted, x.startOrdinal)
    requires all == sorted[..m] + (([x] + ([] + [y])) + sorted[m..]) && Chain(all, 0, |source|)
    requires InsertionsAt([x], x.startByte) && InsertionsAt([y], x.startByte)
    ensures AroundPair(source, sorted, x.startOrdinal, x.startByte, x.content, y.content, CursorSplice(source, all, 0))
  {
    var none: seq<ValidatedEdit> := [];
    assert x in [x] && y in [y];
    assert forall e :: e in [x] + (none + [y]) ==> e == x || e == y;
    SplicesGroup(source, sorted[..m], x, none, y, sorted[m..]);
    assert Contents(none) + y.content == y.content;
  }

  lemma ResolvedPairFirst(source: Bytes, operations: seq<EditOperation>)
    requires ResolveFrom(source, operations, 0).Ok? && |operations| >= 2
    ensures ResolveFrom(source, operations, 2).Ok?
    ensures var es, tail := ResolveFrom(source, operations, 0).value, ResolveFrom(source, operations, 2).value;
      && |es| >= 2 && es == [es[0], es[1]] + tail && DistinctIndices(tail)
      && forall e :: e in tail ==> 2 <= e.index
  {
    ResolvedEach(source, operations, 2);
    var es, tail := ResolveFrom(source, operations, 0).value, ResolveFrom(source, operations, 2).value;
    assert es == [es[0]] + ([es[1]] + tail);
    forall k | 0 <= k < |tail|
      ensures tail[k].index == 2 + k
    {
      assert Ok(tail[k]) == ResolveOperation(source, 2 + k, operations[2 + k]);
    }
  }

  lemma PairFirst(source: Bytes, operations: seq<EditOperation>)
    requires ReferenceEdits(source, operations).Ok? && |operations| >= 2
    requires ShareBoundary(Place(source, operations[0]), Place(source, operations[1]))
    ensures ResolveFrom(source, operations, 2).Ok?
    ensures var place := Place(source, operations[0]);
      AroundPair(source, SortByKey(ResolveFrom(source, operations, 2).value), place.startOrdinal, place.startByte,
        operations[0].content, operations[1].content, ReferenceEdits(source, operations).value)
  {
    AppliedSorted(source, operations);
    ResolvedFacts(source, operations);
    ResolvedAt(source, operations, 0);
    ResolvedAt(source, operations, 1);
    ResolvedPairFirst(source, operations);
    var es, tail := ResolveFrom(source, operations, 0).value, ResolveFrom(source, operations, 2).value;
    var sorted := SortByKey(tail);
    SortedPairFirst(es[0], es[1], tail);
    assert OnBoundaries(source, es[0]) && OnBoundaries(source, es[1]);
    PairSplice(source, es[0], es[1], sorted, Before(sorted, es[0].startOrdinal), SortByKey(es));
  }

  lemma {:induction false} ResolvedTail(source: Bytes, a: seq<EditOperation>, b: seq<EditOperation>, from: nat)
    requires |a| == |b| && from <= |a| && a[from..] == b[from..]
    ensures ResolveFrom(source, a, from) == ResolveFrom(source, b, from)
    decreases |a| - from
  {
    if from < |a| {
      assert a[from] == a[from..][0] && b[from] == b[from..][0];
      assert a[from + 1..] == a[from..][1..] && b[from + 1..] == b[from..][1..];
      ResolvedTail(source, a, b, from + 1);
    }
  }

  lemma Cancel(before: Bytes, x: Bytes, y: Bytes, after: Bytes)
    requires before + (x + y) + after == before + (y + x) + after
    ensures x + y == y + x
  {
    var n := |before|;
    assert (before + (x + y) + after)[n..n + |x| + |y|] == x + y;
    assert (before + (y + x) + after)[n..n + |x| + |y|] == y + x;
  }

  /** Two first insertions at one boundary that give the same output in both orders commute. */
  lemma ExchangeShows(source: Bytes, x: EditOperation, y: EditOperation, rest: seq<EditOperation>)
    requires ReferenceEdits(source, [x, y] + rest).Ok?
    requires ReferenceEdits(source, [x, y] + rest) == ReferenceEdits(source, [y, x] + rest)
    requires ShareBoundary(Place(source, x), Place(source, y))
    ensures Commute(Place(source, x), Place(source, y))
  {
    var a, b := [x, y] + rest, [y, x] + rest;
    AppliedSorted(source, a);
    ResolvedFacts(source, a);
    ResolvedAt(source, a, 0);
    ResolvedAt(source, a, 1);
    var es := ResolveFrom(source, a, 0).value;
    assert OnBoundaries(source, es[0]) && OnBoundaries(source, es[1]);
    PairFirst(source, a);
    PairFirst(source, b);
    assert a[2..] == rest && b[2..] == rest;
    ResolvedTail(source, a, b, 2);
    var sorted, byte := SortByKey(ResolveFrom(source, a, 2).value), Place(source, x).startByte;
    var m := Before(sorted, Place(source, x).startOrdinal);
    Cancel(CursorSplice(source[..byte], sorted[..m], 0), x.content, y.content, CursorSplice(source, sorted[m..], byte));
  }

  /** The batch gives this output in every order. */
  ghost predicate OrderHidden(source: Bytes, operations: seq<EditOperation>) {
    forall b :: multiset(b) == multiset(operations) ==> ReferenceEdits(source, b) == ReferenceEdits(source, operations)
  }

  lemma PutFirst<T>(a: seq<T>, i: nat, j: nat) returns (rest: seq<T>)
    requires i < j < |a|
    ensures multiset([a[i], a[j]] + rest) == multiset(a) == multiset([a[j], a[i]] + rest)
  {
    var l, m, r := a[..i], a[i + 1..j], a[j + 1..];
    rest := l + m + r;
    CutAround(a, i, j);
    assert multiset(a) == multiset(l + (([a[i]] + (m + [a[j]])) + r));
    assert multiset(rest) == multiset(l) + multiset(m) + multiset(r);
  }

  lemma SameInOrder(source: Bytes, a: seq<EditOperation>, b: seq<EditOperation>)
    requires OrderHidden(source, a) && multiset(b) == multiset(a)
    ensures ReferenceEdits(source, b) == ReferenceEdits(source, a)
  {
  }

  lemma HiddenOrderCommutes(source: Bytes, a: seq<EditOperation>, i: nat, j: nat)
    requires ReferenceEdits(source, a).Ok? && OrderHidden(source, a) && i < j < |a|
    ensures Commute(Place(source, a[i]), Place(source, a[j]))
  {
    var x, y := a[i], a[j];
    if ShareBoundary(Place(source, x), Place(source, y)) {
      var rest := PutFirst(a, i, j);
      SameInOrder(source, a, [x, y] + rest);
      SameInOrder(source, a, [y, x] + rest);
      ExchangeShows(source, x, y, rest);
    }
  }

  /**
   * The order of an accepted batch is invisible exactly when any two insertions at one boundary have contents
   * that may change places.
   */
  lemma OutputOrderExactly(source: Bytes, operations: seq<EditOperation>)
    requires ReferenceEdits(source, operations).Ok?
    ensures OrderHidden(source, operations) <==> InsertionsCommute(source, operations)
  {
    if InsertionsCommute(source, operations) {
      forall b | multiset(b) == multiset(operations)
        ensures ReferenceEdits(source, b) == ReferenceEdits(source, operations)
      {
        CommutingOrderHidden(source, operations, b);
      }
    }
    if OrderHidden(source, operations) {
      forall i, j | 0 <= i < j < |operations|
        ensures Commute(Places(source, operations)[i], Places(source, operations)[j])
      {
        HiddenOrderCommutes(source, operations, i, j);
      }
    }
  }

  lemma PairOfPlaces(source: Bytes, a: EditOperation, b: EditOperation)
    ensures Places(source, [a, b]) == [Place(source, a), Place(source, b)]
    ensures var pa, pb := Place(source, a), Place(source, b);
      && Removed([pa, pb]) == pa.endByte - pa.startByte + (pb.endByte - pb.startByte)
      && Added([pa, pb]) == |pa.content| + |pb.content|
  {
    var pa, pb := Place(source, a), Place(source, b);
    var none: seq<ValidatedEdit> := [];
    assert [a, b][1..] == [b] && [b][1..] == [];
    assert [pa, pb][1..] == [pb] && [pb][1..] == none;
    assert Removed(none) == 0 && Added(none) == 0;
    assert Removed([pb]) == pb.endByte - pb.startByte && Added([pb]) == |pb.content|;
  }

  lemma FirstPlace(source: Bytes, content: Str)
    requires NulFree(content)
    ensures Place(source, Replace(At(1, 0), At(1, 0), content)) == ValidatedEdit(0, 0, 0, 0, 0, content)
  {
    LineStartsExact(source);
  }

  /** The failing family in its smallest form: two insertions at the start of any text, contents not commuting. */
  lemma OrderCanShow(source: Bytes, x: Str, y: Str)
    requires IsText(source) && NulFree(x) && NulFree(y) && |source| + |x| + |y| <= MAX_FILE_BYTES
    requires x + y != y + x
    ensures var a, b := Replace(At(1, 0), At(1, 0), x), Replace(At(1, 0), At(1, 0), y);
      ReferenceEdits(source, [a, b]).Ok? && !OrderHidden(source, [a, b])
  {
    var a, b := Replace(At(1, 0), At(1, 0), x), Replace(At(1, 0), At(1, 0), y);
    LineStartsExact(source);
    FirstPlace(source, x);
    FirstPlace(source, y);
    PairOfPlaces(source, a, b);
    AcceptedExactly(source, [a, b]);
    OutputOrderExactly(source, [a, b]);
    assert !Commute(Places(source, [a, b])[0], Places(source, [a, b])[1]);
  }
}
