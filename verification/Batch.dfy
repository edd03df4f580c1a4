/** Batches of resolved replaces: overlap, the three-part sort key and what splicing a batch means. */
module Batch {
  import opened Numbers
  import opened Sequences
  import opened Text

  /** One operation whose two positions are already resolved to boundary ordinals and bytes. */
  datatype ValidatedEdit = ValidatedEdit(
    index: nat, startOrdinal: nat, endOrdinal: nat, startByte: nat, endByte: nat, content: Bytes)
  {
    predicate IsInsertion() {
      startOrdinal == endOrdinal
    }

    function Unindexed(): ValidatedEdit {
      this.(index := 0)
    }
  }

  predicate EditsOverlap(left: ValidatedEdit, right: ValidatedEdit) {
    match (left.IsInsertion(), right.IsInsertion())
    case (false, false) => left.startOrdinal < right.endOrdinal && right.startOrdinal < left.endOrdinal
    case (true, false) => right.startOrdinal < left.startOrdinal && left.startOrdinal < right.endOrdinal
    case (false, true) => left.startOrdinal < right.startOrdinal && right.startOrdinal < left.endOrdinal
    case (true, true) => false
  }

  ghost predicate PairwiseCompatible(es: seq<ValidatedEdit>) {
    forall i, j :: 0 <= i < j < |es| ==> !EditsOverlap(es[i], es[j])
  }

  // ---------------------------------------------------------------- sorting

  function Kind(e: ValidatedEdit): nat {
    if e.IsInsertion() then 0 else 1
  }

  /** Start ordinal first, insertions before replacements. */
  predicate PlaceLess(a: ValidatedEdit, b: ValidatedEdit) {
    a.startOrdinal < b.startOrdinal || (a.startOrdinal == b.startOrdinal && Kind(a) < Kind(b))
  }

  /** The complete sort key: place, then request order. */
  predicate KeyLess(a: ValidatedEdit, b: ValidatedEdit) {
    PlaceLess(a, b) ||
    (a.startOrdinal == b.startOrdinal && Kind(a) == Kind(b) && a.index < b.index)
  }

  ghost predicate Sorted(less: (ValidatedEdit, ValidatedEdit) -> bool, es: seq<ValidatedEdit>) {
    forall i, j :: 0 <= i < j < |es| ==> less(es[i], es[j])
  }

  ghost predicate DistinctIndices(es: seq<ValidatedEdit>) {
    forall i, j :: 0 <= i < j < |es| ==> es[i].index != es[j].index
  }

  function InsertByKey(e: ValidatedEdit, es: seq<ValidatedEdit>): seq<ValidatedEdit> {
    if |es| == 0 || KeyLess(e, es[0]) then [e] + es else [es[0]] + InsertByKey(e, es[1..])
  }

  function SortByKey(es: seq<ValidatedEdit>): seq<ValidatedEdit> {
    if |es| == 0 then [] else InsertByKey(es[0], SortByKey(es[1..]))
  }

  lemma {:induction false} InsertByKeyAdds(e: ValidatedEdit, es: seq<ValidatedEdit>)
    ensures multiset(InsertByKey(e, es)) == multiset{e} + multiset(es)
  {
    if |es| != 0 && !KeyLess(e, es[0]) {
      InsertByKeyAdds(e, es[1..]);
      assert es == [es[0]] + es[1..];
    }
  }

  lemma {:induction false} InsertByKeySorted(e: ValidatedEdit, es: seq<ValidatedEdit>)
    requires Sorted(KeyLess, es)
    requires forall x :: x in es ==> x.index != e.index
    ensures Sorted(KeyLess, InsertByKey(e, es))
  {
    if |es| != 0 {
      if KeyLess(e, es[0]) {
        assert forall j :: 0 < j < |es| ==> KeyLess(es[0], es[j]);
      } else {
        InsertByKeySorted(e, es[1..]);
        InsertByKeyAdds(e, es[1..]);
        var rest := InsertByKey(e, es[1..]);
        forall j | 0 <= j < |rest|
          ensures KeyLess(es[0], rest[j])
        {
          assert rest[j] in multiset(rest);
          assert rest[j] == e || rest[j] in es[1..];
          assert es[0] in es;
        }
      }
    }
  }

  lemma {:induction false} SortByKeySorts(es: seq<ValidatedEdit>)
    requires DistinctIndices(es)
    ensures Sorted(KeyLess, SortByKey(es))
    ensures multiset(SortByKey(es)) == multiset(es)
  {
    if |es| != 0 {
      SortByKeySorts(es[1..]);
      var rest := SortByKey(es[1..]);
      assert es == [es[0]] + es[1..];
      assert forall x :: x in rest ==> x in multiset(rest);
      InsertByKeySorted(es[0], rest);
      InsertByKeyAdds(es[0], rest);
    }
  }

  ghost predicate StrictOrder(less: (ValidatedEdit, ValidatedEdit) -> bool) {
    && (forall a :: !less(a, a))
    && (forall a, b, c :: less(a, b) && less(b, c) ==> less(a, c))
  }

  lemma FirstIsLeast(less: (ValidatedEdit, ValidatedEdit) -> bool, es: seq<ValidatedEdit>, x: ValidatedEdit)
    requires Sorted(less, es) && x in es
    ensures x == es[0] || less(es[0], x)
  {
  }

  lemma {:induction false} SortedUnique(
    less: (ValidatedEdit, ValidatedEdit) -> bool, a: seq<ValidatedEdit>, b: seq<ValidatedEdit>)
    requires StrictOrder(less) && Sorted(less, a) && Sorted(less, b)
    requires multiset(a) == multiset(b)
    ensures a == b
  {
    if |a| == 0 {
      assert |multiset(b)| == 0;
    } else {
      assert a[0] in multiset(b) && b != [];
      assert b[0] in multiset(a);
      assert a == [a[0]] + a[1..] && b == [b[0]] + b[1..];
      FirstIsLeast(less, a, b[0]);
      FirstIsLeast(less, b, a[0]);
      assert multiset(a[1..]) == multiset(a) - multiset{a[0]};
      SortedUnique(less, a[1..], b[1..]);
    }
  }

  /** The applied order does not depend on the sort that produced it. */
  lemma SortStrategyIrrelevant(es: seq<ValidatedEdit>, sorted: seq<ValidatedEdit>)
    requires DistinctIndices(es) && Sorted(KeyLess, sorted) && multiset(sorted) == multiset(es)
    ensures sorted == SortByKey(es)
  {
    SortByKeySorts(es);
    SortedUnique(KeyLess, sorted, SortByKey(es));
  }

  // ---------------------------------------------------------------- sums

  function Removed(es: seq<ValidatedEdit>): int {
    if |es| == 0 then 0 else es[0].endByte - es[0].startByte + Removed(es[1..])
  }

  function Added(es: seq<ValidatedEdit>): nat {
    if |es| == 0 then 0 else |es[0].content| + Added(es[1..])
  }

  ghost function RemovedLf(source: Bytes, es: seq<ValidatedEdit>): nat
    requires Inside(source, es)
  {
    if |es| == 0 then 0
    else CountLf(source[es[0].startByte..es[0].endByte]) + RemovedLf(source, es[1..])
  }

  function AddedLf(es: seq<ValidatedEdit>): nat {
    if |es| == 0 then 0 else CountLf(es[0].content) + AddedLf(es[1..])
  }

  lemma {:induction false} SumsConcat(a: seq<ValidatedEdit>, b: seq<ValidatedEdit>)
    ensures Removed(a + b) == Removed(a) + Removed(b)
    ensures Added(a + b) == Added(a) + Added(b)
  {
    if |a| == 0 {
      assert a + b == b;
    } else {
      assert (a + b)[1..] == a[1..] + b;
      SumsConcat(a[1..], b);
    }
  }

  lemma {:induction false} LfSumsConcat(source: Bytes, a: seq<ValidatedEdit>, b: seq<ValidatedEdit>)
    requires Inside(source, a + b)
    ensures RemovedLf(source, a + b) == RemovedLf(source, a) + RemovedLf(source, b)
    ensures AddedLf(a + b) == AddedLf(a) + AddedLf(b)
  {
    if |a| == 0 {
      assert a + b == b;
    } else {
      assert (a + b)[1..] == a[1..] + b;
      assert forall e :: e in a[1..] + b ==> e in a + b;
      LfSumsConcat(source, a[1..], b);
    }
  }

  ghost predicate Inside(source: Bytes, es: seq<ValidatedEdit>) {
    forall e :: e in es ==> e.startByte <= e.endByte <= |source|
  }

  /** Each total, with one element singled out at any position. */
  lemma SumsAround(source: Bytes, before: seq<ValidatedEdit>, x: ValidatedEdit, after: seq<ValidatedEdit>)
    requires Inside(source, before + ([x] + after))
    ensures Inside(source, before + after) && x.startByte <= x.endByte <= |source|
    ensures Removed(before + ([x] + after)) == x.endByte - x.startByte + Removed(before + after)
    ensures Added(before + ([x] + after)) == |x.content| + Added(before + after)
    ensures RemovedLf(source, before + ([x] + after)) ==
      CountLf(source[x.startByte..x.endByte]) + RemovedLf(source, before + after)
    ensures AddedLf(before + ([x] + after)) == CountLf(x.content) + AddedLf(before + after)
  {
    assert x in before + ([x] + after);
    assert ([x] + after)[1..] == after;
    SumsConcat(before, after);
    SumsConcat(before, [x] + after);
    LfSumsConcat(source, before, after);
    LfSumsConcat(source, before, [x] + after);
  }

  /** All four totals see only which edits there are, not their order. */
  lemma {:induction false} SumsIgnoreOrder(source: Bytes, a: seq<ValidatedEdit>, b: seq<ValidatedEdit>)
    requires multiset(a) == multiset(b)
    requires Inside(source, a)
    ensures Inside(source, b)
    ensures Removed(a) == Removed(b) && Added(a) == Added(b)
    ensures RemovedLf(source, a) == RemovedLf(source, b) && AddedLf(a) == AddedLf(b)
  {
    SameElements(a, b);
    if |a| != 0 {
      var k, rest := WithoutFirst(a, b);
      SumsIgnoreOrder(source, a[1..], rest);
      SumsAround(source, b[..k], a[0], b[k + 1..]);
    }
  }

  // ---------------------------------------------------------------- meaning

  function Splice(text: Bytes, start: nat, end: nat, content: Bytes): Bytes
    requires start <= end <= |text|
  {
    text[..start] + content + text[end..]
  }

  /** Consecutive edits leave the cursor at or before the next start, and stay inside the text. */
  ghost predicate Chain(es: seq<ValidatedEdit>, cursor: nat, length: nat) {
    if |es| == 0 then
      cursor <= length
    else
      && cursor <= es[0].startByte <= es[0].endByte
      && (es[0].IsInsertion() ==> es[0].startByte == es[0].endByte)
      && Chain(es[1..], es[0].endByte, length)
  }

  lemma {:induction false} ChainBounds(es: seq<ValidatedEdit>, cursor: nat, length: nat)
    requires Chain(es, cursor, length)
    ensures cursor <= length
    ensures forall e :: e in es ==> cursor <= e.startByte <= e.endByte <= length
    ensures 0 <= Removed(es) <= length - cursor
  {
    if |es| != 0 {
      ChainBounds(es[1..], es[0].endByte, length);
      assert es == [es[0]] + es[1..];
    }
  }

  /** What the single left-to-right pass still has to output once it reached `cursor`. */
  ghost function CursorSplice(source: Bytes, es: seq<ValidatedEdit>, cursor: nat): Bytes
    requires Chain(es, cursor, |source|)
  {
    if |es| == 0 then
      source[cursor..]
    else
      ChainBounds(es[1..], es[0].endByte, |source|);
      source[cursor..es[0].startByte] + es[0].content + CursorSplice(source, es[1..], es[0].endByte)
  }

  /** The meaning of a sorted batch: its replaces done one by one, highest key first. */
  ghost function ApplyDescending(source: Bytes, es: seq<ValidatedEdit>): (output: Bytes)
    requires Chain(es, 0, |source|)
    ensures output == CursorSplice(source, es, 0)
  {
    if |es| == 0 then
      source
    else
      var e := es[0];
      ChainBounds(es[1..], e.endByte, |source|);
      ChainLower(es[1..], e.endByte, |source|);
      var higher := ApplyDescending(source, es[1..]);
      SpliceFromEarlier(source, es[1..], e.endByte);
      Splice(higher, e.startByte, e.endByte, e.content)
  }

  /** Everything before the cursor is copied. */
  lemma {:induction false} SpliceFromEarlier(source: Bytes, es: seq<ValidatedEdit>, cursor: nat)
    requires Chain(es, cursor, |source|)
    ensures Chain(es, 0, |source|) && cursor <= |source|
    ensures CursorSplice(source, es, 0) == source[..cursor] + CursorSplice(source, es, cursor)
  {
    ChainBounds(es, cursor, |source|);
    if |es| == 0 {
      assert source[0..] == source[..cursor] + source[cursor..];
    } else {
      var e := es[0];
      ChainBounds(es[1..], e.endByte, |source|);
      var rest := CursorSplice(source, es[1..], e.endByte);
      calc {
        CursorSplice(source, es, 0);
        source[0..e.startByte] + e.content + rest;
        { assert source[0..e.startByte] == source[..cursor] + source[cursor..e.startByte]; }
        source[..cursor] + source[cursor..e.startByte] + e.content + rest;
        source[..cursor] + (source[cursor..e.startByte] + e.content + rest);
      }
    }
  }

  lemma ChainLower(es: seq<ValidatedEdit>, cursor: nat, length: nat)
    requires Chain(es, cursor, length)
    ensures Chain(es, 0, length)
  {
  }

  lemma {:induction false} SplicedLength(source: Bytes, es: seq<ValidatedEdit>, cursor: nat)
    requires Chain(es, cursor, |source|)
    ensures |CursorSplice(source, es, cursor)| == |source| - cursor - Removed(es) + Added(es)
  {
    if |es| != 0 {
      ChainBounds(es[1..], es[0].endByte, |source|);
      SplicedLength(source, es[1..], es[0].endByte);
    }
  }

  /** LFs are conserved: those of the source, minus the replaced ones, plus the inserted ones. */
  lemma {:induction false} SplicedLf(source: Bytes, es: seq<ValidatedEdit>, cursor: nat)
    requires Chain(es, cursor, |source|)
    ensures cursor <= |source|
    ensures Inside(source, es)
    ensures CountLf(CursorSplice(source, es, cursor)) ==
      CountLf(source[cursor..]) - RemovedLf(source, es) + AddedLf(es)
  {
    ChainBounds(es, cursor, |source|);
    if |es| != 0 {
      var e := es[0];
      ChainBounds(es[1..], e.endByte, |source|);
      SplicedLf(source, es[1..], e.endByte);
      var keep, cut, rest := source[cursor..e.startByte], source[e.startByte..e.endByte], source[e.endByte..];
      SliceOn(source, cursor, e.startByte);
      SliceOn(source, e.startByte, e.endByte);
      CountLfConcat(keep, cut + rest);
      CountLfConcat(cut, rest);
      CountLfConcat(keep + e.content, CursorSplice(source, es[1..], e.endByte));
      CountLfConcat(keep, e.content);
    }
  }

  /** Request indices are not part of the output. */
  lemma {:induction false} SpliceIgnoresIndices(
    source: Bytes, a: seq<ValidatedEdit>, b: seq<ValidatedEdit>, cursor: nat)
    requires |a| == |b| && forall i :: 0 <= i < |a| ==> a[i].Unindexed() == b[i].Unindexed()
    requires Chain(a, cursor, |source|)
    ensures Chain(b, cursor, |source|)
    ensures CursorSplice(source, a, cursor) == CursorSplice(source, b, cursor)
  {
    if |a| != 0 {
      assert a[0].Unindexed() == b[0].Unindexed();
      forall i | 0 <= i < |a[1..]|
        ensures a[1..][i].Unindexed() == b[1..][i].Unindexed()
      {
        assert a[i + 1].Unindexed() == b[i + 1].Unindexed();
      }
      SpliceIgnoresIndices(source, a[1..], b[1..], a[0].endByte);
    }
  }

  // ---------------------------------------------------------------- boundaries

  /** All boundaries of a text by ordinal: its line starts, then the terminal boundary. */
  function Boundaries(text: Bytes): seq<nat> {
    LineStarts(text) + [|text|]
  }

  lemma BoundariesAscend(text: Bytes)
    ensures forall i, j :: 0 <= i <= j < |Boundaries(text)| ==> Boundaries(text)[i] <= Boundaries(text)[j]
    ensures forall i :: 0 <= i < |Boundaries(text)| ==>
      Boundaries(text)[i] <= |text| &&
      (IsLineStart(text, Boundaries(text)[i]) || Boundaries(text)[i] == |text|)
    ensures |Boundaries(text)| == CountLf(text) + 2
  {
    LineStartsExact(text);
    var starts := LineStarts(text);
    assert forall i :: 0 <= i < |starts| ==> starts[i] in starts;
  }

  /** `e` spans two boundaries of the text, in order. */
  ghost predicate OnBoundaries(text: Bytes, e: ValidatedEdit) {
    && e.startOrdinal <= e.endOrdinal < |Boundaries(text)|
    && e.startByte == Boundaries(text)[e.startOrdinal]
    && e.endByte == Boundaries(text)[e.endOrdinal]
  }

  ghost predicate AllOnBoundaries(text: Bytes, es: seq<ValidatedEdit>) {
    forall i :: 0 <= i < |es| ==> OnBoundaries(text, es[i])
  }

  /** Compatible neighbours in key order do not reach into each other. */
  lemma NeighboursOrdered(text: Bytes, a: ValidatedEdit, b: ValidatedEdit)
    requires OnBoundaries(text, a) && OnBoundaries(text, b)
    requires KeyLess(a, b) && !EditsOverlap(a, b)
    ensures a.endByte <= b.startByte
  {
    BoundariesAscend(text);
    assert a.endOrdinal <= b.startOrdinal;
  }

  lemma {:induction false} SortedIsChain(text: Bytes, es: seq<ValidatedEdit>, cursor: nat)
    requires AllOnBoundaries(text, es) && Sorted(KeyLess, es) && PairwiseCompatible(es)
    requires cursor <= |text| && (|es| != 0 ==> cursor <= es[0].startByte)
    ensures Chain(es, cursor, |text|)
  {
    if |es| != 0 {
      BoundariesAscend(text);
      if |es| > 1 {
        NeighboursOrdered(text, es[0], es[1]);
      }
      SortedIsChain(text, es[1..], es[0].endByte);
    }
  }

  lemma OverlapSymmetric(a: ValidatedEdit, b: ValidatedEdit)
    ensures EditsOverlap(a, b) == EditsOverlap(b, a)
    ensures EditsOverlap(a, b) == EditsOverlap(a.Unindexed(), b.Unindexed())
  {
  }

  predicate Compatible(a: ValidatedEdit, b: ValidatedEdit) {
    !EditsOverlap(a, b)
  }

  /** Compatibility of a batch sees only which edits there are, not their order. */
  lemma CompatibleIgnoresOrder(a: seq<ValidatedEdit>, b: seq<ValidatedEdit>)
    requires multiset(a) == multiset(b) && PairwiseCompatible(a)
    ensures PairwiseCompatible(b)
  {
    forall x, y ensures Compatible(x, y) == Compatible(y, x) {
      OverlapSymmetric(x, y);
    }
    PairwiseIgnoresOrder(Compatible, a, b);
    assert forall i, j :: 0 <= i < j < |b| ==> Compatible(b[i], b[j]);
  }

  lemma OnBoundariesInside(text: Bytes, es: seq<ValidatedEdit>)
    requires AllOnBoundaries(text, es)
    ensures Inside(text, es)
  {
    BoundariesAscend(text);
  }

  /** A compatible batch sorted by key, as the engine is about to splice it. */
  lemma SortedBatch(text: Bytes, es: seq<ValidatedEdit>)
    requires AllOnBoundaries(text, es) && DistinctIndices(es) && PairwiseCompatible(es)
    ensures multiset(SortByKey(es)) == multiset(es)
    ensures Sorted(KeyLess, SortByKey(es))
    ensures AllOnBoundaries(text, SortByKey(es)) && PairwiseCompatible(SortByKey(es))
    ensures Chain(SortByKey(es), 0, |text|)
  {
    SortByKeySorts(es);
    var sorted := SortByKey(es);
    SameElements(sorted, es);
    forall i | 0 <= i < |sorted|
      ensures OnBoundaries(text, sorted[i])
    {
      assert sorted[i] in es;
    }
    CompatibleIgnoresOrder(es, sorted);
    SortedIsChain(text, sorted, 0);
  }

  /** The ranges of an accepted batch are disjoint, so together they fit in the source. */
  lemma RemovedFits(text: Bytes, es: seq<ValidatedEdit>)
    requires AllOnBoundaries(text, es) && DistinctIndices(es) && PairwiseCompatible(es)
    ensures 0 <= Removed(es) <= |text|
    ensures forall e :: e in es ==> e.startByte <= e.endByte <= |text|
  {
    SortedBatch(text, es);
    ChainBounds(SortByKey(es), 0, |text|);
    SumsIgnoreOrder(text, SortByKey(es), es);
  }

  // ---------------------------------------------------------------- closure under splicing

  /** Splicing valid text at boundaries of valid text gives valid text. */
  lemma {:induction false} SpliceKeepsTextPolicy(source: Bytes, es: seq<ValidatedEdit>, cursor: nat)
    requires ValidUtf8(source) && NulFree(source)
    requires AllOnBoundaries(source, es) && Chain(es, cursor, |source|)
    requires forall e :: e in es ==> ValidUtf8(e.content) && NulFree(e.content)
    requires IsLineStart(source, cursor) || cursor == |source|
    ensures ValidUtf8(CursorSplice(source, es, cursor))
    ensures NulFree(CursorSplice(source, es, cursor))
  {
    ChainBounds(es, cursor, |source|);
    Utf8SplitAtLine(source, cursor);
    if |es| != 0 {
      var e := es[0];
      BoundariesAscend(source);
      SpliceKeepsTextPolicy(source, es[1..], e.endByte);
      SliceValid(source, cursor, e.startByte);
      PiecesValid(source[cursor..e.startByte], e.content, CursorSplice(source, es[1..], e.endByte));
    }
  }

  lemma PiecesValid(a: Bytes, b: Bytes, c: Bytes)
    requires ValidUtf8(a) && ValidUtf8(b) && ValidUtf8(c)
    ensures ValidUtf8(a + b + c)
    ensures NulFree(a) && NulFree(b) && NulFree(c) ==> NulFree(a + b + c)
  {
    Utf8Concat(a, b);
    Utf8Concat(a + b, c);
  }

  lemma SliceValid(source: Bytes, from: nat, to: nat)
    requires ValidUtf8(source) && from <= to <= |source|
    requires IsLineStart(source, from) || from == |source|
    requires IsLineStart(source, to) || to == |source|
    ensures ValidUtf8(source[from..to])
  {
    Utf8SplitAtLine(source, from);
    var tail := source[from..];
    assert tail[..to - from] == source[from..to];
    assert to > from ==> tail[to - from - 1] == source[to - 1];
    Utf8SplitAtLine(tail, to - from);
  }

  // ---------------------------------------------------------------- order independence

  /** No two insertions of the batch name the same boundary. */
  ghost predicate InsertionsApart(es: seq<ValidatedEdit>) {
    forall i, j :: 0 <= i < j < |es| && es[i].IsInsertion() && es[j].IsInsertion() ==>
      es[i].startOrdinal != es[j].startOrdinal
  }

  function UnindexAll(es: seq<ValidatedEdit>): (r: seq<ValidatedEdit>) {
    Map((e: ValidatedEdit) => e.Unindexed(), es)
  }

  /** Indices do not matter for overlap. */
  lemma UnindexedCompatible(es: seq<ValidatedEdit>)
    ensures PairwiseCompatible(es) <==> PairwiseCompatible(UnindexAll(es))
  {
    var us := UnindexAll(es);
    forall i, j | 0 <= i < j < |es|
      ensures EditsOverlap(es[i], es[j]) == EditsOverlap(us[i], us[j])
    {
      OverlapSymmetric(es[i], es[j]);
    }
  }

  /** Indices do not matter for the totals. */
  lemma {:induction false} UnindexedSums(source: Bytes, es: seq<ValidatedEdit>)
    requires Inside(source, es)
    ensures Inside(source, UnindexAll(es))
    ensures Removed(es) == Removed(UnindexAll(es)) && Added(es) == Added(UnindexAll(es))
    ensures RemovedLf(source, es) == RemovedLf(source, UnindexAll(es)) && AddedLf(es) == AddedLf(UnindexAll(es))
  {
    if |es| != 0 {
      assert es == [es[0]] + es[1..];
      UnindexedSums(source, es[1..]);
      assert UnindexAll(es) == [es[0].Unindexed()] + UnindexAll(es[1..]);
    }
  }
}
