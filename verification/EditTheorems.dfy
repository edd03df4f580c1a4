/** What a batch of replaces guarantees, over every source and every batch. */
module EditTheorems {
  import opened Numbers
  import opened Sequences
  import opened Text
  import opened Batch
  import opened Protocol

  /** The operation as a range of boundaries, when it is legal on its own. */
  function Place(source: Bytes, operation: EditOperation): ValidatedEdit {
    match ResolveOperation(source, 0, operation)
    case Ok(edit) => edit
    case Err(_) => ValidatedEdit(0, 0, 0, 0, 0, [])
  }

  function Places(source: Bytes, operations: seq<EditOperation>): seq<ValidatedEdit> {
    Map((operation: EditOperation) => Place(source, operation), operations)
  }

  /** NUL-free content between two boundaries in order. */
  predicate Legal(source: Bytes, operation: EditOperation) {
    && NulFree(operation.content)
    && BoundaryOrdinal(source, operation.start).Ok?
    && BoundaryOrdinal(source, operation.end).Ok?
    && BoundaryOrdinal(source, operation.start).value <= BoundaryOrdinal(source, operation.end).value
  }

  /** The complete acceptance condition of a batch, with no reference to an order of checking. */
  ghost predicate Accepted(source: Bytes, operations: seq<EditOperation>) {
    && 1 <= |operations| <= MAX_EDIT_OPERATIONS
    && IsText(source)
    && (forall operation :: operation in operations ==> Legal(source, operation))
    && PairwiseCompatible(Places(source, operations))
    && |source| - Removed(Places(source, operations)) + Added(Places(source, operations)) <= MAX_FILE_BYTES
  }

  /** The index of an operation decides neither whether it is legal nor where it goes. */
  lemma ResolvedAsPlace(source: Bytes, index: nat, operation: EditOperation)
    ensures ResolveOperation(source, index, operation).Ok? <==> Legal(source, operation)
    ensures ResolveOperation(source, index, operation).Ok? ==>
      ResolveOperation(source, index, operation).value.Unindexed() == Place(source, operation)
  {
  }

  lemma SamePlaces(source: Bytes, operations: seq<EditOperation>, es: seq<ValidatedEdit>)
    requires |es| == |operations|
    requires forall i :: 0 <= i < |es| ==> es[i].Unindexed() == Place(source, operations[i])
    ensures UnindexAll(es) == Places(source, operations)
  {
  }

  lemma ResolvedPlaces(source: Bytes, operations: seq<EditOperation>)
    requires |source| <= MAX_FILE_BYTES
    ensures ResolveFrom(source, operations, 0).Ok? <==>
      forall operation :: operation in operations ==> Legal(source, operation)
    ensures ResolveFrom(source, operations, 0).Ok? ==>
      UnindexAll(ResolveFrom(source, operations, 0).value) == Places(source, operations)
  {
    ResolvedEach(source, operations, 0);
    forall i | 0 <= i < |operations|
      ensures ResolveOperation(source, i, operations[i]).Ok? <==> Legal(source, operations[i])
    {
      ResolvedAsPlace(source, i, operations[i]);
    }
    if ResolveFrom(source, operations, 0).Ok? {
      var es := ResolveFrom(source, operations, 0).value;
      assert |es| == |operations|;
      forall i | 0 <= i < |es|
        ensures es[i].Unindexed() == Place(source, operations[i])
      {
        assert Ok(es[i]) == ResolveOperation(source, 0 + i, operations[0 + i]);
        ResolvedAsPlace(source, i, operations[i]);
      }
      SamePlaces(source, operations, es);
    }
  }

  /** A resolved batch passes the remaining checks exactly when it is compatible and its output fits. */
  lemma ResolvedAccepted(source: Bytes, operations: seq<EditOperation>)
    requires IsText(source) && ResolveFrom(source, operations, 0).Ok?
    ensures PairwiseCompatible(ResolveFrom(source, operations, 0).value) <==>
      PairwiseCompatible(Places(source, operations))
    ensures Removed(ResolveFrom(source, operations, 0).value) == Removed(Places(source, operations))
    ensures Added(ResolveFrom(source, operations, 0).value) == Added(Places(source, operations))
    ensures PairwiseCompatible(Places(source, operations)) ==> 0 <= Removed(Places(source, operations)) <= |source|
  {
    ResolvedPlaces(source, operations);
    ResolvedFacts(source, operations);
    var es := ResolveFrom(source, operations, 0).value;
    UnindexedCompatible(es);
    OnBoundariesInside(source, es);
    UnindexedSums(source, es);
    if PairwiseCompatible(es) {
      RemovedFits(source, es);
    }
  }

  /** A batch is applied exactly when every operation is legal, no two conflict and the output fits. */
  lemma AcceptedExactly(source: Bytes, operations: seq<EditOperation>)
    ensures ReferenceEdits(source, operations).Ok? <==> Accepted(source, operations)
  {
    if IsText(source) && 1 <= |operations| <= MAX_EDIT_OPERATIONS {
      ResolvedPlaces(source, operations);
      if ResolveFrom(source, operations, 0).Ok? {
        ResolvedAccepted(source, operations);
        FirstOverlapDecides(ResolveFrom(source, operations, 0).value, 0, 1);
      }
    }
  }

  /** What an accepted batch splices. */
  lemma AppliedSorted(source: Bytes, operations: seq<EditOperation>)
    requires ReferenceEdits(source, operations).Ok?
    ensures ResolveFrom(source, operations, 0).Ok?
    ensures var es := ResolveFrom(source, operations, 0).value;
      && UnindexAll(es) == Places(source, operations)
      && multiset(es) == multiset(SortByKey(es))
      && AllOnBoundaries(source, SortByKey(es)) && Sorted(KeyLess, SortByKey(es))
      && PairwiseCompatible(SortByKey(es)) && Chain(SortByKey(es), 0, |source|)
      && ReferenceEdits(source, operations) == Ok(ApplyDescending(source, SortByKey(es)))
  {
    ResolvedPlaces(source, operations);
    ResolvedFacts(source, operations);
    var es := ResolveFrom(source, operations, 0).value;
    FirstOverlapDecides(es, 0, 1);
    SortedBatch(source, es);
    UnindexedCompatible(es);
  }

  /** The output is legal file text again. */
  lemma OutputIsText(source: Bytes, operations: seq<EditOperation>)
    requires ReferenceEdits(source, operations).Ok?
    ensures IsText(ReferenceEdits(source, operations).value)
  {
    AppliedSorted(source, operations);
    ResolvedFacts(source, operations);
    var es := ResolveFrom(source, operations, 0).value;
    SameElements(SortByKey(es), es);
    SpliceKeepsTextPolicy(source, SortByKey(es), 0);
    OutputSizes(source, operations);
    AcceptedExactly(source, operations);
  }

  /** Bytes and lines are conserved: what was there, minus the replaced ranges, plus the contents. */
  lemma OutputSizes(source: Bytes, operations: seq<EditOperation>)
    requires ReferenceEdits(source, operations).Ok?
    ensures var output := ReferenceEdits(source, operations).value;
      var places := Places(source, operations);
      && Inside(source, places)
      && |output| == |source| - Removed(places) + Added(places)
      && LineCount(output) == CountLf(source) - RemovedLf(source, places) + AddedLf(places) + 1
  {
    AppliedSorted(source, operations);
    var es := ResolveFrom(source, operations, 0).value;
    var sorted := SortByKey(es);
    OnBoundariesInside(source, sorted);
    SplicedLength(source, sorted, 0);
    SplicedLf(source, sorted, 0);
    SumsIgnoreOrder(source, sorted, es);
    UnindexedSums(source, es);
    LineStartsExact(ReferenceEdits(source, operations).value);
    assert source[0..] == source;
  }

  /** Permuting a batch never changes whether it is accepted. */
  lemma AcceptanceIgnoresOrder(source: Bytes, a: seq<EditOperation>, b: seq<EditOperation>)
    requires multiset(a) == multiset(b)
    ensures ReferenceEdits(source, a).Ok? <==> ReferenceEdits(source, b).Ok?
  {
    AcceptedExactly(source, a);
    AcceptedExactly(source, b);
    if Accepted(source, a) {
      PermutedAccepted(source, a, b);
    }
    if Accepted(source, b) {
      PermutedAccepted(source, b, a);
    }
  }

  lemma PermutedAccepted(source: Bytes, a: seq<EditOperation>, b: seq<EditOperation>)
    requires multiset(a) == multiset(b) && Accepted(source, a)
    ensures Accepted(source, b)
  {
    SameElements(a, b);
    MapIgnoresOrder((operation: EditOperation) => Place(source, operation), a, b);
    CompatibleIgnoresOrder(Places(source, a), Places(source, b));
    ResolvedPlaces(source, a);
    ResolvedFacts(source, a);
    PlacesInside(source, a);
    SumsIgnoreOrder(source, Places(source, a), Places(source, b));
  }

  lemma PlacesInside(source: Bytes, operations: seq<EditOperation>)
    requires IsText(source) && forall operation :: operation in operations ==> Legal(source, operation)
    ensures Inside(source, Places(source, operations))
  {
    BoundariesAscend(source);
    forall e | e in Places(source, operations)
      ensures e.startByte <= e.endByte <= |source|
    {
      var i :| 0 <= i < |operations| && Places(source, operations)[i] == e;
      assert operations[i] in operations;
      ResolvedOnBoundaries(source, 0, operations[i]);
    }
  }

  /** A batch of one edit: nothing to sort, one splice. */
  lemma SingleEdit(source: Bytes, e: ValidatedEdit)
    requires e.startByte <= e.endByte <= |source| && (e.IsInsertion() ==> e.startByte == e.endByte)
    ensures SortByKey([e]) == [e] && FirstOverlap([e], 0, 1) == None
    ensures Removed([e]) == e.endByte - e.startByte && Added([e]) == |e.content|
    ensures Chain([e], 0, |source|)
    ensures CursorSplice(source, [e], 0) == source[..e.startByte] + e.content + source[e.endByte..]
  {
    var none: seq<ValidatedEdit> := [];
    assert [e][1..] == none;
    assert Removed(none) == 0 && Added(none) == 0;
    FirstOverlapDecides([e], 0, 1);
    assert SortByKey(none) == none && SortByKey([e]) == InsertByKey(e, none) == [e];
    assert CursorSplice(source, none, e.endByte) == source[e.endByte..];
  }

  lemma ResolvedAlone(text: Bytes, operations: seq<EditOperation>, e: ValidatedEdit)
    requires |operations| == 1 && ResolveOperation(text, 0, operations[0]) == Ok(e)
    ensures ResolveFrom(text, operations, 0) == Ok([e])
  {
    var rest := ResolveFrom(text, operations, 1);
    assert rest == Ok([]);
    assert [e] + rest.value == [e];
  }

  /** Replacing the first boundary through the terminal one replaces the whole file. */
  lemma WholeReplace(text: Bytes, content: Str)
    requires IsText(text) && IsText(content)
    ensures ReferenceEdits(text, [Replace(PositionOf(text, 0), PositionOf(text, LineCount(text)), content)])
      == Ok(content)
  {
    var start, end := PositionOf(text, 0), PositionOf(text, LineCount(text));
    var operations := [Replace(start, end, content)];
    PositionsBijective(text, start, 0);
    PositionsBijective(text, end, LineCount(text));
    LineStartsExact(text);
    var e := ValidatedEdit(0, 0, LineCount(text), 0, |text|, content);
    assert ResolveOperation(text, 0, operations[0]) == Ok(e);
    ResolvedAlone(text, operations, e);
    SingleEdit(text, e);
    assert text[..0] + content + text[|text|..] == content;
  }

  lemma {:induction false} NoNulReplacement(source: Bytes, operations: seq<EditOperation>, index: nat)
    requires index <= |operations| && forall operation :: operation in operations ==> Legal(source, operation)
    ensures FirstNulReplacement(operations, index).None?
    decreases |operations| - index
  {
    if index < |operations| {
      assert operations[index] in operations;
      NoNulReplacement(source, operations, index + 1);
    }
  }

  /** A request is served exactly when it names the snapshot and its batch is acceptable on it. */
  lemma VersionedExactly(source: Bytes, current: SnapshotId, request: EditRequest)
    ensures VersionedEdits(source, current, request).Ok? <==>
      request.snapshot == current && Accepted(source, request.edits)
  {
    AcceptedExactly(source, request.edits);
    if Accepted(source, request.edits) {
      NoNulReplacement(source, request.edits, 0);
    }
  }

  /** A corollary: every edit that is served can be undone by one request that names the snapshot it published. */
  lemma EveryEditUndone(contentId: Bytes -> SnapshotId, source: Str, request: EditRequest)
    requires VersionedEdits(source, contentId(source), request).Ok?
    ensures var output := VersionedEdits(source, contentId(source), request).value;
      && IsText(output)
      && var undo := Replace(PositionOf(output, 0), PositionOf(output, LineCount(output)), source);
         VersionedEdits(output, contentId(output), EditRequest(request.filePath, contentId(output), [undo])) ==
           Ok(source)
  {
    var output := VersionedEdits(source, contentId(source), request).value;
    OutputIsText(source, request.edits);
    WholeReplace(output, source);
    var undo := Replace(PositionOf(output, 0), PositionOf(output, LineCount(output)), source);
    AcceptedExactly(output, [undo]);
    VersionedExactly(output, contentId(output), EditRequest(request.filePath, contentId(output), [undo]));
  }

  /** A stale request never edits and never resolves a position: it conflicts, whatever its ranges say. */
  lemma StaleRequestConflicts(source: Bytes, current: SnapshotId, request: EditRequest)
    requires request.snapshot != current
    ensures VersionedEdits(source, current, request).Err?
    ensures ValidateRequest(request).Ok? && IsText(source) ==>
      && VersionedEdits(source, current, request).error.SnapshotConflict?
      && VersionedEdits(source, current, request).error.header ==
           SnapshotHeader(request.filePath, current, LineCount(source), |source|)
      && VersionedEdits(source, current, request).error.requested == request.snapshot
      && 1 <= |VersionedEdits(source, current, request).error.context| <= 5
  {
    if ValidateRequest(request).Ok? && IsText(source) {
      ContextIsBounded(source, request.edits[0].start.line);
    }
  }
}
