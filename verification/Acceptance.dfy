/** When a batch is accepted and why it is refused, in terms of the lines and positions of the request alone. */
module Acceptance {
  import opened Numbers
  import opened Text
  import opened Batch
  import opened Protocol
  import opened EditTheorems

  // ---------------------------------------------------------------- two edits

  /** The edit replaces the line with this ordinal. */
  predicate Takes(e: ValidatedEdit, line: nat) {
    e.startOrdinal <= line < e.endOrdinal
  }

  /** `e` inserts at a boundary strictly inside what `other` replaces. */
  predicate InsertsInside(e: ValidatedEdit, other: ValidatedEdit) {
    e.startOrdinal == e.endOrdinal && other.startOrdinal < e.startOrdinal < other.endOrdinal
  }

  /** Both replace one line, or one of them inserts inside what the other replaces. */
  ghost predicate Collide(a: ValidatedEdit, b: ValidatedEdit) {
    (exists line: nat :: Takes(a, line) && Takes(b, line)) || InsertsInside(a, b) || InsertsInside(b, a)
  }

  /** Two edits conflict exactly when they collide; edits that only touch do not. */
  lemma {:induction false} OverlapIsCollision(a: ValidatedEdit, b: ValidatedEdit)
    requires a.startOrdinal <= a.endOrdinal && b.startOrdinal <= b.endOrdinal
    ensures EditsOverlap(a, b) <==> Collide(a, b)
    ensures EditsOverlap(a, b) <==> !(a.endOrdinal <= b.startOrdinal || b.endOrdinal <= a.startOrdinal)
  {
    var line: nat := Max(a.startOrdinal, b.startOrdinal);
    if a.startOrdinal < a.endOrdinal && b.startOrdinal < b.endOrdinal && EditsOverlap(a, b) {
      assert Takes(a, line) && Takes(b, line);
    }
  }

  // ---------------------------------------------------------------- positions

  /** The position names the start of its line, or, one line past the last, the end of the text. */
  ghost predicate Names(text: Bytes, position: Position) {
    || (IsLineStart(text, position.byte) && CountLf(text[..position.byte]) == position.line - 1)
    || (position.byte == |text| && position.line == CountLf(text) + 2)
  }

  /** A position is valid exactly when it names a boundary, whose ordinal is then its line less one. */
  lemma {:induction false} ValidExactly(text: Bytes, position: Position)
    requires |text| <= MAX_FILE_BYTES
    ensures BoundaryOrdinal(text, position) ==
      if Names(text, position) then Ok(position.line - 1) else Err(InvalidPosition(position))
  {
    LineStartsExact(text);
    CountLfBound(text);
    var starts := LineStarts(text);
    if position.line <= |starts| {
      LfsBeforeStart(text, position.line - 1);
      assert starts[position.line - 1] in starts;
    }
    if IsLineStart(text, position.byte) {
      var k :| 0 <= k < |starts| && starts[k] == position.byte;
      LfsBeforeStart(text, k);
    }
  }

  /** NUL-free content between two boundaries in order, stated on the positions. */
  ghost predicate LegalOn(text: Bytes, operation: EditOperation) {
    && NulFree(operation.content) && Names(text, operation.start) && Names(text, operation.end)
    && operation.start.line <= operation.end.line
  }

  lemma {:induction false} LegalExactly(text: Bytes, operation: EditOperation)
    requires |text| <= MAX_FILE_BYTES
    ensures Legal(text, operation) <==> LegalOn(text, operation)
    ensures Legal(text, operation) ==>
      var start, end := operation.start, operation.end;
      Place(text, operation) ==
        ValidatedEdit(0, start.line - 1, end.line - 1, start.byte, end.byte, operation.content)
  {
    ValidExactly(text, operation.start);
    ValidExactly(text, operation.end);
  }

  // ---------------------------------------------------------------- a batch

  /** One operation ends at or before the line where the other starts. */
  predicate Apart(a: EditOperation, b: EditOperation) {
    a.end.line <= b.start.line || b.end.line <= a.start.line
  }

  ghost predicate AllApart(operations: seq<EditOperation>) {
    forall i, j :: 0 <= i < j < |operations| ==> Apart(operations[i], operations[j])
  }

  /** Bytes by which the batch makes the text longer. */
  function Growth(operations: seq<EditOperation>): int {
    if |operations| == 0 then 0
    else |operations[0].content| - (operations[0].end.byte - operations[0].start.byte) + Growth(operations[1..])
  }

  lemma {:induction false} GrowthOfPlaces(text: Bytes, operations: seq<EditOperation>)
    requires |text| <= MAX_FILE_BYTES && forall operation :: operation in operations ==> Legal(text, operation)
    ensures Growth(operations) == Added(Places(text, operations)) - Removed(Places(text, operations))
  {
    if |operations| > 0 {
      assert operations[0] in operations;
      LegalExactly(text, operations[0]);
      GrowthOfPlaces(text, operations[1..]);
      assert Places(text, operations)[1..] == Places(text, operations[1..]);
    }
  }

  lemma {:induction false} ApartExactly(text: Bytes, operations: seq<EditOperation>)
    requires |text| <= MAX_FILE_BYTES && forall operation :: operation in operations ==> Legal(text, operation)
    ensures PairwiseCompatible(Places(text, operations)) <==> AllApart(operations)
  {
    forall i, j | 0 <= i < j < |operations|
      ensures EditsOverlap(Places(text, operations)[i], Places(text, operations)[j]) <==>
        !Apart(operations[i], operations[j])
    {
      assert operations[i] in operations && operations[j] in operations;
      LegalExactly(text, operations[i]);
      LegalExactly(text, operations[j]);
      OverlapIsCollision(Place(text, operations[i]), Place(text, operations[j]));
    }
  }

  /**
   * A batch is accepted exactly when it has 1 to 1024 operations on legal text, each with NUL-free content between
   * two boundaries in order, any two of them at most touch, and the output fits.
   */
  lemma {:induction false} AcceptedInPositions(source: Bytes, operations: seq<EditOperation>)
    ensures ReferenceEdits(source, operations).Ok? <==>
      && 1 <= |operations| <= 1024
      && |source| <= 0x7FFF_FFFF_FFFF_FFFF && NUL !in source && ValidUtf8(source)
      && (forall operation :: operation in operations ==> LegalOn(source, operation))
      && AllApart(operations)
      && |source| + Growth(operations) <= 0x7FFF_FFFF_FFFF_FFFF
  {
    AcceptedExactly(source, operations);
    if IsText(source) {
      forall operation | operation in operations
        ensures Legal(source, operation) <==> LegalOn(source, operation)
      {
        LegalExactly(source, operation);
      }
      if forall operation :: operation in operations ==> Legal(source, operation) {
        ApartExactly(source, operations);
        GrowthOfPlaces(source, operations);
      }
    }
  }

  // ---------------------------------------------------------------- why it is refused

  /** The reason why one operation is not legal: its content first, then its positions, then their order. */
  ghost predicate Reason(text: Bytes, index: nat, operation: EditOperation, error: ContractError) {
    if !NulFree(operation.content) then
      && error.NulReplacement? && error.index == index && error.at < |operation.content|
      && operation.content[error.at] == NUL && NUL !in operation.content[..error.at]
    else if !Names(text, operation.start) then
      error == InvalidPosition(operation.start)
    else if !Names(text, operation.end) then
      error == InvalidPosition(operation.end)
    else
      operation.start.line > operation.end.line && error == ReversedRange(operation.start, operation.end)
  }

  lemma {:induction false} RefusedForReason(text: Bytes, index: nat, operation: EditOperation)
    requires |text| <= MAX_FILE_BYTES
    ensures match ResolveOperation(text, index, operation)
            case Ok(_) => LegalOn(text, operation)
            case Err(error) => !LegalOn(text, operation) && Reason(text, index, operation, error)
  {
    ValidExactly(text, operation.start);
    ValidExactly(text, operation.end);
  }

  lemma {:induction false} FirstErrorReported(text: Bytes, operations: seq<EditOperation>, from: nat, i: nat)
    requires |text| <= MAX_FILE_BYTES && from <= i < |operations| && !LegalOn(text, operations[i])
    requires forall k :: from <= k < i ==> LegalOn(text, operations[k])
    ensures ResolveFrom(text, operations, from).Err?
    ensures Reason(text, i, operations[i], ResolveFrom(text, operations, from).error)
    decreases i - from
  {
    RefusedForReason(text, from, operations[from]);
    if from < i {
      FirstErrorReported(text, operations, from + 1, i);
    }
  }

  /** The first illegal operation is the one reported, for its own reason. */
  lemma {:induction false} FirstIllegalReported(source: Bytes, operations: seq<EditOperation>, i: nat)
    requires IsText(source) && |operations| <= 1024 && i < |operations| && !LegalOn(source, operations[i])
    requires forall k :: 0 <= k < i ==> LegalOn(source, operations[k])
    ensures ReferenceEdits(source, operations).Err?
    ensures Reason(source, i, operations[i], ReferenceEdits(source, operations).error)
  {
    ValidateTextDecides(source);
    FirstErrorReported(source, operations, 0, i);
  }

  lemma {:induction false} AllLegal(text: Bytes, operations: seq<EditOperation>)
    requires IsText(text) && forall operation :: operation in operations ==> LegalOn(text, operation)
    ensures forall operation :: operation in operations ==> Legal(text, operation)
    ensures ResolveFrom(text, operations, 0).Ok? && |ResolveFrom(text, operations, 0).value| == |operations|
  {
    forall operation | operation in operations
      ensures Legal(text, operation)
    {
      LegalExactly(text, operation);
    }
    ResolvedPlaces(text, operations);
    ResolvedEach(text, operations, 0);
  }

  /** No pair of operations before this one does more than touch. */
  ghost predicate FirstOf(operations: seq<EditOperation>, i: nat, j: nat) {
    && i < j < |operations| && !Apart(operations[i], operations[j])
    && forall a, b :: 0 <= a < b < |operations| && (a < i || (a == i && b < j)) ==>
         Apart(operations[a], operations[b])
  }

  /** Among legal operations the first two that do more than touch are the ones reported. */
  lemma {:induction false} FirstCollisionReported(source: Bytes, operations: seq<EditOperation>, i: nat, j: nat)
    requires IsText(source) && |operations| <= 1024 && FirstOf(operations, i, j)
    requires forall operation :: operation in operations ==> LegalOn(source, operation)
    ensures ReferenceEdits(source, operations) == Err(OverlappingEdits(i, j))
  {
    ValidateTextDecides(source);
    AllLegal(source, operations);
    var es := ResolveFrom(source, operations, 0).value;
    EachResolved(source, operations, es);
    CollisionFound(source, operations, es, i, j);
  }

  /** The scan from `(left, right)` on reports the first pair that overlaps. */
  lemma {:induction false} ScanFinds(es: seq<ValidatedEdit>, left: nat, right: nat, i: nat, j: nat)
    requires left < right && i < j < |es| && (left < i || (left == i && right <= j)) && EditsOverlap(es[i], es[j])
    requires forall a, b :: 0 <= a < b < |es| && (a < i || (a == i && b < j)) ==> !EditsOverlap(es[a], es[b])
    ensures FirstOverlap(es, left, right) == Some((es[i].index, es[j].index))
    decreases |es| - left, |es| - right
  {
    if right >= |es| {
      ScanFinds(es, left + 1, left + 2, i, j);
    } else if (left, right) != (i, j) {
      ScanFinds(es, left, right + 1, i, j);
    }
  }

  ghost predicate ResolvesTo(text: Bytes, index: nat, operation: EditOperation, e: ValidatedEdit) {
    ResolveOperation(text, index, operation) == Ok(e)
  }

  /** The edits are the operations, resolved one by one. */
  ghost predicate Resolved(text: Bytes, operations: seq<EditOperation>, es: seq<ValidatedEdit>) {
    && |es| == |operations|
    && forall k: nat {:trigger ResolvesTo(text, k, operations[k], es[k])} :: k < |es| ==>
         ResolvesTo(text, k, operations[k], es[k])
  }

  lemma {:induction false} EachResolved(text: Bytes, operations: seq<EditOperation>, es: seq<ValidatedEdit>)
    requires ResolveFrom(text, operations, 0) == Ok(es)
    ensures Resolved(text, operations, es)
  {
    ResolvedEach(text, operations, 0);
    forall k: nat | k < |es|
      ensures ResolvesTo(text, k, operations[k], es[k])
    {
      assert Ok(es[k]) == ResolveOperation(text, 0 + k, operations[0 + k]);
    }
  }

  lemma {:induction false} ResolvedOverlap(
    text: Bytes, operations: seq<EditOperation>, es: seq<ValidatedEdit>, a: nat, b: nat)
    requires |text| <= MAX_FILE_BYTES && Resolved(text, operations, es) && a < b < |operations|
    ensures EditsOverlap(es[a], es[b]) <==> !Apart(operations[a], operations[b])
    ensures es[a].index == a && es[b].index == b
  {
    assert ResolvesTo(text, a, operations[a], es[a]) && ResolvesTo(text, b, operations[b], es[b]);
    ValidExactly(text, operations[a].start);
    ValidExactly(text, operations[a].end);
    ValidExactly(text, operations[b].start);
    ValidExactly(text, operations[b].end);
    OverlapIsCollision(es[a], es[b]);
  }

  lemma {:induction false} CollisionFound(
    text: Bytes, operations: seq<EditOperation>, es: seq<ValidatedEdit>, i: nat, j: nat)
    requires |text| <= MAX_FILE_BYTES && FirstOf(operations, i, j) && Resolved(text, operations, es)
    ensures FirstOverlap(es, 0, 1) == Some((i, j))
  {
    forall a, b | 0 <= a < b < |es| && (a < i || (a == i && b <= j))
      ensures EditsOverlap(es[a], es[b]) <==> !Apart(operations[a], operations[b])
    {
      ResolvedOverlap(text, operations, es, a, b);
    }
    ResolvedOverlap(text, operations, es, i, j);
    ScanFinds(es, 0, 1, i, j);
  }

  /** What is left is size: the contents or the output exceed a word, or the output exceeds the cap. */
  lemma {:induction false} OversizeReported(source: Bytes, operations: seq<EditOperation>)
    requires IsText(source) && 1 <= |operations| <= 1024 && AllApart(operations)
    requires forall operation :: operation in operations ==> LegalOn(source, operation)
    requires |source| + Growth(operations) > 0x7FFF_FFFF_FFFF_FFFF
    ensures var length := |source| + Growth(operations);
      ReferenceEdits(source, operations) ==
      if Added(Places(source, operations)) > U64_MAX || length > U64_MAX then Err(OutputLengthOverflow)
      else Err(FileTooLarge(length))
  {
    ValidateTextDecides(source);
    AllLegal(source, operations);
    ResolvedAccepted(source, operations);
    ApartExactly(source, operations);
    GrowthOfPlaces(source, operations);
    FirstOverlapDecides(ResolveFrom(source, operations, 0).value, 0, 1);
  }

  /** What is decided before any operation is looked at: their number, then the text. */
  lemma {:induction false} CheckedFirst(source: Bytes, operations: seq<EditOperation>)
    ensures |operations| == 0 ==> ReferenceEdits(source, operations) == Err(EmptyEditBatch)
    ensures |operations| > 1024 ==> ReferenceEdits(source, operations) == Err(TooManyEdits(|operations|))
    ensures 1 <= |operations| <= 1024 && !IsText(source) ==>
      match ReferenceEdits(source, operations)
      case Ok(_) => false
      case Err(error) => TextError(source, error)
  {
  }

  /** Why bytes are no text: their size first, then the first NUL, then how far they are valid UTF-8. */
  ghost predicate TextError(bytes: Bytes, error: ContractError) {
    if |bytes| > 0x7FFF_FFFF_FFFF_FFFF then
      error == FileTooLarge(Min(|bytes|, U64_MAX))
    else if NUL in bytes then
      error.NulFile? && error.at < |bytes| && bytes[error.at] == NUL && NUL !in bytes[..error.at]
    else
      error == InvalidUtf8(ValidUpTo(bytes)) && !ValidUtf8(bytes)
  }
}
