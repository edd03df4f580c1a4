/** The protocol's reference rules: positions, batches of replaces, conflicts, cursors and write decisions. */
module Protocol {
  import opened Numbers
  import opened Text
  import opened Batch

  type SnapshotId = u128

  const MAX_PAGE_LINES: nat := 2000
  const MAX_EDIT_OPERATIONS: nat := 1024
  const MAX_FILE_BYTES: nat := 0x7FFF_FFFF_FFFF_FFFF

  datatype Token = At(line: u64, byte: u64)

  /** A position token: the constructor of the source rejects line zero. */
  type Position = t: Token | 1 <= t.line witness At(1, 0)

  /** An owned string: exact bytes that are valid UTF-8 by type. */
  type Str = s: Bytes | ValidUtf8(s) witness []

  datatype EditOperation = Replace(start: Position, end: Position, content: Str)

  datatype EditRequest = EditRequest(filePath: Str, snapshot: SnapshotId, edits: seq<EditOperation>)

  datatype WriteExpect = Absent | Named(snapshot: SnapshotId)

  datatype WriteRequest = WriteRequest(filePath: Str, content: Str, expected: WriteExpect)

  datatype PageCursor = PageCursor(snapshot: SnapshotId, next: Position)

  datatype SnapshotHeader = SnapshotHeader(path: Str, snapshot: SnapshotId, lines: nat, bytes: nat)

  datatype ContextLine = ContextLine(line: nat, byte: nat, content: Bytes)

  datatype ContractError =
    | EmptyEditBatch
    | TooManyEdits(operations: nat)
    | NulReplacement(index: nat, at: nat)
    | NulWriteContent(at: nat)
    | NulFile(at: nat)
    | InvalidUtf8(validUpTo: nat)
    | FileTooLarge(bytes: nat)
    | InvalidPosition(position: Position)
    | ReversedRange(start: Position, end: Position)
    | OverlappingEdits(first: nat, second: nat)
    | OutputLengthOverflow
    | InvalidReadLimit(limit: nat)
    | ZeroStartLine
    | StartLineWithCursor

  datatype ProtocolError =
    | Contract(error: ContractError)
    | SnapshotConflict(requested: SnapshotId, header: SnapshotHeader, context: seq<ContextLine>)
    | AlreadyExists(existing: SnapshotHeader, existingContext: seq<ContextLine>)
    | NotFound(path: Str)

  // ---------------------------------------------------------------- text policy

  /** Index of the first NUL. */
  function FirstNul(s: Bytes): (r: Option<nat>)
    ensures r.None? <==> NulFree(s)
    ensures r.Some? ==> r.value < |s| && s[r.value] == NUL && NulFree(s[..r.value])
  {
    if |s| == 0 then
      None
    else if s[0] == NUL then
      Some(0)
    else
      match FirstNul(s[1..])
      case None => None
      case Some(i) =>
        assert s[..i + 1] == [s[0]] + s[1..][..i];
        Some(i + 1)
  }

  function ValidateFileSize(bytes: nat): Result<(), ContractError> {
    if bytes > MAX_FILE_BYTES then Err(FileTooLarge(Min(bytes, U64_MAX))) else Ok(())
  }

  function ValidateText(bytes: Bytes): Result<(), ContractError> {
    if ValidateFileSize(|bytes|).Err? then
      Err(ValidateFileSize(|bytes|).error)
    else
      match FirstNul(bytes)
      case Some(at) => Err(NulFile(at))
      case None => if ValidUtf8(bytes) then Ok(()) else Err(InvalidUtf8(ValidUpTo(bytes)))
  }

  /** Bytes that may enter a snapshot. */
  predicate IsText(bytes: Bytes) {
    |bytes| <= MAX_FILE_BYTES && NulFree(bytes) && ValidUtf8(bytes)
  }

  lemma ValidateTextDecides(bytes: Bytes)
    ensures ValidateText(bytes).Ok? <==> IsText(bytes)
  {
  }

  // ---------------------------------------------------------------- positions

  function LineCount(text: Bytes): nat {
    |LineStarts(text)|
  }

  /** Ordinal of the boundary a position names exactly: a line start, or the terminal boundary. */
  function BoundaryOrdinal(text: Bytes, position: Position): Result<nat, ContractError> {
    var starts := LineStarts(text);
    if position.line <= |starts| then
      if starts[position.line - 1] == position.byte then Ok(position.line - 1) else Err(InvalidPosition(position))
    else if position.line == SaturatingAdd(|starts|, 1) && position.byte == |text| then
      Ok(|starts|)
    else
      Err(InvalidPosition(position))
  }

  /** The position that names boundary `ordinal`. */
  function PositionOf(text: Bytes, ordinal: nat): Position
    requires |text| <= MAX_FILE_BYTES && ordinal <= LineCount(text)
  {
    BoundariesAscend(text);
    LineStartsExact(text);
    CountLfBound(text);
    At(ordinal + 1, Boundaries(text)[ordinal])
  }

  /** Valid positions and ordinals `0..=line_count` are in bijection, and ordinals ascend with bytes. */
  lemma PositionsBijective(text: Bytes, position: Position, ordinal: nat)
    requires |text| <= MAX_FILE_BYTES
    ensures ordinal <= LineCount(text) ==> BoundaryOrdinal(text, PositionOf(text, ordinal)) == Ok(ordinal)
    ensures match BoundaryOrdinal(text, position)
            case Ok(k) => k <= LineCount(text) && PositionOf(text, k) == position
            case Err(e) => e == InvalidPosition(position) &&
                           forall k: nat :: k <= LineCount(text) ==> PositionOf(text, k) != position
  {
    LineStartsExact(text);
    CountLfBound(text);
    forall k: nat | BoundaryOrdinal(text, position).Err? && k <= LineCount(text)
      ensures PositionOf(text, k) != position
    {
    }
  }

  // ---------------------------------------------------------------- the reference batch rules

  /** One operation resolved against the text, or its first error in checking order. */
  function ResolveOperation(text: Bytes, index: nat, operation: EditOperation): Result<ValidatedEdit, ContractError> {
    match FirstNul(operation.content)
    case Some(at) => Err(NulReplacement(index, at))
    case None =>
      match BoundaryOrdinal(text, operation.start)
      case Err(e) => Err(e)
      case Ok(startOrdinal) =>
        match BoundaryOrdinal(text, operation.end)
        case Err(e) => Err(e)
        case Ok(endOrdinal) =>
          if startOrdinal > endOrdinal then
            Err(ReversedRange(operation.start, operation.end))
          else
            Ok(ValidatedEdit(
              index, startOrdinal, endOrdinal, operation.start.byte, operation.end.byte, operation.content))
  }

  /** All operations from `index` on, or the first error in request order. */
  function ResolveFrom(text: Bytes, operations: seq<EditOperation>, index: nat)
    : Result<seq<ValidatedEdit>, ContractError>
    requires index <= |operations|
    decreases |operations| - index
  {
    if index == |operations| then
      Ok([])
    else
      match ResolveOperation(text, index, operations[index])
      case Err(e) => Err(e)
      case Ok(edit) =>
        match ResolveFrom(text, operations, index + 1)
        case Err(e) => Err(e)
        case Ok(rest) => Ok([edit] + rest)
  }

  lemma {:induction false} ResolvedEach(text: Bytes, operations: seq<EditOperation>, index: nat)
    requires index <= |operations|
    ensures ResolveFrom(text, operations, index).Ok? <==>
      forall i :: index <= i < |operations| ==> ResolveOperation(text, i, operations[i]).Ok?
    ensures ResolveFrom(text, operations, index).Ok? ==>
      var es := ResolveFrom(text, operations, index).value;
      && |es| == |operations| - index
      && forall i :: 0 <= i < |es| ==> Ok(es[i]) == ResolveOperation(text, index + i, operations[index + i])
    decreases |operations| - index
  {
    if index < |operations| {
      ResolvedEach(text, operations, index + 1);
    }
  }

  /** First overlapping pair in lexicographic order from `(left, right)` on. */
  function FirstOverlap(es: seq<ValidatedEdit>, left: nat, right: nat): Option<(nat, nat)>
    requires left < right
    decreases |es| - left, |es| - right
  {
    if left >= |es| then None
    else if right >= |es| then FirstOverlap(es, left + 1, left + 2)
    else if EditsOverlap(es[left], es[right]) then Some((es[left].index, es[right].index))
    else FirstOverlap(es, left, right + 1)
  }

  lemma {:induction false} FirstOverlapDecides(es: seq<ValidatedEdit>, left: nat, right: nat)
    requires left < right
    ensures FirstOverlap(es, left, right).None? <==>
      forall i, j :: 0 <= i < j < |es| && (i > left || (i == left && j >= right)) ==> !EditsOverlap(es[i], es[j])
    decreases |es| - left, |es| - right
  {
    if left >= |es| {
    } else if right >= |es| {
      FirstOverlapDecides(es, left + 1, left + 2);
    } else if !EditsOverlap(es[left], es[right]) {
      FirstOverlapDecides(es, left, right + 1);
    }
  }

  /** The operations at `i` and `j` overlap, and no pair before them in lexicographic order does. */
  ghost predicate FirstPair(es: seq<ValidatedEdit>, left: nat, right: nat, i: nat, j: nat) {
    && i < j < |es| && EditsOverlap(es[i], es[j])
    && forall a, b :: 0 <= a < b < |es| && (a > left || (a == left && b >= right)) && (a < i || (a == i && b < j)) ==>
         !EditsOverlap(es[a], es[b])
  }

  /** A reported pair is the first one from `(left, right)` on. */
  lemma {:induction false} FirstOverlapIsFirst(es: seq<ValidatedEdit>, left: nat, right: nat) returns (i: nat, j: nat)
    requires left < right && FirstOverlap(es, left, right).Some?
    ensures i > left || (i == left && j >= right)
    ensures FirstPair(es, left, right, i, j)
    ensures FirstOverlap(es, left, right) == Some((es[i].index, es[j].index))
    decreases |es| - left, |es| - right
  {
    if right >= |es| {
      i, j := FirstOverlapIsFirst(es, left + 1, left + 2);
    } else if EditsOverlap(es[left], es[right]) {
      i, j := left, right;
    } else {
      i, j := FirstOverlapIsFirst(es, left, right + 1);
    }
  }

  function ValidateEditCount(count: nat): Result<(), ContractError> {
    if count == 0 then Err(EmptyEditBatch)
    else if count > MAX_EDIT_OPERATIONS then Err(TooManyEdits(count))
    else Ok(())
  }

  lemma ResolvedOnBoundaries(text: Bytes, index: nat, operation: EditOperation)
    requires ResolveOperation(text, index, operation).Ok? && |text| <= MAX_FILE_BYTES
    ensures var e := ResolveOperation(text, index, operation).value;
      OnBoundaries(text, e) && e.index == index && ValidUtf8(e.content) && NulFree(e.content)
  {
    LineStartsExact(text);
    CountLfBound(text);
  }

  /** Resolved edits lie on boundaries, carry their request index and legal content. */
  lemma ResolvedFacts(text: Bytes, operations: seq<EditOperation>)
    requires ResolveFrom(text, operations, 0).Ok? && |text| <= MAX_FILE_BYTES
    ensures var es := ResolveFrom(text, operations, 0).value;
      && |es| == |operations|
      && AllOnBoundaries(text, es) && DistinctIndices(es)
      && (forall e :: e in es ==> ValidUtf8(e.content) && NulFree(e.content))
  {
    ResolvedEach(text, operations, 0);
    var es := ResolveFrom(text, operations, 0).value;
    forall i | 0 <= i < |es|
      ensures OnBoundaries(text, es[i]) && es[i].index == i
      ensures ValidUtf8(es[i].content) && NulFree(es[i].content)
    {
      assert Ok(es[i]) == ResolveOperation(text, 0 + i, operations[0 + i]);
      ResolvedOnBoundaries(text, i, operations[i]);
    }
  }

  /** Result of a batch: its first error, or its replaces done one by one from the highest key down. */
  ghost function ReferenceEdits(source: Bytes, operations: seq<EditOperation>): Result<Bytes, ContractError> {
    match ValidateEditCount(|operations|)
    case Err(e) => Err(e)
    case Ok(_) =>
      match ValidateText(source)
      case Err(e) => Err(e)
      case Ok(_) =>
        match ResolveFrom(source, operations, 0)
        case Err(e) => Err(e)
        case Ok(es) =>
          match FirstOverlap(es, 0, 1)
          case Some(pair) => Err(OverlappingEdits(pair.0, pair.1))
          case None =>
            ResolvedFacts(source, operations);
            FirstOverlapDecides(es, 0, 1);
            SortedBatch(source, es);
            RemovedFits(source, es);
            var finalLength := |source| - Removed(es) + Added(es);
            if Added(es) > U64_MAX || finalLength > U64_MAX then
              Err(OutputLengthOverflow)
            else if finalLength > MAX_FILE_BYTES then
              Err(FileTooLarge(finalLength))
            else
              Ok(ApplyDescending(source, SortByKey(es)))
  }

  /** `try_fold` with `checked_add` over per-edit sizes. */
  function CheckedTotal(es: seq<ValidatedEdit>, size: ValidatedEdit -> int, total: nat): Option<nat> {
    if |es| == 0 then
      Some(total)
    else if size(es[0]) < 0 || total + size(es[0]) > U64_MAX then
      None
    else
      CheckedTotal(es[1..], size, total + size(es[0]))
  }

  const REMOVED_SIZE: ValidatedEdit -> int := (e: ValidatedEdit) => e.endByte - e.startByte
  const ADDED_SIZE: ValidatedEdit -> int := (e: ValidatedEdit) => |e.content|

  lemma {:induction false} CheckedTotals(es: seq<ValidatedEdit>, total: nat)
    requires total <= U64_MAX
    requires forall e :: e in es ==> e.startByte <= e.endByte
    ensures Removed(es) >= 0
    ensures CheckedTotal(es, REMOVED_SIZE, total) ==
      if total + Removed(es) <= U64_MAX then Some(total + Removed(es)) else None
    ensures CheckedTotal(es, ADDED_SIZE, total) ==
      if total + Added(es) <= U64_MAX then Some(total + Added(es)) else None
  {
    if |es| != 0 {
      assert es[0] in es;
      assert forall e :: e in es[1..] ==> e in es;
      CheckedTotals(es[1..], 0);
      if total + REMOVED_SIZE(es[0]) <= U64_MAX {
        CheckedTotals(es[1..], total + REMOVED_SIZE(es[0]));
      }
      if total + ADDED_SIZE(es[0]) <= U64_MAX {
        CheckedTotals(es[1..], total + ADDED_SIZE(es[0]));
      }
    }
  }

  /** `source.len() - removed + added`, every step checked. */
  function CheckedFinalLength(sourceLength: nat, es: seq<ValidatedEdit>): Option<nat> {
    match (CheckedTotal(es, REMOVED_SIZE, 0), CheckedTotal(es, ADDED_SIZE, 0))
    case (Some(removed), Some(added)) =>
      if removed > sourceLength then None else CheckedAdd(sourceLength - removed, added)
    case _ => None
  }

  /** The checked arithmetic fails only when the added bytes alone, or the final length, exceed a word. */
  lemma CheckedFinalLengthExact(source: Bytes, es: seq<ValidatedEdit>)
    requires |source| <= MAX_FILE_BYTES
    requires AllOnBoundaries(source, es) && DistinctIndices(es) && PairwiseCompatible(es)
    ensures 0 <= Removed(es) <= |source|
    ensures var finalLength := |source| - Removed(es) + Added(es);
      CheckedFinalLength(|source|, es) ==
      if Added(es) > U64_MAX || finalLength > U64_MAX then None else Some(finalLength)
  {
    RemovedFits(source, es);
    CheckedTotals(es, 0);
  }

  /** The pairwise overlap scan of the source: nothing if no two edits overlap, otherwise the first pair that does. */
  method FindOverlap(es: seq<ValidatedEdit>) returns (r: Option<(nat, nat)>)
    ensures r == FirstOverlap(es, 0, 1)
    ensures r.None? <==> forall i, j :: 0 <= i < j < |es| ==> !EditsOverlap(es[i], es[j])
    ensures r.Some? ==> exists i: nat, j: nat :: FirstPair(es, 0, 1, i, j) && r.value == (es[i].index, es[j].index)
  {
    FirstOverlapDecides(es, 0, 1);
    if FirstOverlap(es, 0, 1).Some? {
      ghost var i, j := FirstOverlapIsFirst(es, 0, 1);
    }
    for left := 0 to |es|
      invariant FirstOverlap(es, 0, 1) == FirstOverlap(es, left, left + 1)
    {
      for right := left + 1 to |es|
        invariant FirstOverlap(es, 0, 1) == FirstOverlap(es, left, right)
      {
        if EditsOverlap(es[left], es[right]) {
          return Some((es[left].index, es[right].index));
        }
      }
    }
    return None;
  }

  lemma Regroup(before: Bytes, copied: Bytes, content: Bytes, rest: Bytes)
    ensures before + (copied + content + rest) == before + copied + content + rest
  {
  }

  /** The single output pass: copy up to each start, append the content, move the cursor. */
  method SpliceSorted(source: Bytes, sorted: seq<ValidatedEdit>) returns (output: Bytes)
    requires Chain(sorted, 0, |source|)
    ensures output == ApplyDescending(source, sorted)
  {
    output := [];
    var cursor: nat := 0;
    ghost var pending := sorted;
    for k := 0 to |sorted|
      invariant pending == sorted[k..]
      invariant Chain(pending, cursor, |source|)
      invariant output + CursorSplice(source, pending, cursor) == ApplyDescending(source, sorted)
    {
      var operation := sorted[k];
      assert pending[0] == operation && pending[1..] == sorted[k + 1..];
      ChainBounds(pending[1..], operation.endByte, |source|);
      Regroup(output, source[cursor..operation.startByte], operation.content,
        CursorSplice(source, pending[1..], operation.endByte));
      pending := pending[1..];
      if operation.startByte > cursor {
        output := output + source[cursor..operation.startByte];
        cursor := operation.startByte;
      } else {
        assert output + source[cursor..operation.startByte] == output;
      }
      output := output + operation.content;
      if !operation.IsInsertion() {
        cursor := operation.endByte;
      }
    }
    ChainBounds(pending, cursor, |source|);
    output := output + source[cursor..];
  }

  /** The validation loop: every operation in request order, stopping at the first error. */
  method ResolveAll(text: Bytes, operations: seq<EditOperation>)
    returns (r: Result<seq<ValidatedEdit>, ContractError>)
    ensures r == ResolveFrom(text, operations, 0)
  {
    var validated: seq<ValidatedEdit> := [];
    assert forall rest: seq<ValidatedEdit> :: validated + rest == rest;
    for index := 0 to |operations|
      invariant ResolveFrom(text, operations, 0) ==
        match ResolveFrom(text, operations, index)
        case Err(e) => Err(e)
        case Ok(rest) => Ok(validated + rest)
    {
      match ResolveOperation(text, index, operations[index]) {
        case Err(e) => return Err(e);
        case Ok(edit) =>
          assert forall rest :: validated + ([edit] + rest) == validated + [edit] + rest;
          validated := validated + [edit];
      }
    }
    assert validated + [] == validated;
    return Ok(validated);
  }

  /** The reference model of the source. */
  method ApplyReferenceEdits(source: Bytes, operations: seq<EditOperation>)
    returns (r: Result<Bytes, ContractError>)
    ensures r == ReferenceEdits(source, operations)
  {
    var count := ValidateEditCount(|operations|);
    if count.Err? {
      return Err(count.error);
    }
    var text := ValidateText(source);
    if text.Err? {
      return Err(text.error);
    }
    var resolved := ResolveAll(source, operations);
    if resolved.Err? {
      return Err(resolved.error);
    }
    var validated := resolved.value;
    var overlap := FindOverlap(validated);
    if overlap.Some? {
      return Err(OverlappingEdits(overlap.value.0, overlap.value.1));
    }
    ResolvedFacts(source, operations);
    FirstOverlapDecides(validated, 0, 1);
    CheckedFinalLengthExact(source, validated);
    var finalLength := CheckedFinalLength(|source|, validated);
    if finalLength.None? {
      return Err(OutputLengthOverflow);
    }
    var size := ValidateFileSize(finalLength.value);
    if size.Err? {
      return Err(size.error);
    }
    SortedBatch(source, validated);
    var output := SpliceSorted(source, SortByKey(validated));
    return Ok(output);
  }

  // ---------------------------------------------------------------- conflicts

  /** End of the displayed part of a line: one LF and one CR before it are terminator bytes. */
  function DisplayEnd(text: Bytes, start: nat, end: nat): (r: nat)
    requires start <= end <= |text|
    ensures start <= r <= end
  {
    if end > start && text[end - 1] == LF then
      if end - 1 > start && text[end - 2] == CR then end - 2 else end - 1
    else
      end
  }

  function ReferenceHeader(path: Str, snapshot: SnapshotId, bytes: Bytes): Result<SnapshotHeader, ContractError> {
    match ValidateText(bytes)
    case Err(e) => Err(e)
    case Ok(_) => Ok(SnapshotHeader(path, snapshot, LineCount(bytes), |bytes|))
  }

  /** Lines `line..=last`, each with its start and displayed content. */
  function ContextLines(text: Bytes, line: nat, last: nat): seq<ContextLine>
    requires 1 <= line && last <= LineCount(text)
    decreases last + 1 - line
  {
    if line > last then
      []
    else
      BoundariesAscend(text);
      var start, end := Boundaries(text)[line - 1], Boundaries(text)[line];
      [ContextLine(line, start, text[start..DisplayEnd(text, start, end)])] + ContextLines(text, line + 1, last)
  }

  function ReferenceContext(bytes: Bytes, centerLine: nat): Result<seq<ContextLine>, ContractError> {
    match ValidateText(bytes)
    case Err(e) => Err(e)
    case Ok(_) =>
      var lineCount := LineCount(bytes);
      LineStartsExact(bytes);
      var center := Min(Max(centerLine, 1), lineCount);
      var end := Min(SaturatingAdd(center, 2), lineCount);
      var start := Max(Max(SaturatingSub(center, 2), 1), Max(SaturatingSub(end, 4), 1));
      Ok(ContextLines(bytes, start, end))
  }

  lemma {:induction false} ContextLinesLength(text: Bytes, line: nat, last: nat)
    requires 1 <= line <= last + 1 && last <= LineCount(text)
    ensures |ContextLines(text, line, last)| == last + 1 - line
    ensures forall i :: 0 <= i <= last - line ==> ContextLines(text, line, last)[i].line == line + i
    decreases last + 1 - line
  {
    if line <= last {
      ContextLinesLength(text, line + 1, last);
    }
  }

  /** At most five lines, so the cap on conflict payloads is never hit; the clamped center is among them. */
  lemma ContextIsBounded(bytes: Bytes, centerLine: nat)
    requires ReferenceContext(bytes, centerLine).Ok?
    ensures var context := ReferenceContext(bytes, centerLine).value;
      && 1 <= |context| <= 5
      && exists c :: c in context && c.line == Min(Max(centerLine, 1), LineCount(bytes))
  {
    LineStartsExact(bytes);
    var lineCount := LineCount(bytes);
    var center := Min(Max(centerLine, 1), lineCount);
    var end := Min(SaturatingAdd(center, 2), lineCount);
    CountLfBound(bytes);
    var start := Max(Max(SaturatingSub(center, 2), 1), Max(SaturatingSub(end, 4), 1));
    ContextLinesLength(bytes, start, end);
    assert ReferenceContext(bytes, centerLine).value[center - start].line == center;
  }

  function ConflictError(path: Str, requested: SnapshotId, current: SnapshotId, bytes: Bytes, centerLine: nat)
    : ProtocolError
  {
    match ReferenceHeader(path, current, bytes)
    case Err(e) => Contract(e)
    case Ok(header) =>
      match ReferenceContext(bytes, centerLine)
      case Err(e) => Contract(e)
      case Ok(context) => SnapshotConflict(requested, header, context)
  }

  function FirstNulReplacement(operations: seq<EditOperation>, index: nat): Option<ContractError>
    requires index <= |operations|
    decreases |operations| - index
  {
    if index == |operations| then
      None
    else
      match FirstNul(operations[index].content)
      case Some(at) => Some(NulReplacement(index, at))
      case None => FirstNulReplacement(operations, index + 1)
  }

  function ValidateRequest(request: EditRequest): Result<(), ContractError> {
    match ValidateEditCount(|request.edits|)
    case Err(e) => Err(e)
    case Ok(_) =>
      match FirstNulReplacement(request.edits, 0)
      case Some(e) => Err(e)
      case None => Ok(())
  }

  /** A batch decided against one named snapshot: identity first, positions after. */
  ghost function VersionedEdits(source: Bytes, current: SnapshotId, request: EditRequest)
    : Result<Bytes, ProtocolError>
  {
    match ValidateRequest(request)
    case Err(e) => Err(Contract(e))
    case Ok(_) =>
      match ReferenceHeader(request.filePath, current, source)
      case Err(e) => Err(Contract(e))
      case Ok(_) =>
        if request.snapshot != current then
          Err(ConflictError(request.filePath, request.snapshot, current, source, request.edits[0].start.line))
        else
          match ReferenceEdits(source, request.edits)
          case Err(e) => Err(Contract(e))
          case Ok(output) => Ok(output)
  }

  method ApplyVersionedReferenceEdits(source: Bytes, current: SnapshotId, request: EditRequest)
    returns (r: Result<Bytes, ProtocolError>)
    ensures r == VersionedEdits(source, current, request)
  {
    var valid := ValidateRequest(request);
    if valid.Err? {
      return Err(Contract(valid.error));
    }
    var header := ReferenceHeader(request.filePath, current, source);
    if header.Err? {
      return Err(Contract(header.error));
    }
    if request.snapshot != current {
      return Err(ConflictError(request.filePath, request.snapshot, current, source, request.edits[0].start.line));
    }
    var applied := ApplyReferenceEdits(source, request.edits);
    match applied {
      case Err(e) => return Err(Contract(e));
      case Ok(output) => return Ok(output);
    }
  }

  // ---------------------------------------------------------------- cursors and writes

  function ReferenceCursor(path: Str, source: Bytes, current: SnapshotId, cursor: PageCursor)
    : Result<Position, ProtocolError>
  {
    match ReferenceHeader(path, current, source)
    case Err(e) => Err(Contract(e))
    case Ok(_) =>
      if cursor.snapshot != current then
        Err(ConflictError(path, cursor.snapshot, current, source, cursor.next.line))
      else
        match BoundaryOrdinal(source, cursor.next)
        case Err(e) => Err(Contract(e))
        case Ok(_) => Ok(cursor.next)
  }

  function ValidateWriteRequest(request: WriteRequest): Result<(), ContractError> {
    match FirstNul(request.content)
    case Some(at) => Err(NulWriteContent(at))
    case None => ValidateFileSize(|request.content|)
  }

  /** Whether a write creates its destination, decided on freshly read state. */
  function ReferenceWrite(current: Option<(Bytes, SnapshotId)>, request: WriteRequest): Result<bool, ProtocolError> {
    match ValidateWriteRequest(request)
    case Err(e) => Err(Contract(e))
    case Ok(_) =>
      match (request.expected, current)
      case (Absent, None) => Ok(true)
      case (Absent, Some((bytes, snapshot))) =>
        (match ConflictError(request.filePath, snapshot, snapshot, bytes, 1)
         case SnapshotConflict(_, header, context) => Err(AlreadyExists(header, context))
         case other => Err(other))
      case (Named(_), None) => Err(NotFound(request.filePath))
      case (Named(requested), Some((bytes, snapshot))) =>
        if requested != snapshot then
          Err(ConflictError(request.filePath, requested, snapshot, bytes, 1))
        else
          Ok(false)
  }
}
