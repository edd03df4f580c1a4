/** What a caller is told when a request is not carried out: identities, headers and context as they are. */
module Answers {
  import opened Numbers
  import opened Text
  import opened Protocol
  import opened Acceptance
  import opened Read

  // ---------------------------------------------------------------- conflict payloads

  /** The header of a text: its path, identity, line count and byte count. */
  ghost predicate Describes(header: SnapshotHeader, path: Str, id: SnapshotId, text: Bytes) {
    header.path == path && header.snapshot == id && header.lines == CountLf(text) + 1 && header.bytes == |text|
  }

  /** Lines `first..=last` of the text as a read shows them. */
  ghost predicate ShowsLines(lines: seq<ContextLine>, text: Bytes, first: nat, last: nat) {
    && 1 <= first <= last <= CountLf(text) + 1 == |ContextLines(text, 1, LineCount(text))|
    && lines == ContextLines(text, 1, LineCount(text))[first - 1..last]
  }

  /** The line in question, brought into the file. */
  function Center(line: nat, count: nat): (center: nat)
    requires count >= 1
  {
    if line < 1 then 1 else if line > count then count else line
  }

  /** The lines within two of line `center`, as a read shows them. */
  ghost predicate ShowsAround(lines: seq<ContextLine>, text: Bytes, center: nat)
    requires 1 <= center <= CountLf(text) + 1
  {
    ShowsLines(lines, text, Max(1, center - 2), Min(CountLf(text) + 1, center + 2))
  }

  lemma {:induction false} WindowExactly(line: nat, count: nat)
    requires 1 <= count <= MAX_FILE_BYTES + 1
    ensures var center := Min(Max(line, 1), count);
      var end := Min(SaturatingAdd(center, 2), count);
      && center == Center(line, count) && end == Min(count, center + 2)
      && Max(Max(SaturatingSub(center, 2), 1), Max(SaturatingSub(end, 4), 1)) == Max(1, center - 2)
  {
  }

  lemma {:induction false} ContextLinesOf(text: Bytes, line: nat, center: nat)
    requires IsText(text) && center == Center(line, CountLf(text) + 1)
    ensures 1 <= center <= LineCount(text) == CountLf(text) + 1
    ensures ReferenceContext(text, line) ==
      Ok(ContextLines(text, Max(1, center - 2), Min(LineCount(text), center + 2)))
  {
    ValidateTextDecides(text);
    LineStartsExact(text);
    CountLfBound(text);
    WindowExactly(line, LineCount(text));
  }

  lemma {:induction false} PartShown(text: Bytes, center: nat)
    requires 1 <= center <= LineCount(text) == CountLf(text) + 1
    ensures ShowsAround(ContextLines(text, Max(1, center - 2), Min(LineCount(text), center + 2)), text, center)
  {
    ContextIsPart(text, Max(1, center - 2), Min(LineCount(text), center + 2));
  }

  /** The context of a conflict is the lines within two of the line in question, brought into the file. */
  lemma {:induction false} ContextExactly(text: Bytes, line: nat)
    requires IsText(text)
    ensures ReferenceContext(text, line).Ok?
    ensures ShowsAround(ReferenceContext(text, line).value, text, Center(line, CountLf(text) + 1))
  {
    var center := Center(line, CountLf(text) + 1);
    ContextLinesOf(text, line, center);
    PartShown(text, center);
  }

  lemma ConflictExactly(path: Str, requested: SnapshotId, id: SnapshotId, text: Bytes, line: nat)
    ensures match ConflictError(path, requested, id, text, line)
            case SnapshotConflict(named, header, context) =>
              IsText(text) && named == requested && Describes(header, path, id, text) &&
              ReferenceContext(text, line) == Ok(context)
            case Contract(error) => !IsText(text) && TextError(text, error)
            case _ => false
  {
    ValidateTextDecides(text);
    LineStartsExact(text);
    if IsText(text) {
      ContextExactly(text, line);
    }
  }

  // ---------------------------------------------------------------- edits

  lemma {:induction false} FirstNulFound(operations: seq<EditOperation>, from: nat, i: nat)
    requires from <= i < |operations| && NUL in operations[i].content
    requires forall k :: from <= k < i ==> NUL !in operations[k].content
    ensures FirstNul(operations[i].content).Some?
    ensures FirstNulReplacement(operations, from) == Some(NulReplacement(i, FirstNul(operations[i].content).value))
    decreases i - from
  {
    if from < i {
      FirstNulFound(operations, from + 1, i);
    }
  }

  lemma {:induction false} NoNulFound(operations: seq<EditOperation>, from: nat)
    requires from <= |operations| && forall k :: from <= k < |operations| ==> NUL !in operations[k].content
    ensures FirstNulReplacement(operations, from) == None
    decreases |operations| - from
  {
    if from < |operations| {
      NoNulFound(operations, from + 1);
    }
  }

  /** A batch of a legal size whose contents are all NUL-free. */
  ghost predicate WellFormedBatch(operations: seq<EditOperation>) {
    1 <= |operations| <= 1024 && forall k :: 0 <= k < |operations| ==> NUL !in operations[k].content
  }

  /**
   * A well-formed request for another snapshot conflicts, whatever its positions: it is told both identities, the
   * header of what is there, and the lines around its first position. For this snapshot the batch decides.
   */
  lemma EditAnswered(source: Bytes, current: SnapshotId, request: EditRequest)
    requires WellFormedBatch(request.edits) && IsText(source)
    ensures match VersionedEdits(source, current, request)
            case Ok(output) =>
              request.snapshot == current && ReferenceEdits(source, request.edits) == Ok(output)
            case Err(Contract(error)) =>
              request.snapshot == current && ReferenceEdits(source, request.edits) == Err(error)
            case Err(SnapshotConflict(requested, header, context)) =>
              && request.snapshot != current && requested == request.snapshot
              && Describes(header, request.filePath, current, source)
              && ReferenceContext(source, request.edits[0].start.line) == Ok(context)
            case _ => false
  {
    ValidateTextDecides(source);
    NoNulFound(request.edits, 0);
    ConflictExactly(request.filePath, request.snapshot, current, source, request.edits[0].start.line);
  }

  /** An edit that is not well-formed, or that meets no text, is refused for that, whatever snapshot it names. */
  lemma BadEditRefused(source: Bytes, current: SnapshotId, request: EditRequest, i: nat)
    requires request.edits != [] && |request.edits| <= 1024 ==>
      if i < |request.edits| then
        NUL in request.edits[i].content && forall k :: 0 <= k < i ==> NUL !in request.edits[k].content
      else
        WellFormedBatch(request.edits) && !IsText(source)
    ensures VersionedEdits(source, current, request).Err? && VersionedEdits(source, current, request).error.Contract?
    ensures var error, count := VersionedEdits(source, current, request).error.error, |request.edits|;
      if count == 0 then error == EmptyEditBatch
      else if count > 1024 then error == TooManyEdits(count)
      else if i < count then Reason(source, i, request.edits[i], error)
      else TextError(source, error)
  {
    if request.edits != [] && |request.edits| <= 1024 {
      if i < |request.edits| {
        FirstNulFound(request.edits, 0, i);
      } else {
        NoNulFound(request.edits, 0);
        ValidateTextDecides(source);
      }
    }
  }

  // ---------------------------------------------------------------- writes

  /**
   * A write of legal content creates what is missing and was to be absent, and replaces what it names. Otherwise it
   * is told what is there, that nothing is there, or why what is there is no text.
   */
  lemma WriteAnswered(current: Option<(Bytes, SnapshotId)>, request: WriteRequest)
    requires NUL !in request.content && |request.content| <= 0x7FFF_FFFF_FFFF_FFFF
    ensures match (request.expected, current)
            case (Absent, None) => ReferenceWrite(current, request) == Ok(true)
            case (Named(_), None) => ReferenceWrite(current, request) == Err(NotFound(request.filePath))
            case (Named(named), Some((bytes, id))) =>
              if named == id then ReferenceWrite(current, request) == Ok(false)
              else
                && ReferenceWrite(current, request).Err?
                && StaleWrite(ReferenceWrite(current, request).error, request.filePath, named, id, bytes)
            case (Absent, Some((bytes, id))) =>
              && ReferenceWrite(current, request).Err?
              && Occupied(ReferenceWrite(current, request).error, request.filePath, id, bytes)
  {
    if current.Some? {
      var (bytes, id) := current.value;
      ConflictExactly(request.filePath, id, id, bytes, 1);
      if request.expected.Named? {
        ConflictExactly(request.filePath, request.expected.snapshot, id, bytes, 1);
      }
    }
  }

  /** The write named a snapshot that is no longer there. */
  ghost predicate StaleWrite(error: ProtocolError, path: Str, named: SnapshotId, id: SnapshotId, bytes: Bytes) {
    if IsText(bytes) then
      && error.SnapshotConflict? && error.requested == named && Describes(error.header, path, id, bytes)
      && ReferenceContext(bytes, 1) == Ok(error.context)
    else
      error.Contract? && TextError(bytes, error.error)
  }

  /** The write was to create the file, which is there already. */
  ghost predicate Occupied(error: ProtocolError, path: Str, id: SnapshotId, bytes: Bytes) {
    if IsText(bytes) then
      && error.AlreadyExists? && Describes(error.existing, path, id, bytes)
      && ReferenceContext(bytes, 1) == Ok(error.existingContext)
    else
      error.Contract? && TextError(bytes, error.error)
  }

  /** Content that is no legal file text is refused for its first NUL or its size. */
  lemma BadWriteRefused(current: Option<(Bytes, SnapshotId)>, request: WriteRequest)
    requires NUL in request.content || |request.content| > 0x7FFF_FFFF_FFFF_FFFF
    ensures ReferenceWrite(current, request).Err? && ReferenceWrite(current, request).error.Contract?
    ensures var content, error := request.content, ReferenceWrite(current, request).error.error;
      if NUL in content then
        error.NulWriteContent? && error.at < |content| && content[error.at] == NUL && NUL !in content[..error.at]
      else
        error == FileTooLarge(Min(|content|, U64_MAX))
  {
    var first := FirstNul(request.content);
  }
}
