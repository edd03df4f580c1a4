/** The optimized apply engine: positions resolved on a snapshot's offsets, fallback to the reference model. */
module Engine {
  import opened Numbers
  import opened Text
  import opened Batch
  import opened Protocol
  import opened Snapshots

  /** A position as `(ordinal, byte)`, read off the materialized offsets. */
  method ResolveBoundary(snapshot: Snapshot, position: Position) returns (r: Option<(nat, nat)>)
    requires snapshot.Valid()
    modifies snapshot`offsets
    ensures snapshot.Valid()
    ensures r == match BoundaryOrdinal(snapshot.text, position)
                 case Ok(ordinal) => Some((ordinal, position.byte))
                 case Err(_) => None
  {
    LineStartsExact(snapshot.text);
    CountLfBound(snapshot.text);
    if position.line <= snapshot.lineCount {
      var start := snapshot.LineStart(position.line);
      if start.None? || start.value != position.byte {
        return None;
      }
      return Some((position.line - 1, position.byte));
    } else if CheckedAdd(snapshot.lineCount, 1) == Some(position.line) && position.byte == snapshot.byteLen {
      return Some((snapshot.lineCount, position.byte));
    } else {
      return None;
    }
  }

  method ResolveEdits(snapshot: Snapshot, edits: seq<EditOperation>) returns (r: Option<seq<ValidatedEdit>>)
    requires snapshot.Valid()
    modifies snapshot`offsets
    ensures snapshot.Valid()
    ensures r == match ResolveFrom(snapshot.text, edits, 0)
                 case Ok(es) => Some(es)
                 case Err(_) => None
  {
    var validated: seq<ValidatedEdit> := [];
    assert forall rest: seq<ValidatedEdit> :: validated + rest == rest;
    for index := 0 to |edits|
      invariant snapshot.Valid()
      invariant ResolveFrom(snapshot.text, edits, 0) ==
        match ResolveFrom(snapshot.text, edits, index)
        case Err(e) => Err(e)
        case Ok(rest) => Ok(validated + rest)
    {
      var operation := edits[index];
      if FirstNul(operation.content).Some? {
        return None;
      }
      var start := ResolveBoundary(snapshot, operation.start);
      if start.None? {
        return None;
      }
      var end := ResolveBoundary(snapshot, operation.end);
      if end.None? || start.value.0 > end.value.0 {
        return None;
      }
      var edit := ValidatedEdit(index, start.value.0, end.value.0, start.value.1, end.value.1, operation.content);
      assert forall rest :: validated + ([edit] + rest) == validated + [edit] + rest;
      validated := validated + [edit];
    }
    assert validated + [] == validated;
    return Some(validated);
  }

  /** The fast path answers exactly when the reference model accepts, and with its bytes. */
  method TryFast(snapshot: Snapshot, request: EditRequest) returns (r: Option<Bytes>)
    requires snapshot.Valid()
    modifies snapshot`offsets
    ensures snapshot.Valid()
    ensures r == match VersionedEdits(snapshot.text, snapshot.id, request)
                 case Ok(output) => Some(output)
                 case Err(_) => None
  {
    if ValidateRequest(request).Err? || request.snapshot != snapshot.id {
      return None;
    }
    var source := snapshot.text;
    var resolved := ResolveEdits(snapshot, request.edits);
    if resolved.None? {
      return None;
    }
    var validated := resolved.value;
    var overlap := FindOverlap(validated);
    if overlap.Some? {
      return None;
    }
    ResolvedFacts(source, request.edits);
    FirstOverlapDecides(validated, 0, 1);
    CheckedFinalLengthExact(source, validated);
    var finalLength := CheckedFinalLength(|source|, validated);
    if finalLength.None? || ValidateFileSize(finalLength.value).Err? {
      return None;
    }
    SortedBatch(source, validated);
    var output := SpliceSorted(source, SortByKey(validated));
    return Some(output);
  }

  /** The production engine refines the reference model: same bytes, same structured error. */
  method ApplyEditsFast(snapshot: Snapshot, request: EditRequest) returns (r: Result<Bytes, ProtocolError>)
    requires snapshot.Valid()
    modifies snapshot`offsets
    ensures snapshot.Valid()
    ensures r == VersionedEdits(snapshot.text, snapshot.id, request)
  {
    var applied := TryFast(snapshot, request);
    match applied {
      case Some(output) => r := Ok(output);
      case None => r := ApplyVersionedReferenceEdits(snapshot.text, snapshot.id, request);
    }
  }
}
