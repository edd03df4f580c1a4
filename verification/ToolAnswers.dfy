/** What the tools answer on whatever loading the path gave, in the terms of module Answers. */
module ToolAnswers {
  import opened Numbers
  import opened Text
  import opened Protocol
  import opened Acceptance
  import opened Answers
  import opened FileSystem
  import opened Cache
  import opened Tools

  /** A calm path loads as its text, as missing, or as the reason why its bytes are no text. */
  lemma LoadAnswered(fs: Fs)
    ensures match (LoadOf(fs), fs.View())
            case (Ok(content), view) => view == Some(content) && IsText(content)
            case (Err(Missing), view) => view == None
            case (Err(BadText(error)), Some(content)) => !IsText(content) && TextError(content, error)
            case _ => false
  {
    if fs.View().Some? {
      ValidateTextDecides(fs.View().value);
    }
  }

  /**
   * A well-formed edit is decided by the rules on what was loaded, or on the empty text if the path was missing. What
   * could not be loaded otherwise is reported as unreadable for the reason the load gave.
   */
  lemma EditOutcomeAnswered(
    contentId: Bytes -> SnapshotId, loaded: Result<Bytes, LoadError>, request: EditRequest)
    requires WellFormedBatch(request.edits)
    ensures match loaded
            case Err(e) =>
              if e == Missing then
                EditOutcome(contentId, loaded, request) == Rejecting(VersionedEdits([], contentId([]), request))
              else
                EditOutcome(contentId, loaded, request) == Err(Unreadable(e))
            case Ok(base) =>
              EditOutcome(contentId, loaded, request) == Rejecting(VersionedEdits(base, contentId(base), request))
  {
    NoNulFound(request.edits, 0);
  }

  /** An edit that is not well-formed is refused for that before anything is loaded. */
  lemma BadEditOutcome(
    contentId: Bytes -> SnapshotId, loaded: Result<Bytes, LoadError>, request: EditRequest, i: nat)
    requires request.edits != [] && |request.edits| <= 1024 ==>
      && i < |request.edits| && NUL in request.edits[i].content
      && forall k :: 0 <= k < i ==> NUL !in request.edits[k].content
    ensures var outcome, count := EditOutcome(contentId, loaded, request), |request.edits|;
      && outcome.Err? && outcome.error.Rejected? && outcome.error.error.Contract?
      && var error := outcome.error.error.error;
         if count == 0 then error == EmptyEditBatch
         else if count > 1024 then error == TooManyEdits(count)
         else Reason([], i, request.edits[i], error)
  {
    if request.edits != [] && |request.edits| <= 1024 {
      FirstNulFound(request.edits, 0, i);
    }
  }

  /** A write of legal content is decided by the rule on what was loaded, or on its absence. */
  lemma WriteOutcomeAnswered(
    contentId: Bytes -> SnapshotId, loaded: Result<Bytes, LoadError>, request: WriteRequest)
    requires NUL !in request.content && |request.content| <= 0x7FFF_FFFF_FFFF_FFFF
    ensures match loaded
            case Err(e) =>
              if e == Missing then WriteOutcome(contentId, loaded, request) == Rejecting(ReferenceWrite(None, request))
              else WriteOutcome(contentId, loaded, request) == Err(Unreadable(e))
            case Ok(base) =>
              WriteOutcome(contentId, loaded, request) ==
                Rejecting(ReferenceWrite(Some((base, contentId(base))), request))
  {
  }

  /** A create that lost its race is told what is there, that it has vanished again, or why it cannot be read. */
  lemma RaceAnswered(contentId: Bytes -> SnapshotId, found: Result<Bytes, LoadError>, request: WriteRequest)
    requires ReferenceWrite(None, request) == Ok(true)
    ensures match found
            case Err(e) => RaceReport(contentId, found, request) == if e == Missing then Vanished else Unreadable(e)
            case Ok(winner) =>
              && RaceReport(contentId, found, request).Rejected?
              && Occupied(RaceReport(contentId, found, request).error, request.filePath, contentId(winner), winner)
  {
    if found.Ok? {
      WriteAnswered(Some((found.value, contentId(found.value))), request);
    }
  }
}
