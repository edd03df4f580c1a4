/** The edit and write tools as decision rules of the pipeline, and what a run means for their callers. */
module Requests {
  import opened Numbers
  import opened Text
  import opened Protocol
  import opened EditTheorems
  import opened FileSystem
  import opened Pipeline
  import opened PipelineTheorems

  datatype Request = Edit(edit: EditRequest) | Write(write: WriteRequest)

  /** What a request comes to on freshly loaded bytes, or on a missing file. */
  ghost function DecideRequest(contentId: Bytes -> SnapshotId, request: Request, loaded: Option<Bytes>): Verdict {
    match (request, loaded)
    case (Edit(edit), Some(bytes)) =>
      (match VersionedEdits(bytes, contentId(bytes), edit)
       case Ok(content) => Replacing(content)
       case Err(_) => Refused)
    case (Edit(edit), None) =>
      (match VersionedEdits([], contentId([]), edit)
       case Ok(content) => Putting(content)
       case Err(_) => Refused)
    case (Write(write), Some(bytes)) =>
      if ValidateText(bytes).Err? then Refused else
      (match ReferenceWrite(Some((bytes, contentId(bytes))), write)
       case Ok(created) => if created then Creating(write.content) else Replacing(write.content)
       case Err(_) => Refused)
    case (Write(write), None) =>
      (match ReferenceWrite(None, write)
       case Ok(created) => if created then Creating(write.content) else Replacing(write.content)
       case Err(_) => Refused)
  }

  ghost predicate Serves(cfg: Config, requests: map<ThreadId, Request>) {
    forall t, loaded :: t in requests ==> cfg.decide(t, loaded) == DecideRequest(cfg.contentId, requests[t], loaded)
  }

  /** The snapshot a request is bound to, if it names one. */
  function NamedSnapshot(request: Request): Option<SnapshotId> {
    match request
    case Edit(edit) => Some(edit.snapshot)
    case Write(write) => if write.expected.Named? then Some(write.expected.snapshot) else None
  }

  /** What the request asks for, applied to the bytes it names. */
  ghost function Intended(contentId: Bytes -> SnapshotId, request: Request, base: Bytes): Result<Bytes, ProtocolError> {
    match request
    case Edit(edit) => VersionedEdits(base, contentId(base), edit)
    case Write(write) => Ok(write.content)
  }

  /** A replacement is only decided on bytes whose identity is the named snapshot. */
  lemma ReplacingNamesItsBase(contentId: Bytes -> SnapshotId, request: Request, base: Bytes)
    requires DecideRequest(contentId, request, Some(base)).Replacing?
    ensures NamedSnapshot(request) == Some(contentId(base)) && IsText(base)
    ensures Intended(contentId, request, base) == Ok(DecideRequest(contentId, request, Some(base)).content)
    ensures IsText(DecideRequest(contentId, request, Some(base)).content)
  {
    ValidateTextDecides(base);
    if request.Edit? {
      if request.edit.snapshot != contentId(base) {
        StaleRequestConflicts(base, contentId(base), request.edit);
      }
      OutputIsText(base, request.edit.edits);
    }
  }

  /**
   * No update is lost: every replacement by an edit or a versioned write swapped out bytes whose identity
   * is exactly the snapshot the request named, and swapped in what the request asks of those bytes.
   */
  lemma NoLostUpdate(
    cfg: Config, requests: map<ThreadId, Request>, start: State, actions: seq<Action>, i: nat)
    requires Serves(cfg, requests) && start.threads.Keys == requests.Keys
    requires Sound(cfg.timing) && Init(cfg, start) && Run(cfg, start, actions).Some?
    requires i < |Run(cfg, start, actions).value.log| && Run(cfg, start, actions).value.log[i].Swapped?
    ensures var event := Run(cfg, start, actions).value.log[i];
      && event.thread in requests
      && Replay(cfg.contentId, start.fs.View(), Run(cfg, start, actions).value.log[..i]) == Some(Some(event.base))
      && NamedSnapshot(requests[event.thread]) == Some(cfg.contentId(event.base))
      && Intended(cfg.contentId, requests[event.thread], event.base) == Ok(event.content)
      && IsText(event.content)
  {
    ReplacementSwapsItsBase(cfg, start, actions, i);
    ThreadsKept(cfg, start, actions);
    InitInv(cfg, start);
    RunInv(cfg, start.fs.View(), start, actions);
    var event := Run(cfg, start, actions).value.log[i];
    assert event in Run(cfg, start, actions).value.log;
    ReplacingNamesItsBase(cfg.contentId, requests[event.thread], event.base);
  }

  /** What the published response says: identity, byte count and line count of the persisted bytes. */
  datatype Published = Published(snapshot: SnapshotId, bytes: nat, lines: nat)

  function Publish(contentId: Bytes -> SnapshotId, content: Bytes): Published {
    Published(contentId(content), |content|, LineCount(content))
  }

  /** The response names the bytes: their identity, their number and their lines. */
  ghost predicate Names(published: Published, contentId: Bytes -> SnapshotId, content: Bytes) {
    && published.snapshot == contentId(content)
    && published.bytes == |content| && published.lines == CountLf(content) + 1
  }

  /** The size check after persisting: it rejects what the snapshot constructor would reject. */
  function PublishChecked(contentId: Bytes -> SnapshotId, content: Bytes): Result<Published, ContractError> {
    match ValidateFileSize(|content|)
    case Err(e) => Err(e)
    case Ok(_) => Ok(Publish(contentId, content))
  }

  /** Whatever is decided for persisting passes the checks made after persisting. */
  lemma DecidedContentPublishes(contentId: Bytes -> SnapshotId, request: Request, loaded: Option<Bytes>)
    requires !DecideRequest(contentId, request, loaded).Refused?
    ensures var content := DecideRequest(contentId, request, loaded).content;
      && IsText(content) && PublishChecked(contentId, content) == Ok(Publish(contentId, content))
      && Names(Publish(contentId, content), contentId, content)
  {
    LineStartsExact(DecideRequest(contentId, request, loaded).content);
    if request.Edit? {
      OutputIsText(if loaded.Some? then loaded.value else [], request.edit.edits);
    }
  }

  /**
   * Failure means this request did not change the destination; success means its one change put in
   * exactly the bytes whose identity, size and line count are published, and the late checks cannot fail.
   */
  lemma ResponsesAreTruthful(
    cfg: Config, requests: map<ThreadId, Request>, start: State, actions: seq<Action>, t: ThreadId)
    requires Serves(cfg, requests) && start.threads.Keys == requests.Keys && t in requests
    requires Sound(cfg.timing) && Init(cfg, start) && Run(cfg, start, actions).Some?
    ensures var end := Run(cfg, start, actions).value;
      && t in end.threads
      && (end.threads[t].Failed? ==> forall e :: e in end.log ==> !By(e, t))
      && (end.threads[t].Succeeded? ==>
            var content := end.threads[t].plan.content;
            && CountBy(end.log, t) == 1
            && (exists e :: e in end.log && By(e, t) && e.content == content)
            && PublishChecked(cfg.contentId, content) == Ok(Publish(cfg.contentId, content))
            && Names(Publish(cfg.contentId, content), cfg.contentId, content))
  {
    OutcomeIsTruthful(cfg, start, actions, t);
    InitInv(cfg, start);
    RunInv(cfg, start.fs.View(), start, actions);
    var end := Run(cfg, start, actions).value;
    if end.threads[t].Succeeded? {
      var plan := end.threads[t].plan;
      assert EventOf(cfg, t, plan) in end.log && By(EventOf(cfg, t, plan), t);
      assert Fact(cfg, end.fs, t, end.threads[t]);
      DecidedContentPublishes(cfg.contentId, requests[t], if plan.Overwrite? then Some(plan.base) else None);
    }
  }

  /** Lines reported by an edit: source newlines kept, plus replacement newlines, plus one. */
  lemma EditReportsConservedLines(contentId: Bytes -> SnapshotId, edit: EditRequest, base: Bytes)
    requires VersionedEdits(base, contentId(base), edit).Ok?
    ensures Batch.Inside(base, Places(base, edit.edits))
    ensures Publish(contentId, VersionedEdits(base, contentId(base), edit).value).lines ==
      CountLf(base) - Batch.RemovedLf(base, Places(base, edit.edits)) + Batch.AddedLf(Places(base, edit.edits)) + 1
    ensures Publish(contentId, VersionedEdits(base, contentId(base), edit).value).bytes ==
      |base| - Batch.Removed(Places(base, edit.edits)) + Batch.Added(Places(base, edit.edits))
  {
    assert ReferenceEdits(base, edit.edits).Ok?;
    assert VersionedEdits(base, contentId(base), edit).value == ReferenceEdits(base, edit.edits).value;
    OutputSizes(base, edit.edits);
  }
}
