/** The one unguarded path: an edit of a missing file puts its result in place without looking again. */
module Unguarded {
  import opened Numbers
  import opened Protocol
  import opened EditTheorems
  import opened FileSystem
  import opened Pipeline
  import opened PipelineTheorems
  import opened Requests
  import opened Schedules

  // ---------------------------------------------------------------- which requests take it

  /** The request creates the path if it is missing. */
  predicate LegalCreate(request: Request) {
    request.Write? && request.write.expected.Absent? && ValidateWriteRequest(request.write).Ok?
  }

  /** The request edits the empty file, legally, and is served for a missing path. */
  ghost predicate EditsMissing(contentId: Bytes -> SnapshotId, request: Request) {
    request.Edit? && request.edit.snapshot == contentId([]) && Accepted([], request.edit.edits)
  }

  /** An edit of a missing file is served exactly when it names the empty content and is legal on it. */
  lemma PuttingExactly(contentId: Bytes -> SnapshotId, request: Request)
    ensures DecideRequest(contentId, request, None).Putting? <==> EditsMissing(contentId, request)
    ensures DecideRequest(contentId, request, None).Creating? <==> LegalCreate(request)
    ensures LegalCreate(request) ==> DecideRequest(contentId, request, None) == Creating(request.write.content)
  {
    if request.Edit? {
      VersionedExactly([], contentId([]), request.edit);
    }
  }

  /** The request names the text `base` and is legal on it. */
  ghost predicate AnswerableOn(contentId: Bytes -> SnapshotId, request: Request, base: Bytes) {
    && IsText(base) && NamedSnapshot(request) == Some(contentId(base))
    && match request
       case Edit(edit) => Accepted(base, edit.edits)
       case Write(write) => ValidateWriteRequest(write).Ok?
  }

  /** A replacement is decided exactly when the request names the loaded text and is legal on it. */
  lemma ReplacingExactly(contentId: Bytes -> SnapshotId, request: Request, base: Bytes)
    ensures DecideRequest(contentId, request, Some(base)).Replacing? <==> AnswerableOn(contentId, request, base)
    ensures DecideRequest(contentId, request, Some(base)).Replacing? ==>
      Intended(contentId, request, base) == Ok(DecideRequest(contentId, request, Some(base)).content)
  {
    ValidateTextDecides(base);
    if request.Edit? {
      VersionedExactly(base, contentId(base), request.edit);
    }
  }

  /** The request names `base`, is legal on it, and leaves something there. */
  ghost predicate PutsOver(contentId: Bytes -> SnapshotId, request: Request, base: Bytes) {
    AnswerableOn(contentId, request, base) && Intended(contentId, request, base) != Ok([])
  }

  /** The request creates a file that is not empty, or leaves something of some text it names. */
  ghost predicate CanPut(contentId: Bytes -> SnapshotId, request: Request) {
    (LegalCreate(request) && request.write.content != []) || exists base :: PutsOver(contentId, request, base)
  }

  // ---------------------------------------------------------------- what is lost

  /** Event `j` of `u` replaced, unguarded, what event `i` of `t` had put at the path. */
  ghost predicate Overwrites(
    cfg: Config, before: Option<Bytes>, log: seq<Event>, i: nat, j: nat, t: ThreadId, u: ThreadId)
    requires i < j < |log|
  {
    && By(log[i], t) && log[j].Forced? && log[j].thread == u
    && Replay(cfg.contentId, before, log[..j]) == Some(Some(log[i].content))
  }

  /** The register would have refused to swap `found` for `content` under the identity the request names. */
  ghost predicate Unseen(contentId: Bytes -> SnapshotId, request: Request, u: ThreadId, found: Bytes, content: Bytes) {
    NamedSnapshot(request).None? ||
    OnRegister(contentId, Some(found), Swapped(u, NamedSnapshot(request).value, found, content)).None?
  }

  /** In the run `t` changed the path, and `u` later overwrote that change, which its request had not seen. */
  ghost predicate LosesChange(
    cfg: Config, requests: map<ThreadId, Request>, start: State, actions: seq<Action>, t: ThreadId, u: ThreadId)
    requires u in requests
  {
    && Run(cfg, start, actions).Some?
    && var log := Run(cfg, start, actions).value.log;
       exists i, j :: 0 <= i < j < |log| && Overwrites(cfg, start.fs.View(), log, i, j, t, u) &&
         Unseen(cfg.contentId, requests[u], u, log[i].content, log[j].content)
  }

  /** An event that is not a guarded one comes from the request that the pipeline decided it for. */
  lemma DecidedEvent(cfg: Config, start: State, actions: seq<Action>, i: nat)
    requires Sound(cfg.timing) && Init(cfg, start) && Run(cfg, start, actions).Some?
    requires i < |Run(cfg, start, actions).value.log|
    ensures var event := Run(cfg, start, actions).value.log[i];
      && (event.Forced? ==> event.thread in start.threads && cfg.decide(event.thread, None) == Putting(event.content))
      && (event.Created? ==> event.thread in start.threads && cfg.decide(event.thread, None) == Creating(event.content))
  {
    InitInv(cfg, start);
    RunInv(cfg, start.fs.View(), start, actions);
    ThreadsKept(cfg, start, actions);
    var end := Run(cfg, start, actions).value;
    var event := end.log[i];
    assert event in end.log;
    if event.Forced? || event.Created? {
      assert event.thread in end.threads.Keys;
      assert Fact(cfg, end.fs, event.thread, end.threads[event.thread]);
    }
  }

  /** Only edits that name the empty content ever replace anything unguarded. */
  lemma ForcedNeedsEditOfMissing(
    cfg: Config, requests: map<ThreadId, Request>, start: State, actions: seq<Action>, i: nat)
    requires Serves(cfg, requests) && start.threads.Keys == requests.Keys
    requires Sound(cfg.timing) && Init(cfg, start) && Run(cfg, start, actions).Some?
    requires i < |Run(cfg, start, actions).value.log| && Run(cfg, start, actions).value.log[i].Forced?
    ensures var event := Run(cfg, start, actions).value.log[i];
      && event.thread in requests && EditsMissing(cfg.contentId, requests[event.thread])
      && Intended(cfg.contentId, requests[event.thread], []) == Ok(event.content)
  {
    DecidedEvent(cfg, start, actions, i);
    var event := Run(cfg, start, actions).value.log[i];
    assert event.thread in start.threads.Keys;
    assert cfg.decide(event.thread, None) == DecideRequest(cfg.contentId, requests[event.thread], None);
    PuttingExactly(cfg.contentId, requests[event.thread]);
  }

  /** What a thread put at the path is what its request was decided to put there. */
  lemma PutByRequest(
    cfg: Config, requests: map<ThreadId, Request>, start: State, actions: seq<Action>, i: nat)
    requires Serves(cfg, requests) && start.threads.Keys == requests.Keys
    requires Sound(cfg.timing) && Init(cfg, start) && Run(cfg, start, actions).Some?
    requires i < |Run(cfg, start, actions).value.log| && !Run(cfg, start, actions).value.log[i].External?
    ensures var event := Run(cfg, start, actions).value.log[i];
      && event.thread in requests
      && (event.content != [] ==> CanPut(cfg.contentId, requests[event.thread]))
      && (event.content != [] && event.Forced? ==> PutsOver(cfg.contentId, requests[event.thread], []))
      && (event.Created? ==>
            LegalCreate(requests[event.thread]) && requests[event.thread].write.content == event.content)
  {
    DecidedEvent(cfg, start, actions, i);
    InitInv(cfg, start);
    RunInv(cfg, start.fs.View(), start, actions);
    ThreadsKept(cfg, start, actions);
    var event := Run(cfg, start, actions).value.log[i];
    assert event in Run(cfg, start, actions).value.log;
    var request := requests[event.thread];
    if event.Swapped? {
      ReplacementSwapsItsBase(cfg, start, actions, i);
      assert cfg.decide(event.thread, Some(event.base)) == DecideRequest(cfg.contentId, request, Some(event.base));
      ReplacingExactly(cfg.contentId, request, event.base);
      assert event.content != [] ==> PutsOver(cfg.contentId, request, event.base);
    } else {
      assert cfg.decide(event.thread, None) == DecideRequest(cfg.contentId, request, None);
      PuttingExactly(cfg.contentId, request);
      if event.Forced? {
        ReplacingExactly(cfg.contentId, request, []);
        assert event.content != [] ==> PutsOver(cfg.contentId, request, []);
      }
    }
  }

  lemma LostChangeRequests(
    cfg: Config, requests: map<ThreadId, Request>, start: State, actions: seq<Action>, t: ThreadId, u: ThreadId)
    returns (i: nat, j: nat)
    requires Serves(cfg, requests) && start.threads.Keys == requests.Keys
    requires Sound(cfg.timing) && Init(cfg, start) && t in requests && u in requests
    requires LosesChange(cfg, requests, start, actions, t, u)
    ensures CanPut(cfg.contentId, requests[t]) && EditsMissing(cfg.contentId, requests[u])
    ensures i < j < |Run(cfg, start, actions).value.log|
    ensures Overwrites(cfg, start.fs.View(), Run(cfg, start, actions).value.log, i, j, t, u)
    ensures Run(cfg, start, actions).value.log[i].content != []
  {
    var log := Run(cfg, start, actions).value.log;
    i, j :| 0 <= i < j < |log| && Overwrites(cfg, start.fs.View(), log, i, j, t, u) &&
      Unseen(cfg.contentId, requests[u], u, log[i].content, log[j].content);
    ForcedNeedsEditOfMissing(cfg, requests, start, actions, j);
    PutByRequest(cfg, requests, start, actions, i);
  }

  // ---------------------------------------------------------------- how it is lost

  /** Once `t` has put something at the path, a thread that found nothing earlier overwrites it. */
  lemma ForcesOver(
    cfg: Config, requests: map<ThreadId, Request>, start: State, actions: seq<Action>, s: State, r: State,
    t: ThreadId, u: ThreadId, plan: Plan, content: Bytes)
    returns (more: seq<Action>)
    requires Sound(cfg.timing) && Init(cfg, start) && u in requests && t != u
    requires EditsMissing(cfg.contentId, requests[u])
    requires forall found :: cfg.contentId(found) == cfg.contentId([]) ==> found == []
    requires Leads(cfg, start, actions, r) && Put(cfg, s, r, t, plan) && plan.content != []
    requires Ready(cfg, r, u, PutUnguarded(content))
    ensures LosesChange(cfg, requests, start, more, t, u)
    ensures NobodyMeddles(actions) ==> NobodyMeddles(more)
  {
    var temp := r.fs.path.value + 1;
    var end;
    more, end := Forces(cfg, start, actions, r, u, content, temp);
    PathIsCasRegister(cfg, start, actions);
    var log, i, j := end.log, |s.log|, |s.log| + 1;
    assert log[..j] == r.log;
    assert log[i] == EventOf(cfg, t, plan) && log[j] == EventOf(cfg, u, PutUnguarded(content));
    assert Overwrites(cfg, start.fs.View(), log, i, j, t, u);
    assert Unseen(cfg.contentId, requests[u], u, log[i].content, log[j].content);
  }

  /** Both threads found nothing; `t` puts its file there and `u` overwrites it. */
  lemma FoundNothing(
    cfg: Config, requests: map<ThreadId, Request>, start: State, actions: seq<Action>, s: State,
    t: ThreadId, u: ThreadId, content: Bytes)
    returns (more: seq<Action>)
    requires Serves(cfg, requests) && start.threads.Keys == requests.Keys
    requires Sound(cfg.timing) && Init(cfg, start) && t in requests && u in requests && t != u
    requires EditsMissing(cfg.contentId, requests[u])
    requires forall found :: cfg.contentId(found) == cfg.contentId([]) ==> found == []
    requires Leads(cfg, start, actions, s) && s.fs.path == None && Ready(cfg, s, u, PutUnguarded(content))
    requires t in s.threads && s.threads[t] == Start(1)
    requires (LegalCreate(requests[t]) && requests[t].write.content != []) ||
      (EditsMissing(cfg.contentId, requests[t]) && PutsOver(cfg.contentId, requests[t], []))
    ensures LosesChange(cfg, requests, start, more, t, u)
    ensures NobodyMeddles(actions) ==> NobodyMeddles(more)
  {
    var request := requests[t];
    PuttingExactly(cfg.contentId, request);
    assert cfg.decide(t, None) == DecideRequest(cfg.contentId, request, None);
    var s1 := MissingPlans(cfg, start, actions, s, t);
    var a := actions + [Do(t, Step(Open))];
    var put := cfg.decide(t, None).content;
    if LegalCreate(request) {
      var b, r := Creates(cfg, start, a, s1, t, put, 0);
      more := ForcesOver(cfg, requests, start, b, s1, r, t, u, CreateNew(put), content);
    } else {
      ReplacingExactly(cfg.contentId, request, []);
      var b, r := Forces(cfg, start, a, s1, t, put, 0);
      more := ForcesOver(cfg, requests, start, b, s1, r, t, u, PutUnguarded(put), content);
    }
  }

  /** An outsider brings a text that `t` names, `t` replaces it, and `u`, which found nothing, overwrites that. */
  lemma FoundSomething(
    cfg: Config, requests: map<ThreadId, Request>, start: State, actions: seq<Action>, s: State,
    t: ThreadId, u: ThreadId, content: Bytes, base: Bytes)
    returns (more: seq<Action>)
    requires Serves(cfg, requests) && start.threads.Keys == requests.Keys
    requires Sound(cfg.timing) && Init(cfg, start) && t in requests && u in requests && t != u
    requires EditsMissing(cfg.contentId, requests[u])
    requires forall found :: cfg.contentId(found) == cfg.contentId([]) ==> found == []
    requires Leads(cfg, start, actions, s) && s.fs.path == None && Ready(cfg, s, u, PutUnguarded(content))
    requires t in s.threads && s.threads[t] == Start(1) && PutsOver(cfg.contentId, requests[t], base)
    ensures LosesChange(cfg, requests, start, more, t, u)
  {
    ReplacingExactly(cfg.contentId, requests[t], base);
    assert cfg.decide(t, Some(base)) == DecideRequest(cfg.contentId, requests[t], Some(base));
    var put := cfg.decide(t, Some(base)).content;
    var a, s1 := Appears(cfg, start, actions, s, base);
    var b, stamp := LoadsAndPlans(cfg, start, a, s1, t, base, put);
    var plan := Overwrite(base, stamp, put);
    var s2 := Move(s1, t, Planned(plan));
    var c, r := Replaces(cfg, start, b, s2, t, plan, 1);
    more := ForcesOver(cfg, requests, start, c, s2, r, t, u, plan, content);
  }

  /** `u` looks before anything else happens and finds nothing. */
  lemma FindsNothing(
    cfg: Config, requests: map<ThreadId, Request>, start: State, actions: seq<Action>, s: State, u: ThreadId)
    returns (more: seq<Action>, r: State, content: Bytes)
    requires Serves(cfg, requests) && u in requests && EditsMissing(cfg.contentId, requests[u])
    requires Leads(cfg, start, actions, s) && u in s.threads && s.threads[u] == Start(1)
    requires s.fs.path == None && s.lock == None && FsOk(cfg.timing, s.fs)
    ensures Leads(cfg, start, more, r) && (NobodyMeddles(actions) ==> NobodyMeddles(more))
    ensures r.fs == s.fs && r.threads == s.threads[u := Planned(PutUnguarded(content))]
    ensures Ready(cfg, r, u, PutUnguarded(content))
  {
    PuttingExactly(cfg.contentId, requests[u]);
    assert cfg.decide(u, None) == DecideRequest(cfg.contentId, requests[u], None);
    content := cfg.decide(u, None).content;
    r := MissingPlans(cfg, start, actions, s, u);
    more := actions + [Do(u, Step(Open))];
  }

  // ---------------------------------------------------------------- exactly when

  /**
   * Exactly when a change can be lost unseen, whatever outsiders do: the one request can leave something at the
   * path, and the other edits the empty file. A caller can tell from the two requests.
   */
  lemma UnseenOverwriteExactly(cfg: Config, requests: map<ThreadId, Request>, start: State, t: ThreadId, u: ThreadId)
    requires Serves(cfg, requests) && start.threads.Keys == requests.Keys
    requires Sound(cfg.timing) && Init(cfg, start) && t in requests && u in requests && t != u
    requires forall content :: cfg.contentId(content) == cfg.contentId([]) ==> content == []
    ensures (exists actions :: LosesChange(cfg, requests, start, actions, t, u)) <==>
      CanPut(cfg.contentId, requests[t]) && EditsMissing(cfg.contentId, requests[u])
  {
    if CanPut(cfg.contentId, requests[t]) && EditsMissing(cfg.contentId, requests[u]) {
      var a, s := Disappears(cfg, start);
      var b, r, content := FindsNothing(cfg, requests, start, a, s, u);
      var actions;
      if LegalCreate(requests[t]) && requests[t].write.content != [] {
        actions := FoundNothing(cfg, requests, start, b, r, t, u, content);
      } else {
        var base :| PutsOver(cfg.contentId, requests[t], base);
        actions := FoundSomething(cfg, requests, start, b, r, t, u, content, base);
      }
      assert LosesChange(cfg, requests, start, actions, t, u);
    }
    forall actions | LosesChange(cfg, requests, start, actions, t, u)
      ensures CanPut(cfg.contentId, requests[t]) && EditsMissing(cfg.contentId, requests[u])
    {
      var i, j := LostChangeRequests(cfg, requests, start, actions, t, u);
    }
  }

  // ---------------------------------------------------------------- with nobody else around

  lemma {:induction false} NothingExternal(cfg: Config, s: State, actions: seq<Action>)
    requires Run(cfg, s, actions).Some? && NobodyMeddles(actions)
    requires forall e :: e in s.log ==> !e.External?
    ensures forall e :: e in Run(cfg, s, actions).value.log ==> !e.External?
    decreases |actions|
  {
    if |actions| != 0 {
      assert !actions[0].Meddle?;
      NothingExternal(cfg, Next(cfg, s, actions[0]).value, actions[1..]);
    }
  }

  lemma {:induction false} CountsTwice(log: seq<Event>, t: ThreadId, i: nat, j: nat)
    requires i < j < |log| && By(log[i], t) && By(log[j], t)
    ensures CountBy(log, t) >= 2
  {
    var init := log[..|log| - 1];
    if j < |log| - 1 {
      CountsTwice(init, t, i, j);
    } else {
      CountZero(init, t);
      assert init[i] in init;
    }
  }

  /** Of two threads alone, the one whose change is overwritten by the other changed the path first. */
  lemma LostIsFirst(
    cfg: Config, start: State, actions: seq<Action>, i: nat, j: nat, t: ThreadId, u: ThreadId)
    requires Sound(cfg.timing) && Init(cfg, start) && start.threads.Keys == {t, u} && t != u
    requires Run(cfg, start, actions).Some? && NobodyMeddles(actions)
    requires i < j < |Run(cfg, start, actions).value.log|
    requires By(Run(cfg, start, actions).value.log[i], t) && By(Run(cfg, start, actions).value.log[j], u)
    ensures i == 0
  {
    InitInv(cfg, start);
    RunInv(cfg, start.fs.View(), start, actions);
    ThreadsKept(cfg, start, actions);
    NothingExternal(cfg, start, actions);
    var end := Run(cfg, start, actions).value;
    if i > 0 {
      var first := end.log[0];
      assert first in end.log && first.thread in end.threads.Keys;
      if first.thread == t {
        CountsTwice(end.log, t, 0, i);
      } else {
        CountsTwice(end.log, u, 0, j);
      }
    }
  }

  /**
   * With nobody but the two requests on a missing path: a change is lost unseen exactly when a create of content
   * that is not empty, or an edit of the empty file that leaves something, meets an edit of the empty file.
   */
  lemma UnseenOverwriteAlone(cfg: Config, requests: map<ThreadId, Request>, start: State, t: ThreadId, u: ThreadId)
    requires Serves(cfg, requests) && start.threads.Keys == requests.Keys == {t, u} && t != u
    requires Sound(cfg.timing) && Init(cfg, start) && start.fs.path == None
    requires forall content :: cfg.contentId(content) == cfg.contentId([]) ==> content == []
    ensures (exists actions :: NobodyMeddles(actions) && LosesChange(cfg, requests, start, actions, t, u)) <==>
      && EditsMissing(cfg.contentId, requests[u])
      && ((LegalCreate(requests[t]) && requests[t].write.content != []) ||
          (EditsMissing(cfg.contentId, requests[t]) && PutsOver(cfg.contentId, requests[t], [])))
  {
    if EditsMissing(cfg.contentId, requests[u])
       && ((LegalCreate(requests[t]) && requests[t].write.content != []) ||
           (EditsMissing(cfg.contentId, requests[t]) && PutsOver(cfg.contentId, requests[t], []))) {
      assert Leads(cfg, start, [], start);
      var b, r, content := FindsNothing(cfg, requests, start, [], start, u);
      var actions := FoundNothing(cfg, requests, start, b, r, t, u, content);
      assert NobodyMeddles(actions) && LosesChange(cfg, requests, start, actions, t, u);
    }
    forall actions | NobodyMeddles(actions) && LosesChange(cfg, requests, start, actions, t, u)
      ensures EditsMissing(cfg.contentId, requests[u])
      ensures (LegalCreate(requests[t]) && requests[t].write.content != []) ||
        (EditsMissing(cfg.contentId, requests[t]) && PutsOver(cfg.contentId, requests[t], []))
    {
      LostAlone(cfg, requests, start, actions, t, u);
    }
  }

  lemma LostAlone(
    cfg: Config, requests: map<ThreadId, Request>, start: State, actions: seq<Action>, t: ThreadId, u: ThreadId)
    requires Serves(cfg, requests) && start.threads.Keys == requests.Keys == {t, u} && t != u
    requires Sound(cfg.timing) && Init(cfg, start) && start.fs.path == None
    requires NobodyMeddles(actions) && LosesChange(cfg, requests, start, actions, t, u)
    ensures EditsMissing(cfg.contentId, requests[u])
    ensures (LegalCreate(requests[t]) && requests[t].write.content != []) ||
      (EditsMissing(cfg.contentId, requests[t]) && PutsOver(cfg.contentId, requests[t], []))
  {
    var i, j := LostChangeRequests(cfg, requests, start, actions, t, u);
    LostIsFirst(cfg, start, actions, i, j, t, u);
    var log := Run(cfg, start, actions).value.log;
    PathIsCasRegister(cfg, start, actions);
    ReplayPrefix(cfg.contentId, None, log, 0);
    PutByRequest(cfg, requests, start, actions, 0);
    if log[0].Forced? {
      ForcedNeedsEditOfMissing(cfg, requests, start, actions, 0);
    }
  }

  // ---------------------------------------------------------------- two requests that lose a change

  /** What a thread that finds nothing puts at the path. */
  function PutOnMissing(cfg: Config, t: ThreadId): Event
    requires !cfg.decide(t, None).Refused?
  {
    var verdict := cfg.decide(t, None);
    if verdict.Creating? then Created(t, verdict.content) else Forced(t, verdict.content)
  }

  lemma PutThenForce(cfg: Config, start: State, t: ThreadId, u: ThreadId) returns (actions: seq<Action>)
    requires Init(cfg, start) && start.fs.path == None && t in start.threads && u in start.threads && t != u
    requires cfg.decide(t, None).Creating? || cfg.decide(t, None).Putting?
    requires cfg.decide(u, None).Putting?
    ensures Run(cfg, start, actions).Some? && NobodyMeddles(actions)
    ensures Run(cfg, start, actions).value.log == [PutOnMissing(cfg, t), Forced(u, cfg.decide(u, None).content)]
    ensures t in Run(cfg, start, actions).value.threads && Run(cfg, start, actions).value.threads[t].Succeeded?
    ensures u in Run(cfg, start, actions).value.threads && Run(cfg, start, actions).value.threads[u].Succeeded?
  {
    assert Leads(cfg, start, [], start);
    var s1 := MissingPlans(cfg, start, [], start, u);
    var s2 := MissingPlans(cfg, start, [] + [Do(u, Step(Open))], s1, t);
    var a := [] + [Do(u, Step(Open))] + [Do(t, Step(Open))];
    var put := cfg.decide(t, None).content;
    var b, s3;
    if cfg.decide(t, None).Creating? {
      b, s3 := Creates(cfg, start, a, s2, t, put, 0);
    } else {
      b, s3 := Forces(cfg, start, a, s2, t, put, 0);
    }
    var s4;
    actions, s4 := Forces(cfg, start, b, s3, u, cfg.decide(u, None).content, s3.fs.path.value + 1);
  }

  /** On a missing path a legal create can be overwritten by an edit of the empty file. */
  lemma CreateCanBeOverwritten(
    cfg: Config, requests: map<ThreadId, Request>, start: State, t: ThreadId, u: ThreadId)
    returns (actions: seq<Action>)
    requires Serves(cfg, requests) && start.threads.Keys == requests.Keys
    requires Init(cfg, start) && start.fs.path == None && t in requests && u in requests && t != u
    requires LegalCreate(requests[t]) && EditsMissing(cfg.contentId, requests[u])
    ensures Run(cfg, start, actions).Some?
    ensures var log := Run(cfg, start, actions).value.log;
      |log| == 2 && Overwrites(cfg, None, log, 0, 1, t, u) && log[0] == Created(t, requests[t].write.content)
  {
    PuttingExactly(cfg.contentId, requests[t]);
    PuttingExactly(cfg.contentId, requests[u]);
    assert cfg.decide(t, None) == DecideRequest(cfg.contentId, requests[t], None);
    assert cfg.decide(u, None) == DecideRequest(cfg.contentId, requests[u], None);
    actions := PutThenForce(cfg, start, t, u);
    var log := Run(cfg, start, actions).value.log;
    assert log[..1] == [log[0]] && log[..1][..0] == [];
    assert Replay(cfg.contentId, None, log[..1]) == OnRegister(cfg.contentId, None, log[0]);
  }

  /** A missing path, and two requests served under the given identity and timing. */
  lemma TwoOnMissing(contentId: Bytes -> SnapshotId, timing: Timing, requests: map<ThreadId, Request>)
    returns (cfg: Config, start: State)
    requires requests.Keys == {0, 1}
    ensures cfg.contentId == contentId && cfg.timing == timing && Serves(cfg, requests)
    ensures Init(cfg, start) && start.fs.path == None && start.threads.Keys == requests.Keys
  {
    cfg := Config(contentId, timing, (t: ThreadId, loaded: Option<Bytes>) =>
      if t in requests then DecideRequest(contentId, requests[t], loaded) else Refused);
    start := State(Fs(0, map[], None), map[0 := Start(1), 1 := Start(1)], None, []);
  }

  predicate BothSucceed(s: State) {
    && 0 in s.threads && s.threads[0].Succeeded?
    && 1 in s.threads && s.threads[1].Succeeded?
  }

  /** The edit of the empty file that leaves exactly `content`. */
  function EditEmpty(contentId: Bytes -> SnapshotId, content: Str): Request {
    Edit(EditRequest([], contentId([]), [Replace(At(1, 0), At(2, 0), content)]))
  }

  lemma EditEmptyPuts(contentId: Bytes -> SnapshotId, content: Str)
    requires IsText(content)
    ensures DecideRequest(contentId, EditEmpty(contentId, content), None) == Putting(content)
  {
    assert PositionOf([], 0) == At(1, 0) && PositionOf([], LineCount([])) == At(2, 0);
    WholeReplace([], content);
    AcceptedExactly([], EditEmpty(contentId, content).edit.edits);
    PuttingExactly(contentId, EditEmpty(contentId, content));
  }

  /** One such pair: a write creates the file with an `A`, an edit replaces the empty file by a `B`. */
  lemma LostCreateExample(contentId: Bytes -> SnapshotId, timing: Timing)
    returns (cfg: Config, requests: map<ThreadId, Request>, start: State, actions: seq<Action>)
    ensures cfg.contentId == contentId && cfg.timing == timing && Serves(cfg, requests) && Init(cfg, start)
    ensures requests == map[0 := Write(WriteRequest([], [65], Absent)), 1 := EditEmpty(contentId, [66])]
    ensures start.threads.Keys == requests.Keys && Run(cfg, start, actions).Some? && NobodyMeddles(actions)
    ensures Run(cfg, start, actions).value.log == [Created(0, [65]), Forced(1, [66])]
    ensures BothSucceed(Run(cfg, start, actions).value)
  {
    requests := map[0 := Write(WriteRequest([], [65], Absent)), 1 := EditEmpty(contentId, [66])];
    cfg, start := TwoOnMissing(contentId, timing, requests);
    PuttingExactly(contentId, requests[0]);
    EditEmptyPuts(contentId, [66]);
    actions := PutThenForce(cfg, start, 0, 1);
  }

  /** Another pair: two edits of the empty file, both answered with success. */
  lemma LostEditExample(contentId: Bytes -> SnapshotId, timing: Timing)
    returns (cfg: Config, requests: map<ThreadId, Request>, start: State, actions: seq<Action>)
    ensures cfg.contentId == contentId && cfg.timing == timing && Serves(cfg, requests) && Init(cfg, start)
    ensures requests == map[0 := EditEmpty(contentId, [65]), 1 := EditEmpty(contentId, [66])]
    ensures start.threads.Keys == requests.Keys && Run(cfg, start, actions).Some? && NobodyMeddles(actions)
    ensures Run(cfg, start, actions).value.log == [Forced(0, [65]), Forced(1, [66])]
    ensures BothSucceed(Run(cfg, start, actions).value)
  {
    requests := map[0 := EditEmpty(contentId, [65]), 1 := EditEmpty(contentId, [66])];
    cfg, start := TwoOnMissing(contentId, timing, requests);
    EditEmptyPuts(contentId, [65]);
    EditEmptyPuts(contentId, [66]);
    actions := PutThenForce(cfg, start, 0, 1);
  }
}
