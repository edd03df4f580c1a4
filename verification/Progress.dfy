/** A request that is answerable on what the path holds does succeed, and a thread fails only for a reason. */
module Progress {
  import opened Numbers
  import opened Protocol
  import opened FileSystem
  import opened Pipeline
  import opened PipelineTheorems
  import opened Requests
  import opened Schedules
  import opened Unguarded

  // ---------------------------------------------------------------- why a thread fails

  /** The path names the inode of the stamp, with its length and both its times. */
  ghost predicate ShowsStamp(fs: Fs, stamp: FileStamp) {
    && fs.path == Some(stamp.identity) && stamp.identity in fs.inodes
    && var inode := fs.inodes[stamp.identity];
       |inode.content| == stamp.len && inode.mtime == stamp.mtime && inode.ctime == stamp.ctime
  }

  /** The two stamps of a load and the path agree, and the bytes read are as long as they say. */
  ghost predicate Stable(fs: Fs, before: FileStamp, bytes: Bytes, after: FileStamp) {
    && before.identity == after.identity && before.len == after.len
    && before.mtime == after.mtime && before.ctime == after.ctime
    && ShowsStamp(fs, after) && |bytes| == after.len
  }

  /** Why this step fails: the file is not what the thread needs it to be, the request is refused, or an I/O error. */
  ghost predicate Excused(cfg: Config, fs: Fs, t: ThreadId, phase: Phase, op: Op) {
    match (op, phase)
    case (Step(Open), Start(_)) =>
      fs.View() == None && (cfg.decide(t, None).Refused? || cfg.decide(t, None).Replacing?)
    case (Step(StatBefore(_)), Opened(_, fd)) =>
      fd in fs.inodes && |fs.inodes[fd].content| > MAX_FILE_BYTES
    case (Step(Read(_)), Reading(_, before, bytes)) =>
      before.identity in fs.inodes && |fs.inodes[before.identity].content| > MAX_FILE_BYTES
    case (Step(StatPath), Restatted(attempt, before, bytes, after)) =>
      if Stable(fs, before, bytes, after) then
        !after.racy && fs.View() == Some(bytes) && !cfg.decide(t, Some(bytes)).Replacing?
      else
        attempt >= 2
    case (Step(Reread), Rereading(attempt, bytes, _)) =>
      if fs.View() == Some(bytes) then !cfg.decide(t, Some(bytes)).Replacing? else attempt >= 2
    case (CheckStamp, TempReady(plan, _)) => plan.Overwrite? && !ShowsStamp(fs, plan.stamp)
    case (CheckContent, Matched(plan, _)) => plan.Overwrite? && fs.View() != Some(plan.base)
    case (Link(_), TempReady(plan, _)) => plan.CreateNew? && fs.path.Some?
    case (Step(Fail), _) => true
    case (GiveUp, _) => true
    case _ => false
  }

  /** The stamp the path has now agrees with `stamp` exactly when the path shows it. */
  lemma ShownExactly(fs: Fs, stamp: FileStamp, clock: Time)
    ensures CapturePath(fs, clock).Some? && CapturePath(fs, clock).value.Same(stamp) <==> ShowsStamp(fs, stamp)
    ensures CapturePath(fs, clock).Some? && stamp.Same(CapturePath(fs, clock).value) <==> ShowsStamp(fs, stamp)
  {
  }

  /** Bytes read between two stamps that agree with each other and the path are the path's, unless they are racy. */
  lemma StableHolds(timing: Timing, fs: Fs, before: FileStamp, bytes: Bytes, after: FileStamp)
    requires Sound(timing) && FsOk(timing, fs) && StampOk(timing, fs, after)
    requires before.Same(after) && !after.racy ==> bytes == after.seen
    ensures Stable(fs, before, bytes, after) <==>
      && before.Same(after) && |bytes| == after.len
      && CapturePath(fs, fs.now).Some? && CapturePath(fs, fs.now).value.Same(after)
    ensures Stable(fs, before, bytes, after) && !after.racy ==> fs.View() == Some(bytes)
  {
    ShownExactly(fs, after, fs.now);
    if Stable(fs, before, bytes, after) && !after.racy {
      NonRacyStampProves(timing, fs, after, fs.now);
    }
  }

  lemma BoundedIsBase(content: Bytes, base: Bytes)
    ensures Bounded(content, |base|) == base <==> content == base
  {
  }

  lemma {:induction false} LoadFailsForReason(cfg: Config, fs: Fs, t: ThreadId, phase: Phase, local: Local)
    requires Sound(cfg.timing) && FsOk(cfg.timing, fs) && Fact(cfg, fs, t, phase)
    requires Advance(cfg, fs, t, phase, local).Some?
    ensures Advance(cfg, fs, t, phase, local).value.Failed? ==> Excused(cfg, fs, t, phase, Step(local))
    ensures Excused(cfg, fs, t, phase, Step(local)) && !local.Read? ==> Advance(cfg, fs, t, phase, local).value.Failed?
  {
    if phase.Restatted? {
      StableHolds(cfg.timing, fs, phase.before, phase.bytes, phase.after);
    }
  }

  /** A load ends only while the path holds exactly the loaded bytes, and an unstable one starts again only once. */
  lemma {:induction false} LoadsWhatIsThere(cfg: Config, fs: Fs, t: ThreadId, phase: Phase, local: Local)
    requires Sound(cfg.timing) && FsOk(cfg.timing, fs) && Fact(cfg, fs, t, phase)
    requires Advance(cfg, fs, t, phase, local).Some?
    ensures match Advance(cfg, fs, t, phase, local).value
            case Planned(plan) => fs.View() == if plan.Overwrite? then Some(plan.base) else None
            case Start(attempt) => (phase.Restatted? || phase.Rereading?) && attempt == phase.attempt + 1 <= 2
            case _ => true
  {
    if phase.Restatted? {
      StableHolds(cfg.timing, fs, phase.before, phase.bytes, phase.after);
    }
  }

  /**
   * A step fails only when there is a reason, and wherever the thread compares the file with what it expects, exactly
   * then: a check of the stamp when the path shows another, a check of the content when the path holds other bytes, a
   * link when the path is taken, a load when the file is too large, changes for the second time or refuses the request.
   */
  lemma {:induction false} FailsOnlyForReason(cfg: Config, s: State, t: ThreadId, op: Op)
    requires Sound(cfg.timing) && FsOk(cfg.timing, s.fs) && t in s.threads && Fact(cfg, s.fs, t, s.threads[t])
    requires ThreadNext(cfg, s, t, op).Some?
    ensures var r := ThreadNext(cfg, s, t, op).value;
      && t in r.threads
      && (r.threads[t].Failed? ==> Excused(cfg, s.fs, t, s.threads[t], op))
      && (Excused(cfg, s.fs, t, s.threads[t], op) && !(op.Step? && op.local.Read?) ==> r.threads[t].Failed?)
  {
    var phase := s.threads[t];
    match op
    case Step(local) => LoadFailsForReason(cfg, s.fs, t, phase, local);
    case CheckStamp => ShownExactly(s.fs, phase.plan.stamp, s.fs.now);
    case CheckContent =>
      if s.fs.View().Some? {
        BoundedIsBase(s.fs.View().value, phase.plan.base);
      }
    case _ =>
  }

  /**
   * What outsiders may do, in whatever phase the threads are: remove the file, give the path any other one, and write
   * anything anywhere, except to the temporary file of the lock holder or once its last check has passed.
   */
  lemma OutsidersAct(cfg: Config, s: State, outside: Outside)
    ensures Next(cfg, s, Meddle(outside)).Some? <==>
      && !(s.lock.Some? && s.lock.value in s.threads && s.threads[s.lock.value].Cleared?)
      && match outside
         case Unlink => true
         case Point(target) => target in s.fs.inodes && PendingTemp(s) != Some(target)
         case Rewrite(k, inode) =>
           && PendingTemp(s) != Some(k) && inode.changedAt == s.fs.now
           && inode.ctime <= s.fs.now <= inode.ctime + cfg.timing.granularity
    ensures PendingTemp(s).Some? ==>
      && s.lock.Some? && s.lock.value in s.threads
      && var phase := s.threads[s.lock.value];
         (phase.TempReady? || phase.Matched? || phase.Cleared?) && PendingTemp(s) == Some(phase.temp)
    ensures Next(cfg, s, Meddle(outside)).Some? ==>
      Next(cfg, s, Meddle(outside)).value.fs.View() ==
        match outside
        case Unlink => None
        case Point(target) => Some(s.fs.inodes[target].content)
        case Rewrite(k, inode) => if s.fs.path == Some(k) then Some(inode.content) else s.fs.View()
  {
  }

  // ---------------------------------------------------------------- what one request can do alone

  /** The state a run ends in: the thread has put `content` at the path by this one change. */
  ghost predicate Ends(r: State, t: ThreadId, content: Bytes, event: Event) {
    && t in r.threads && r.threads[t].Succeeded? && r.threads[t].plan.content == content
    && r.fs.View() == Some(content) && r.log == [event]
  }

  /** A thread whose request replaces what the path holds does so, however old the file is. */
  lemma {:induction false} ReplacementSucceeds(cfg: Config, start: State, t: ThreadId, base: Bytes, content: Bytes)
    returns (actions: seq<Action>, r: State)
    requires Init(cfg, start) && t in start.threads && start.fs.View() == Some(base) && |base| <= MAX_FILE_BYTES
    requires cfg.decide(t, Some(base)) == Replacing(content)
    ensures Leads(cfg, start, actions, r) && ByOnly(actions, t)
    ensures Ends(r, t, content, Swapped(t, cfg.contentId(base), base, content))
  {
    assert Leads(cfg, start, [], start);
    var a, stamp := LoadsAndPlans(cfg, start, [], start, t, base, content);
    var plan := Overwrite(base, stamp, content);
    var s := Move(start, t, Planned(plan));
    actions, r := Replaces(cfg, start, a, s, t, plan, start.fs.path.value + 1);
    assert start.log + [EventOf(cfg, t, plan)] == [EventOf(cfg, t, plan)];
  }

  /** A thread whose request creates the missing file does so. */
  lemma {:induction false} CreateSucceeds(cfg: Config, start: State, t: ThreadId, content: Bytes)
    returns (actions: seq<Action>, r: State)
    requires Init(cfg, start) && t in start.threads && start.fs.path == None
    requires cfg.decide(t, None) == Creating(content)
    ensures Leads(cfg, start, actions, r) && ByOnly(actions, t) && Ends(r, t, content, Created(t, content))
  {
    assert Leads(cfg, start, [], start);
    var s := MissingPlans(cfg, start, [], start, t);
    var a := [] + [Do(t, Step(Open))];
    actions, r := Creates(cfg, start, a, s, t, content, 0);
    assert start.log + [Created(t, content)] == [Created(t, content)];
  }

  /** So does one whose request edits the missing file. */
  lemma {:induction false} PutSucceeds(cfg: Config, start: State, t: ThreadId, content: Bytes)
    returns (actions: seq<Action>, r: State)
    requires Init(cfg, start) && t in start.threads && start.fs.path == None
    requires cfg.decide(t, None) == Putting(content)
    ensures Leads(cfg, start, actions, r) && ByOnly(actions, t) && Ends(r, t, content, Forced(t, content))
  {
    assert Leads(cfg, start, [], start);
    var s := MissingPlans(cfg, start, [], start, t);
    var a := [] + [Do(t, Step(Open))];
    actions, r := Forces(cfg, start, a, s, t, content, 0);
    assert start.log + [Forced(t, content)] == [Forced(t, content)];
  }

  /**
   * Every request that is answerable on what the path holds, or on its absence, has a run in which nobody else acts
   * that ends in success with exactly what it asks for at the path, by one change.
   */
  lemma {:induction false} AnswerableSucceeds(
    cfg: Config, requests: map<ThreadId, Request>, start: State, t: ThreadId)
    returns (actions: seq<Action>, r: State, content: Bytes, event: Event)
    requires Serves(cfg, requests) && start.threads.Keys == requests.Keys && t in requests && Init(cfg, start)
    requires match start.fs.View()
             case Some(base) => AnswerableOn(cfg.contentId, requests[t], base)
             case None => LegalCreate(requests[t]) || EditsMissing(cfg.contentId, requests[t])
    ensures Leads(cfg, start, actions, r) && ByOnly(actions, t) && Ends(r, t, content, event)
    ensures match start.fs.View()
            case Some(base) =>
              && Intended(cfg.contentId, requests[t], base) == Ok(content)
              && event == Swapped(t, cfg.contentId(base), base, content)
            case None =>
              && Intended(cfg.contentId, requests[t], []) == Ok(content)
              && event == if LegalCreate(requests[t]) then Created(t, content) else Forced(t, content)
  {
    var request := requests[t];
    PuttingExactly(cfg.contentId, request);
    match start.fs.View()
    case Some(base) =>
      ReplacingExactly(cfg.contentId, request, base);
      content := DecideRequest(cfg.contentId, request, Some(base)).content;
      assert cfg.decide(t, Some(base)) == DecideRequest(cfg.contentId, request, Some(base));
      event := Swapped(t, cfg.contentId(base), base, content);
      actions, r := ReplacementSucceeds(cfg, start, t, base, content);
    case None =>
      content := DecideRequest(cfg.contentId, request, None).content;
      assert cfg.decide(t, None) == DecideRequest(cfg.contentId, request, None);
      if LegalCreate(request) {
        event := Created(t, content);
        actions, r := CreateSucceeds(cfg, start, t, content);
      } else {
        event := Forced(t, content);
        actions, r := PutSucceeds(cfg, start, t, content);
      }
  }

  // ---------------------------------------------------------------- and when it cannot

  /** A thread that finds a file plans only to replace it. */
  lemma {:induction false} PlansToReplace(cfg: Config, s: State, t: ThreadId, op: Op)
    requires t in s.threads && ThreadNext(cfg, s, t, op).Some?
    requires s.fs.View().Some? && (HasPlan(s.threads[t]) ==> s.threads[t].plan.Overwrite?)
    ensures var r := ThreadNext(cfg, s, t, op).value;
      t in r.threads && (HasPlan(r.threads[t]) ==> r.threads[t].plan.Overwrite?)
  {
    if !op.Step? {
      KeepsPlan(cfg, s, t, op);
    }
  }

  /** None of its steps removes the file. */
  lemma {:induction false} StaysPresent(cfg: Config, register: Option<Bytes>, s: State, t: ThreadId, op: Op)
    requires Sound(cfg.timing) && Inv(cfg, register, s) && t in s.threads && ThreadNext(cfg, s, t, op).Some?
    requires s.fs.View().Some?
    ensures ThreadNext(cfg, s, t, op).value.fs.View().Some?
  {
    OwnEvent(cfg, s, t, op);
  }

  lemma {:induction false} OnlyReplaces(
    cfg: Config, register: Option<Bytes>, s: State, actions: seq<Action>, t: ThreadId)
    requires Sound(cfg.timing) && Inv(cfg, register, s) && t in s.threads
    requires Run(cfg, s, actions).Some? && ByOnly(actions, t)
    requires s.fs.View().Some? && (HasPlan(s.threads[t]) ==> s.threads[t].plan.Overwrite?)
    ensures var r := Run(cfg, s, actions).value;
      t in r.threads && (HasPlan(r.threads[t]) ==> r.threads[t].plan.Overwrite?)
    decreases |actions|
  {
    if |actions| > 0 {
      assert actions[0].Do? && actions[0].thread == t;
      StaysPresent(cfg, register, s, t, actions[0].op);
      PlansToReplace(cfg, s, t, actions[0].op);
      StepInv(cfg, register, s, actions[0]);
      OnlyReplaces(cfg, register, Next(cfg, s, actions[0]).value, actions[1..], t);
    }
  }

  lemma {:induction false} OthersIdle(cfg: Config, s: State, actions: seq<Action>, t: ThreadId, u: ThreadId)
    requires Run(cfg, s, actions).Some? && ByOnly(actions, t) && u in s.threads && u != t
    ensures u in Run(cfg, s, actions).value.threads && Run(cfg, s, actions).value.threads[u] == s.threads[u]
    decreases |actions|
  {
    if |actions| > 0 {
      assert actions[0].Do? && actions[0].thread == t;
      OnlyOwnPhase(cfg, s, t, actions[0].op);
      OthersIdle(cfg, Next(cfg, s, actions[0]).value, actions[1..], t, u);
    }
  }

  /** The one change of a thread that ran alone is the first of the log. */
  lemma {:induction false} OwnChangeIsFirst(cfg: Config, start: State, actions: seq<Action>, t: ThreadId)
    requires Sound(cfg.timing) && Init(cfg, start) && t in start.threads
    requires Run(cfg, start, actions).Some? && ByOnly(actions, t)
    requires t in Run(cfg, start, actions).value.threads && Run(cfg, start, actions).value.threads[t].Succeeded?
    ensures var r := Run(cfg, start, actions).value;
      && |r.log| > 0 && r.log[0] == EventOf(cfg, t, r.threads[t].plan)
      && OnRegister(cfg.contentId, start.fs.View(), r.log[0]).Some?
  {
    InitInv(cfg, start);
    RunInv(cfg, start.fs.View(), start, actions);
    ThreadsKept(cfg, start, actions);
    NothingExternal(cfg, start, actions);
    OutcomeIsTruthful(cfg, start, actions, t);
    var r := Run(cfg, start, actions).value;
    assert r.log[0] in r.log;
    var u := r.log[0].thread;
    assert u in r.threads.Keys;
    if u != t {
      OthersIdle(cfg, start, actions, t, u);
    }
    ReplayPrefix(cfg.contentId, start.fs.View(), r.log, 0);
    assert r.log[..0] == [];
  }

  /** A request can succeed alone exactly when it is answerable on what the path holds, or on its absence. */
  lemma {:induction false} SucceedsAloneExactly(
    cfg: Config, requests: map<ThreadId, Request>, start: State, t: ThreadId)
    requires Serves(cfg, requests) && start.threads.Keys == requests.Keys && t in requests
    requires Sound(cfg.timing) && Init(cfg, start)
    ensures (exists actions, r :: Leads(cfg, start, actions, r) && ByOnly(actions, t) &&
                t in r.threads && r.threads[t].Succeeded?) <==>
      match start.fs.View()
      case Some(base) => AnswerableOn(cfg.contentId, requests[t], base)
      case None => LegalCreate(requests[t]) || EditsMissing(cfg.contentId, requests[t])
  {
    var request := requests[t];
    PuttingExactly(cfg.contentId, request);
    assert cfg.decide(t, None) == DecideRequest(cfg.contentId, request, None);
    if actions, r :| Leads(cfg, start, actions, r) && ByOnly(actions, t) &&
                     t in r.threads && r.threads[t].Succeeded? {
      SucceededAlone(cfg, request, start, actions, r, t);
    }
    if match start.fs.View()
       case Some(base) => AnswerableOn(cfg.contentId, request, base)
       case None => LegalCreate(request) || EditsMissing(cfg.contentId, request)
    {
      var actions, r, content, event := AnswerableSucceeds(cfg, requests, start, t);
      assert Leads(cfg, start, actions, r) && ByOnly(actions, t) && t in r.threads && r.threads[t].Succeeded?;
    }
  }

  lemma {:induction false} SucceededAlone(
    cfg: Config, request: Request, start: State, actions: seq<Action>, r: State, t: ThreadId)
    requires forall loaded :: cfg.decide(t, loaded) == DecideRequest(cfg.contentId, request, loaded)
    requires Sound(cfg.timing) && Init(cfg, start) && t in start.threads
    requires Leads(cfg, start, actions, r) && ByOnly(actions, t) && t in r.threads && r.threads[t].Succeeded?
    ensures match start.fs.View()
            case Some(base) => AnswerableOn(cfg.contentId, request, base)
            case None => LegalCreate(request) || EditsMissing(cfg.contentId, request)
  {
    InitInv(cfg, start);
    RunInv(cfg, start.fs.View(), start, actions);
    OwnChangeIsFirst(cfg, start, actions, t);
    PuttingExactly(cfg.contentId, request);
    var plan := r.threads[t].plan;
    assert Fact(cfg, r.fs, t, r.threads[t]);
    if start.fs.View().Some? {
      OnlyReplaces(cfg, start.fs.View(), start, actions, t);
      ReplacingExactly(cfg.contentId, request, plan.base);
    }
  }
}
