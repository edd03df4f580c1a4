/** Safety of the pipelines over every interleaving: the path behaves as an atomic compare-and-swap register. */
module PipelineTheorems {
  import opened Numbers
  import opened Protocol
  import opened FileSystem
  import opened Pipeline

  // ---------------------------------------------------------------- the invariant

  ghost predicate PlanFact(cfg: Config, fs: Fs, t: ThreadId, plan: Plan) {
    match plan
    case Overwrite(base, stamp, content) =>
      && StampOk(cfg.timing, fs, stamp) && |base| == stamp.len
      && (!stamp.racy ==> stamp.seen == base)
      && cfg.decide(t, Some(base)) == Replacing(content)
    case CreateNew(content) => cfg.decide(t, None) == Creating(content)
    case PutUnguarded(content) => cfg.decide(t, None) == Putting(content)
  }

  /** What a thread's local record still says about the file system. */
  ghost predicate Fact(cfg: Config, fs: Fs, t: ThreadId, phase: Phase) {
    match phase
    case Start(_) => true
    case Opened(_, fd) => fd in fs.inodes
    case Reading(_, before, bytes) =>
      && StampOk(cfg.timing, fs, before)
      && (Unchanged(fs, before.identity, before.takenAt) ==> bytes <= fs.inodes[before.identity].content)
    case ReadDone(_, before, bytes) =>
      && StampOk(cfg.timing, fs, before)
      && (Unchanged(fs, before.identity, before.takenAt) ==> bytes == fs.inodes[before.identity].content)
    case Restatted(_, before, bytes, after) =>
      && StampOk(cfg.timing, fs, after)
      && (before.Same(after) && !after.racy ==> bytes == after.seen)
    case Rereading(_, bytes, after) =>
      StampOk(cfg.timing, fs, after) && |bytes| == after.len && after.racy
    case Planned(plan) => PlanFact(cfg, fs, t, plan)
    case Locked(plan) => PlanFact(cfg, fs, t, plan)
    case TempReady(plan, _) => PlanFact(cfg, fs, t, plan)
    case Matched(plan, _) => PlanFact(cfg, fs, t, plan)
    case Cleared(plan, _) => PlanFact(cfg, fs, t, plan)
    case Persisted(plan) => PlanFact(cfg, fs, t, plan)
    case Succeeded(plan) => PlanFact(cfg, fs, t, plan)
    case Failed => true
  }

  predicate Critical(phase: Phase) {
    phase.Locked? || phase.TempReady? || phase.Matched? || phase.Cleared? || phase.Persisted?
  }

  ghost predicate LockFact(s: State) {
    && (forall t :: t in s.threads ==> (Critical(s.threads[t]) <==> s.lock == Some(t)))
    && (s.lock.Some? ==> s.lock.value in s.threads)
  }

  ghost predicate TempFact(fs: Fs, plan: Plan, temp: InodeId) {
    temp in fs.inodes && fs.inodes[temp].content == plan.content && fs.path != Some(temp)
  }

  /** The holder's temporary file is intact; a cleared holder still sees its base at the destination. */
  ghost predicate HolderFact(s: State) {
    match LockHolder(s)
    case Some(TempReady(plan, temp)) => TempFact(s.fs, plan, temp)
    case Some(Matched(plan, temp)) => TempFact(s.fs, plan, temp)
    case Some(Cleared(plan, temp)) =>
      TempFact(s.fs, plan, temp) && plan.Overwrite? && s.fs.View() == Some(plan.base)
    case _ => true
  }

  function EventOf(cfg: Config, t: ThreadId, plan: Plan): Event {
    match plan
    case Overwrite(base, _, content) => Swapped(t, cfg.contentId(base), base, content)
    case CreateNew(content) => Created(t, content)
    case PutUnguarded(content) => Forced(t, content)
  }

  predicate Done(phase: Phase) {
    phase.Persisted? || phase.Succeeded?
  }

  /** A thread has its one event in the log exactly when it persisted. */
  ghost predicate LogFact(cfg: Config, s: State) {
    && (forall t :: CountBy(s.log, t) == (if t in s.threads && Done(s.threads[t]) then 1 else 0))
    && (forall t :: t in s.threads && Done(s.threads[t]) ==> EventOf(cfg, t, s.threads[t].plan) in s.log)
    && (forall e :: e in s.log && !e.External? ==>
          e.thread in s.threads && Done(s.threads[e.thread]) && e == EventOf(cfg, e.thread, s.threads[e.thread].plan))
  }

  ghost predicate Inv(cfg: Config, register: Option<Bytes>, s: State) {
    && FsOk(cfg.timing, s.fs)
    && (forall t :: t in s.threads ==> Fact(cfg, s.fs, t, s.threads[t]))
    && LockFact(s) && HolderFact(s) && LogFact(cfg, s)
    && Replay(cfg.contentId, register, s.log) == Some(s.fs.View())
  }

  lemma InitInv(cfg: Config, s: State)
    requires Init(cfg, s)
    ensures Inv(cfg, s.fs.View(), s)
  {
  }

  // ---------------------------------------------------------------- preservation, part by part

  /** One inode written or renamed now, with a change time that ticks. */
  lemma ChangesInode(timing: Timing, fs: Fs, k: InodeId, inode: Inode, path: Option<InodeId>)
    requires FsOk(timing, fs) && inode.changedAt == fs.now && Ticks(timing, fs.now, inode.ctime)
    requires path.Some? ==> path.value == k || path.value in fs.inodes
    ensures var fs' := fs.(inodes := fs.inodes[k := inode], path := path); FsOk(timing, fs') && Evolves(fs, fs')
  {
  }

  lemma ThreadMovesFs(cfg: Config, s: State, t: ThreadId, op: Op)
    requires FsOk(cfg.timing, s.fs) && t in s.threads && ThreadNext(cfg, s, t, op).Some?
    ensures FsOk(cfg.timing, ThreadNext(cfg, s, t, op).value.fs)
    ensures Evolves(s.fs, ThreadNext(cfg, s, t, op).value.fs)
  {
    var phase := s.threads[t];
    match op
    case MakeTemp(temp, ctime) =>
      ChangesInode(cfg.timing, s.fs, temp, Inode(phase.plan.content, ctime, ctime, s.fs.now), s.fs.path);
    case Rename(ctime) =>
      ChangesInode(cfg.timing, s.fs, phase.temp,
        s.fs.inodes[phase.temp].(ctime := ctime, changedAt := s.fs.now), Some(phase.temp));
    case Link(ctime) =>
      ChangesInode(cfg.timing, s.fs, phase.temp,
        s.fs.inodes[phase.temp].(ctime := ctime, changedAt := s.fs.now), Some(phase.temp));
    case _ =>
  }

  lemma FsMoves(cfg: Config, s: State, action: Action)
    requires FsOk(cfg.timing, s.fs) && Next(cfg, s, action).Some?
    ensures FsOk(cfg.timing, Next(cfg, s, action).value.fs)
    ensures Evolves(s.fs, Next(cfg, s, action).value.fs)
  {
    match action
    case Do(t, op) => ThreadMovesFs(cfg, s, t, op);
    case Meddle(Rewrite(k, inode)) => ChangesInode(cfg.timing, s.fs, k, inode, s.fs.path);
    case _ =>
  }

  lemma FactEvolves(cfg: Config, fs: Fs, fs': Fs, t: ThreadId, phase: Phase)
    requires Fact(cfg, fs, t, phase) && Evolves(fs, fs')
    ensures Fact(cfg, fs', t, phase)
  {
  }

  lemma LoadedFact(cfg: Config, fs: Fs, t: ThreadId, bytes: Bytes, stamp: FileStamp)
    requires StampOk(cfg.timing, fs, stamp) && |bytes| == stamp.len && (!stamp.racy ==> stamp.seen == bytes)
    ensures Fact(cfg, fs, t, Loaded(cfg, t, bytes, stamp))
    ensures !Critical(Loaded(cfg, t, bytes, stamp)) && !Done(Loaded(cfg, t, bytes, stamp))
  {
  }

  lemma AdvanceFact(cfg: Config, fs: Fs, t: ThreadId, phase: Phase, local: Local)
    requires Sound(cfg.timing) && FsOk(cfg.timing, fs) && Fact(cfg, fs, t, phase)
    requires Advance(cfg, fs, t, phase, local).Some?
    ensures var next := Advance(cfg, fs, t, phase, local).value;
      Fact(cfg, fs, t, next) && !Critical(next) && !Done(next)
    ensures !Critical(phase) && !Done(phase)
  {
    match (local, phase)
    case (StatBefore(clock), Opened(attempt, fd)) =>
      CaptureOk(cfg.timing, fs, fd, clock);
    case (StatAfter(clock), ReadDone(attempt, before, bytes)) =>
      ReadBetweenStamps(cfg.timing, fs, before, bytes, clock);
    case (StatPath, Restatted(attempt, before, bytes, after)) =>
      if |bytes| == after.len && before.Same(after) && !after.racy {
        LoadedFact(cfg, fs, t, bytes, after);
      }
    case (Reread, Rereading(attempt, bytes, after)) =>
      LoadedFact(cfg, fs, t, bytes, after);
    case _ =>
  }

  // One step of thread `t`: what it may touch, stated without the other threads.

  lemma OnlyOwnPhase(cfg: Config, s: State, t: ThreadId, op: Op)
    requires t in s.threads && ThreadNext(cfg, s, t, op).Some?
    ensures var s' := ThreadNext(cfg, s, t, op).value;
      t in s'.threads && s'.threads == s.threads[t := s'.threads[t]]
  {
  }

  predicate HasPlan(phase: Phase) {
    phase.Planned? || Critical(phase) || phase.Succeeded?
  }

  /** From planning on, a thread keeps its plan or fails. */
  lemma KeepsPlan(cfg: Config, s: State, t: ThreadId, op: Op)
    requires t in s.threads && ThreadNext(cfg, s, t, op).Some? && !op.Step?
    ensures var s' := ThreadNext(cfg, s, t, op).value;
      && t in s'.threads && HasPlan(s.threads[t])
      && (s'.threads[t].Failed? || (HasPlan(s'.threads[t]) && s'.threads[t].plan == s.threads[t].plan))
  {
  }

  lemma FactOfPlan(cfg: Config, fs: Fs, t: ThreadId, phase: Phase)
    requires HasPlan(phase)
    ensures Fact(cfg, fs, t, phase) <==> PlanFact(cfg, fs, t, phase.plan)
  {
  }

  lemma OwnFact(cfg: Config, s: State, t: ThreadId, op: Op)
    requires t in s.threads && ThreadNext(cfg, s, t, op).Some?
    requires Sound(cfg.timing) && FsOk(cfg.timing, s.fs) && Fact(cfg, s.fs, t, s.threads[t])
    ensures var s' := ThreadNext(cfg, s, t, op).value;
      t in s'.threads && Fact(cfg, s'.fs, t, s'.threads[t])
  {
    var s' := ThreadNext(cfg, s, t, op).value;
    if op.Step? {
      AdvanceFact(cfg, s.fs, t, s.threads[t], op.local);
    } else {
      KeepsPlan(cfg, s, t, op);
      ThreadMovesFs(cfg, s, t, op);
      FactEvolves(cfg, s.fs, s'.fs, t, s.threads[t]);
      FactOfPlan(cfg, s'.fs, t, s.threads[t]);
      if !s'.threads[t].Failed? {
        FactOfPlan(cfg, s'.fs, t, s'.threads[t]);
      }
    }
  }

  lemma OwnLock(cfg: Config, s: State, t: ThreadId, op: Op)
    requires t in s.threads && ThreadNext(cfg, s, t, op).Some?
    requires Sound(cfg.timing) && FsOk(cfg.timing, s.fs) && Fact(cfg, s.fs, t, s.threads[t])
    requires Critical(s.threads[t]) <==> s.lock == Some(t)
    ensures var s' := ThreadNext(cfg, s, t, op).value;
      && t in s'.threads
      && (Critical(s'.threads[t]) <==> s'.lock == Some(t))
      && (s'.lock == s.lock || (s.lock == None && s'.lock == Some(t)) || (s.lock == Some(t) && s'.lock == None))
  {
    if op.Step? {
      AdvanceFact(cfg, s.fs, t, s.threads[t], op.local);
    }
  }

  /** Either nothing visible happened, or exactly the thread's one event did, and the register allows it. */
  lemma OwnEvent(cfg: Config, s: State, t: ThreadId, op: Op)
    requires t in s.threads && ThreadNext(cfg, s, t, op).Some?
    requires Sound(cfg.timing) && FsOk(cfg.timing, s.fs) && Fact(cfg, s.fs, t, s.threads[t])
    requires Critical(s.threads[t]) <==> s.lock == Some(t)
    requires HolderFact(s)
    ensures var s' := ThreadNext(cfg, s, t, op).value;
      && t in s'.threads
      && if s'.log == s.log then
           && s'.fs.View() == s.fs.View()
           && (Done(s'.threads[t]) <==> Done(s.threads[t]))
           && (Done(s.threads[t]) ==> s'.threads[t].plan == s.threads[t].plan)
         else
           && !Done(s.threads[t]) && Done(s'.threads[t])
           && s'.log == s.log + [EventOf(cfg, t, s'.threads[t].plan)]
           && OnRegister(cfg.contentId, s.fs.View(), EventOf(cfg, t, s'.threads[t].plan)) == Some(s'.fs.View())
  {
    if op.Step? {
      AdvanceFact(cfg, s.fs, t, s.threads[t], op.local);
    }
  }

  /** The non-racy check proves the base by metadata; the racy one by content. */
  lemma CheckClears(cfg: Config, s: State, t: ThreadId, op: Op)
    requires t in s.threads && ThreadNext(cfg, s, t, op).Some?
    requires Sound(cfg.timing) && FsOk(cfg.timing, s.fs) && Fact(cfg, s.fs, t, s.threads[t])
    requires op.CheckStamp? || op.CheckContent?
    ensures var s' := ThreadNext(cfg, s, t, op).value;
      t in s'.threads && (s'.threads[t].Cleared? ==> s.fs.View() == Some(s.threads[t].plan.base))
  {
    var plan := s.threads[t].plan;
    if op.CheckStamp? && !plan.stamp.racy && CapturePath(s.fs, s.fs.now).Some?
       && plan.stamp.Same(CapturePath(s.fs, s.fs.now).value) {
      NonRacyStampProves(cfg.timing, s.fs, plan.stamp, s.fs.now);
    }
    if op.CheckContent? && s.fs.View().Some? && Bounded(s.fs.View().value, plan.stamp.len) == plan.base {
      assert s.fs.View().value == plan.base;
    }
  }

  lemma OwnHolder(cfg: Config, s: State, t: ThreadId, op: Op)
    requires t in s.threads && ThreadNext(cfg, s, t, op).Some?
    requires Sound(cfg.timing) && FsOk(cfg.timing, s.fs) && Fact(cfg, s.fs, t, s.threads[t])
    requires Critical(s.threads[t]) <==> s.lock == Some(t)
    requires HolderFact(s)
    ensures HolderFact(ThreadNext(cfg, s, t, op).value)
  {
    match op
    case Step(local) => AdvanceFact(cfg, s.fs, t, s.threads[t], local);
    case CheckStamp => CheckClears(cfg, s, t, op);
    case CheckContent => CheckClears(cfg, s, t, op);
    case _ =>
  }

  // ---------------------------------------------------------------- preservation, whole state

  lemma ReplayAppend(contentId: Bytes -> SnapshotId, register: Option<Bytes>, log: seq<Event>, event: Event)
    ensures Replay(contentId, register, log + [event]) ==
      match Replay(contentId, register, log)
      case None => None
      case Some(previous) => OnRegister(contentId, previous, event)
  {
    assert (log + [event])[..|log|] == log;
  }

  lemma CountAppend(log: seq<Event>, event: Event, t: ThreadId)
    ensures CountBy(log + [event], t) == CountBy(log, t) + (if By(event, t) then 1 else 0)
  {
    assert (log + [event])[..|log|] == log;
  }

  lemma LogAppend(cfg: Config, s: State, s': State, t: ThreadId)
    requires LogFact(cfg, s) && t in s.threads && !Done(s.threads[t])
    requires t in s'.threads && s'.threads == s.threads[t := s'.threads[t]] && Done(s'.threads[t])
    requires s'.log == s.log + [EventOf(cfg, t, s'.threads[t].plan)]
    ensures LogFact(cfg, s')
  {
    forall u ensures CountBy(s'.log, u) == CountBy(s.log, u) + (if u == t then 1 else 0) {
      CountAppend(s.log, EventOf(cfg, t, s'.threads[t].plan), u);
    }
  }

  /** What a thread's step does to the file system, the lock and the log, given by its end state alone. */
  ghost predicate OwnStep(cfg: Config, s: State, s': State, t: ThreadId) {
    && t in s.threads && t in s'.threads && s'.threads == s.threads[t := s'.threads[t]]
    && FsOk(cfg.timing, s'.fs) && Evolves(s.fs, s'.fs)
    && Fact(cfg, s'.fs, t, s'.threads[t]) && HolderFact(s')
    && (Critical(s'.threads[t]) <==> s'.lock == Some(t))
    && (s'.lock == s.lock || (s.lock == None && s'.lock == Some(t)) || (s.lock == Some(t) && s'.lock == None))
    && if s'.log == s.log then
         && s'.fs.View() == s.fs.View()
         && (Done(s'.threads[t]) <==> Done(s.threads[t]))
         && (Done(s.threads[t]) ==> s'.threads[t].plan == s.threads[t].plan)
       else
         && !Done(s.threads[t]) && Done(s'.threads[t])
         && s'.log == s.log + [EventOf(cfg, t, s'.threads[t].plan)]
         && OnRegister(cfg.contentId, s.fs.View(), EventOf(cfg, t, s'.threads[t].plan)) == Some(s'.fs.View())
  }

  lemma FactsKept(cfg: Config, register: Option<Bytes>, s: State, s': State, t: ThreadId)
    requires Inv(cfg, register, s) && OwnStep(cfg, s, s', t)
    ensures forall u :: u in s'.threads ==> Fact(cfg, s'.fs, u, s'.threads[u])
  {
    forall u | u in s'.threads
      ensures Fact(cfg, s'.fs, u, s'.threads[u])
    {
      if u != t {
        FactEvolves(cfg, s.fs, s'.fs, u, s.threads[u]);
      }
    }
  }

  lemma LogKept(cfg: Config, register: Option<Bytes>, s: State, s': State, t: ThreadId)
    requires LogFact(cfg, s) && Replay(cfg.contentId, register, s.log) == Some(s.fs.View())
    requires OwnStep(cfg, s, s', t)
    ensures LogFact(cfg, s') && Replay(cfg.contentId, register, s'.log) == Some(s'.fs.View())
  {
    if s'.log != s.log {
      ReplayAppend(cfg.contentId, register, s.log, EventOf(cfg, t, s'.threads[t].plan));
      LogAppend(cfg, s, s', t);
    }
  }

  lemma LockKept(cfg: Config, s: State, s': State, t: ThreadId)
    requires LockFact(s) && OwnStep(cfg, s, s', t)
    ensures LockFact(s')
  {
  }

  lemma OwnStepKeeps(cfg: Config, register: Option<Bytes>, s: State, s': State, t: ThreadId)
    requires Inv(cfg, register, s) && OwnStep(cfg, s, s', t)
    ensures Inv(cfg, register, s')
  {
    FactsKept(cfg, register, s, s', t);
    LockKept(cfg, s, s', t);
    LogKept(cfg, register, s, s', t);
  }

  lemma ThreadStepInv(cfg: Config, register: Option<Bytes>, s: State, t: ThreadId, op: Op)
    requires Sound(cfg.timing) && Inv(cfg, register, s)
    requires t in s.threads && ThreadNext(cfg, s, t, op).Some?
    ensures Inv(cfg, register, ThreadNext(cfg, s, t, op).value)
  {
    ThreadMovesFs(cfg, s, t, op);
    OnlyOwnPhase(cfg, s, t, op);
    OwnFact(cfg, s, t, op);
    OwnLock(cfg, s, t, op);
    OwnEvent(cfg, s, t, op);
    OwnHolder(cfg, s, t, op);
    OwnStepKeeps(cfg, register, s, ThreadNext(cfg, s, t, op).value, t);
  }

  lemma OutsideInv(cfg: Config, register: Option<Bytes>, s: State, outside: Outside)
    requires Inv(cfg, register, s) && OutsideAllowed(cfg, s, outside)
    ensures Inv(cfg, register, Next(cfg, s, Meddle(outside)).value)
  {
    var s' := Next(cfg, s, Meddle(outside)).value;
    FsMoves(cfg, s, Meddle(outside));
    forall u | u in s'.threads
      ensures Fact(cfg, s'.fs, u, s'.threads[u])
    {
      FactEvolves(cfg, s.fs, s'.fs, u, s.threads[u]);
    }
    ReplayAppend(cfg.contentId, register, s.log, External(s'.fs.View()));
    forall u ensures CountBy(s'.log, u) == CountBy(s.log, u) {
      CountAppend(s.log, External(s'.fs.View()), u);
    }
  }

  lemma StepInv(cfg: Config, register: Option<Bytes>, s: State, action: Action)
    requires Sound(cfg.timing) && Inv(cfg, register, s) && Next(cfg, s, action).Some?
    ensures Inv(cfg, register, Next(cfg, s, action).value)
  {
    match action
    case Elapse(_) =>
      var s' := Next(cfg, s, action).value;
      FsMoves(cfg, s, action);
      forall u | u in s'.threads
        ensures Fact(cfg, s'.fs, u, s'.threads[u])
      {
        FactEvolves(cfg, s.fs, s'.fs, u, s.threads[u]);
      }
    case Meddle(outside) => OutsideInv(cfg, register, s, outside);
    case Do(t, op) => ThreadStepInv(cfg, register, s, t, op);
  }

  lemma {:induction false} RunInv(cfg: Config, register: Option<Bytes>, s: State, actions: seq<Action>)
    requires Sound(cfg.timing) && Inv(cfg, register, s) && Run(cfg, s, actions).Some?
    ensures Inv(cfg, register, Run(cfg, s, actions).value)
    decreases |actions|
  {
    if |actions| != 0 {
      StepInv(cfg, register, s, actions[0]);
      RunInv(cfg, register, Next(cfg, s, actions[0]).value, actions[1..]);
    }
  }

  // ---------------------------------------------------------------- main results on runs

  /**
   * Over every interleaving the path is an atomic compare-and-swap register: the log of a run is a
   * legal history of that register, and it ends in exactly what the path holds.
   */
  lemma PathIsCasRegister(cfg: Config, start: State, actions: seq<Action>)
    requires Sound(cfg.timing) && Init(cfg, start) && Run(cfg, start, actions).Some?
    ensures var end := Run(cfg, start, actions).value;
      Replay(cfg.contentId, start.fs.View(), end.log) == Some(end.fs.View())
  {
    InitInv(cfg, start);
    RunInv(cfg, start.fs.View(), start, actions);
  }

  /** A legal history is legal up to every point. */
  lemma {:induction false} ReplayPrefix(
    contentId: Bytes -> SnapshotId, register: Option<Bytes>, log: seq<Event>, i: nat)
    requires Replay(contentId, register, log).Some? && i <= |log|
    ensures Replay(contentId, register, log[..i]).Some?
    ensures i < |log| ==>
      Replay(contentId, register, log[..i + 1]) ==
      OnRegister(contentId, Replay(contentId, register, log[..i]).value, log[i]) &&
      Replay(contentId, register, log[..i + 1]).Some?
    decreases |log|
  {
    if i < |log| {
      assert log[..i + 1][..i] == log[..i];
      if i + 1 == |log| {
        assert log[..i + 1] == log;
      } else {
        var shorter := log[..|log| - 1];
        ReplayPrefix(contentId, register, shorter, i);
        assert shorter[..i] == log[..i] && shorter[..i + 1] == log[..i + 1];
      }
    } else {
      assert log[..i] == log;
    }
  }

  /** Every replacement swapped out exactly the bytes it was decided on, and its content is that decision. */
  lemma ReplacementSwapsItsBase(cfg: Config, start: State, actions: seq<Action>, i: nat)
    requires Sound(cfg.timing) && Init(cfg, start) && Run(cfg, start, actions).Some?
    requires i < |Run(cfg, start, actions).value.log| && Run(cfg, start, actions).value.log[i].Swapped?
    ensures var log := Run(cfg, start, actions).value.log;
      && Replay(cfg.contentId, start.fs.View(), log[..i]) == Some(Some(log[i].base))
      && log[i].named == cfg.contentId(log[i].base)
      && cfg.decide(log[i].thread, Some(log[i].base)) == Replacing(log[i].content)
  {
    InitInv(cfg, start);
    RunInv(cfg, start.fs.View(), start, actions);
    var end := Run(cfg, start, actions).value;
    ReplayPrefix(cfg.contentId, start.fs.View(), end.log, i);
    assert end.log[i] in end.log;
    assert Fact(cfg, end.fs, end.log[i].thread, end.threads[end.log[i].thread]);
  }

  lemma {:induction false} CountZero(log: seq<Event>, t: ThreadId)
    ensures CountBy(log, t) == 0 <==> forall e :: e in log ==> !By(e, t)
  {
    if |log| != 0 {
      var init, last := log[..|log| - 1], log[|log| - 1];
      CountZero(init, t);
      assert log == init + [last];
      assert last in log;
    }
  }

  /** A failed request changed nothing; a successful one changed the path exactly once, as it reports. */
  lemma OutcomeIsTruthful(cfg: Config, start: State, actions: seq<Action>, t: ThreadId)
    requires Sound(cfg.timing) && Init(cfg, start) && Run(cfg, start, actions).Some? && t in start.threads
    ensures var end := Run(cfg, start, actions).value;
      && t in end.threads
      && (end.threads[t].Failed? ==> forall e :: e in end.log ==> !By(e, t))
      && (end.threads[t].Succeeded? ==>
            CountBy(end.log, t) == 1 && EventOf(cfg, t, end.threads[t].plan) in end.log)
  {
    InitInv(cfg, start);
    RunInv(cfg, start.fs.View(), start, actions);
    ThreadsKept(cfg, start, actions);
    CountZero(Run(cfg, start, actions).value.log, t);
  }

  lemma {:induction false} ThreadsKept(cfg: Config, s: State, actions: seq<Action>)
    requires Run(cfg, s, actions).Some?
    ensures Run(cfg, s, actions).value.threads.Keys == s.threads.Keys
    decreases |actions|
  {
    if |actions| != 0 {
      if actions[0].Do? {
        OnlyOwnPhase(cfg, s, actions[0].thread, actions[0].op);
      }
      ThreadsKept(cfg, Next(cfg, s, actions[0]).value, actions[1..]);
    }
  }

  // ---------------------------------------------------------------- exclusive creation

  /** Nobody outside removes the file: an outside event that leaves nothing found nothing. */
  ghost predicate NeverDeleted(contentId: Bytes -> SnapshotId, register: Option<Bytes>, log: seq<Event>) {
    forall i {:trigger log[i]} :: 0 <= i < |log| && log[i] == External(None) ==>
      Replay(contentId, register, log[..i]) == Some(None)
  }

  lemma {:induction false} OncePresentAlwaysPresent(
    contentId: Bytes -> SnapshotId, register: Option<Bytes>, log: seq<Event>, i: nat, j: nat)
    requires Replay(contentId, register, log).Some? && NeverDeleted(contentId, register, log)
    requires i <= j <= |log| && Replay(contentId, register, log[..i]) != Some(None)
    ensures Replay(contentId, register, log[..j]).Some? && Replay(contentId, register, log[..j]).value.Some?
    decreases j - i
  {
    if i == j {
      ReplayPrefix(contentId, register, log, j);
    } else {
      OncePresentAlwaysPresent(contentId, register, log, i, j - 1);
      ReplayPrefix(contentId, register, log, j - 1);
      assert log[j - 1] != External(None);
    }
  }

  /** In a legal history without deletions at most one create succeeds, and nothing came before it. */
  lemma CreateIsFirst(contentId: Bytes -> SnapshotId, register: Option<Bytes>, log: seq<Event>, j: nat)
    requires Replay(contentId, register, log).Some? && NeverDeleted(contentId, register, log)
    requires j < |log| && log[j].Created?
    ensures register == None
    ensures forall i :: 0 <= i < j ==> log[i] == External(None)
    ensures forall i :: 0 <= i < |log| && i != j ==> !log[i].Created?
  {
    ReplayPrefix(contentId, register, log, j);
    forall i | 0 <= i < j
      ensures log[i] == External(None)
    {
      MissingUntil(contentId, register, log, i, j);
      MissingUntil(contentId, register, log, i + 1, j);
      ReplayPrefix(contentId, register, log, i);
    }
    MissingUntil(contentId, register, log, 0, j);
    forall i | j < i < |log|
      ensures !log[i].Created?
    {
      OncePresentAlwaysPresent(contentId, register, log, j + 1, i);
      ReplayPrefix(contentId, register, log, i);
    }
  }

  /** A path that is missing was missing all along. */
  lemma MissingUntil(contentId: Bytes -> SnapshotId, register: Option<Bytes>, log: seq<Event>, i: nat, j: nat)
    requires Replay(contentId, register, log).Some? && NeverDeleted(contentId, register, log)
    requires i <= j <= |log| && Replay(contentId, register, log[..j]) == Some(None)
    ensures Replay(contentId, register, log[..i]) == Some(None)
  {
    if Replay(contentId, register, log[..i]) != Some(None) {
      OncePresentAlwaysPresent(contentId, register, log, i, j);
    }
  }

  /** Two creates of one path never both succeed while nobody deletes it, and the one that does comes first. */
  lemma ExclusiveCreate(cfg: Config, start: State, actions: seq<Action>, t: ThreadId, u: ThreadId)
    returns (at: nat)
    requires Sound(cfg.timing) && Init(cfg, start) && Run(cfg, start, actions).Some?
    requires NeverDeleted(cfg.contentId, start.fs.View(), Run(cfg, start, actions).value.log)
    requires var end := Run(cfg, start, actions).value;
      && t in end.threads && Done(end.threads[t]) && end.threads[t].plan.CreateNew?
      && u in end.threads && Done(end.threads[u]) && end.threads[u].plan.CreateNew?
    ensures t == u && start.fs.View() == None
    ensures var end := Run(cfg, start, actions).value;
      && at < |end.log| && (forall i :: 0 <= i < at ==> end.log[i] == External(None))
      && end.log[at] == Created(t, end.threads[t].plan.content)
      && Replay(cfg.contentId, None, end.log[..at + 1]) == Some(Some(end.threads[t].plan.content))
  {
    InitInv(cfg, start);
    RunInv(cfg, start.fs.View(), start, actions);
    var end := Run(cfg, start, actions).value;
    var et, eu := EventOf(cfg, t, end.threads[t].plan), EventOf(cfg, u, end.threads[u].plan);
    assert et in end.log && eu in end.log;
    at :| 0 <= at < |end.log| && end.log[at] == et;
    var j :| 0 <= j < |end.log| && end.log[j] == eu;
    CreateIsFirst(cfg.contentId, start.fs.View(), end.log, at);
    ReplayPrefix(cfg.contentId, start.fs.View(), end.log, at);
  }

  /** On a path that starts absent and only creates and guarded replacements touch, the first content is a create's. */
  lemma FirstContentIsCreated(cfg: Config, start: State, actions: seq<Action>)
    requires Sound(cfg.timing) && Init(cfg, start) && Run(cfg, start, actions).Some?
    requires start.fs.View() == None
    requires forall e :: e in Run(cfg, start, actions).value.log ==> e.Created? || e.Swapped?
    ensures var log := Run(cfg, start, actions).value.log;
      |log| > 0 ==> log[0].Created? && forall i :: 0 < i < |log| ==> log[i].Swapped?
  {
    PathIsCasRegister(cfg, start, actions);
    var log := Run(cfg, start, actions).value.log;
    if |log| > 0 {
      ReplayPrefix(cfg.contentId, None, log, 0);
      assert log[0] in log;
      CreateIsFirst(cfg.contentId, None, log, 0);
      assert forall i :: 0 <= i < |log| ==> log[i] in log;
    }
  }
}
