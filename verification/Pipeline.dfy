/**
 * The mutating pipelines as a state machine over one path: server threads that load, decide, lock,
 * write a temporary file, check and rename or link, and an external writer that may step in anywhere
 * except between the last check and the rename.
 */
module Pipeline {
  import opened Numbers
  import opened Protocol
  import opened FileSystem

  type ThreadId = nat

  /** What a request comes to, decided on freshly loaded bytes or on their absence. */
  datatype Verdict = Replacing(content: Bytes) | Creating(content: Bytes) | Putting(content: Bytes) | Refused

  /**
   * The content hash of the process, the clock bounds, and the decision rule of each thread's request.
   * Everything proved about runs holds for every rule; module Requests supplies those of edit and write.
   */
  datatype Config = Config(
    contentId: Bytes -> SnapshotId, timing: Timing, decide: (ThreadId, Option<Bytes>) -> Verdict)

  /** What a thread decided to persist, and what it still expects at the destination. */
  datatype Plan =
    | Overwrite(base: Bytes, stamp: FileStamp, content: Bytes)
    | CreateNew(content: Bytes)
    | PutUnguarded(content: Bytes)

  datatype Phase =
    | Start(attempt: nat)
    | Opened(attempt: nat, fd: InodeId)
    | Reading(attempt: nat, before: FileStamp, bytes: Bytes)
    | ReadDone(attempt: nat, before: FileStamp, bytes: Bytes)
    | Restatted(attempt: nat, before: FileStamp, bytes: Bytes, after: FileStamp)
    | Rereading(attempt: nat, bytes: Bytes, after: FileStamp)
    | Planned(plan: Plan)
    | Locked(plan: Plan)
    | TempReady(plan: Plan, temp: InodeId)
    | Matched(plan: Plan, temp: InodeId)
    | Cleared(plan: Plan, temp: InodeId)
    | Persisted(plan: Plan)
    | Succeeded(plan: Plan)
    | Failed

  /** Changes of what the path holds, in the order they happened. */
  datatype Event =
    | External(view: Option<Bytes>)
    | Swapped(thread: ThreadId, named: SnapshotId, base: Bytes, content: Bytes)
    | Created(thread: ThreadId, content: Bytes)
    | Forced(thread: ThreadId, content: Bytes)

  datatype State = State(fs: Fs, threads: map<ThreadId, Phase>, lock: Option<ThreadId>, log: seq<Event>)

  /** One step of one thread before it holds the path lock. */
  datatype Local =
    | Open
    | StatBefore(clock: Time)
    | Read(count: nat)
    | StatAfter(clock: Time)
    | StatPath
    | Reread
    | Fail

  datatype Outside =
    | Rewrite(k: InodeId, inode: Inode)
    | Point(target: InodeId)
    | Unlink

  /** One step of one thread on its way to the path lock, under it, or out of it. */
  datatype Op =
    | Step(local: Local)
    | Acquire
    | MakeTemp(temp: InodeId, tempTime: int)
    | CheckStamp
    | CheckContent
    | Rename(renameTime: int)
    | Link(linkTime: int)
    | Finish
    | GiveUp

  datatype Action =
    | Elapse(duration: nat)
    | Meddle(outside: Outside)
    | Do(thread: ThreadId, op: Op)

  // ---------------------------------------------------------------- loading and deciding

  /** A second attempt after the first unstable one, then an error. */
  function Retry(attempt: nat): Phase {
    if attempt < MAX_READ_ATTEMPTS then Start(attempt + 1) else Failed
  }

  /** Without a file there is nothing to replace. */
  function Missing(cfg: Config, t: ThreadId): Phase {
    match cfg.decide(t, None)
    case Creating(content) => Planned(CreateNew(content))
    case Putting(content) => Planned(PutUnguarded(content))
    case _ => Failed
  }

  /** A replacement keeps the loaded bytes and stamp as what it expects at the destination. */
  function Loaded(cfg: Config, t: ThreadId, bytes: Bytes, stamp: FileStamp): Phase {
    match cfg.decide(t, Some(bytes))
    case Replacing(content) => Planned(Overwrite(bytes, stamp, content))
    case _ => Failed
  }

  /** One lock-free step of a thread, or none when the step does not apply. */
  function Advance(cfg: Config, fs: Fs, t: ThreadId, phase: Phase, local: Local): Option<Phase> {
    match (local, phase)
    case (Open, Start(attempt)) =>
      if fs.View().Some? then Some(Opened(attempt, fs.path.value)) else Some(Missing(cfg, t))
    case (StatBefore(clock), Opened(attempt, fd)) =>
      if fd in fs.inodes && fs.now <= clock <= fs.now + cfg.timing.bracket then
        var before := Capture(fs, fd, clock);
        Some(if before.len > MAX_FILE_BYTES then Failed else Reading(attempt, before, []))
      else None
    case (Read(count), Reading(attempt, before, bytes)) =>
      if before.identity in fs.inodes && 0 < count <= READ_BUFFER_BYTES then
        var content := fs.inodes[before.identity].content;
        if |content| <= |bytes| then
          Some(ReadDone(attempt, before, bytes))
        else
          var more := bytes + content[|bytes|..Min(|bytes| + count, |content|)];
          Some(if |more| > MAX_FILE_BYTES then Failed else Reading(attempt, before, more))
      else None
    case (StatAfter(clock), ReadDone(attempt, before, bytes)) =>
      if before.identity in fs.inodes && fs.now <= clock <= before.takenAt + cfg.timing.bracket then
        Some(Restatted(attempt, before, bytes, Capture(fs, before.identity, clock)))
      else None
    case (StatPath, Restatted(attempt, before, bytes, after)) =>
      var named := CapturePath(fs, fs.now);
      if before.Same(after) && named.Some? && named.value.Same(after) && |bytes| == after.len then
        if after.racy then Some(Rereading(attempt, bytes, after)) else Some(Loaded(cfg, t, bytes, after))
      else
        Some(Retry(attempt))
    case (Reread, Rereading(attempt, bytes, after)) =>
      if fs.View() == Some(bytes) then Some(Loaded(cfg, t, bytes, after)) else Some(Retry(attempt))
    case (Fail, _) =>
      if phase.Start? || phase.Opened? || phase.Reading? || phase.ReadDone? || phase.Restatted? ||
         phase.Rereading? || phase.Planned?
      then Some(Failed) else None
    case _ => None
  }

  // ---------------------------------------------------------------- the steps

  function LockHolder(s: State): Option<Phase> {
    if s.lock.Some? && s.lock.value in s.threads then Some(s.threads[s.lock.value]) else None
  }

  /** The inode of a temporary file that is still waiting to be renamed or linked. */
  function PendingTemp(s: State): Option<InodeId> {
    match LockHolder(s)
    case Some(TempReady(_, temp)) => Some(temp)
    case Some(Matched(_, temp)) => Some(temp)
    case Some(Cleared(_, temp)) => Some(temp)
    case _ => None
  }

  function ApplyOutside(fs: Fs, outside: Outside): Fs {
    match outside
    case Rewrite(k, inode) => fs.(inodes := fs.inodes[k := inode])
    case Point(target) => fs.(path := Some(target))
    case Unlink => fs.(path := None)
  }

  /** The external writer keeps off temporary files and out of the check-to-rename gap. */
  predicate OutsideAllowed(cfg: Config, s: State, outside: Outside) {
    && (LockHolder(s).Some? ==> !LockHolder(s).value.Cleared?)
    && match outside
       case Rewrite(k, inode) =>
         Some(k) != PendingTemp(s) && inode.changedAt == s.fs.now && Ticks(cfg.timing, s.fs.now, inode.ctime)
       case Point(target) => target in s.fs.inodes && Some(target) != PendingTemp(s)
       case Unlink => true
  }

  function Move(s: State, thread: ThreadId, phase: Phase): State {
    s.(threads := s.threads[thread := phase])
  }

  /** The destination becomes the temporary inode, whose change time ticks. */
  function PutInPlace(fs: Fs, temp: InodeId, ctime: int): Fs
    requires temp in fs.inodes
  {
    fs.(inodes := fs.inodes[temp := fs.inodes[temp].(ctime := ctime, changedAt := fs.now)], path := Some(temp))
  }

  function Commit(s: State, thread: ThreadId, plan: Plan, temp: InodeId, ctime: int, event: Event): State
    requires temp in s.fs.inodes
  {
    Move(s, thread, Persisted(plan)).(fs := PutInPlace(s.fs, temp, ctime), log := s.log + [event])
  }

  function Abort(s: State, thread: ThreadId): State {
    Move(s, thread, Failed).(lock := None)
  }

  /** The identity collides on these two byte strings. */
  predicate Collides(contentId: Bytes -> SnapshotId, a: Bytes, b: Bytes) {
    a != b && contentId(a) == contentId(b)
  }

  /** The state after one step of thread `t`, or none when the step is not possible. */
  function ThreadNext(cfg: Config, s: State, t: ThreadId, op: Op): Option<State>
    requires t in s.threads
  {
    var phase := s.threads[t];
    match op
    case Step(local) =>
      (match Advance(cfg, s.fs, t, phase, local)
       case Some(next) => Some(Move(s, t, next))
       case None => None)
    case Acquire =>
      if phase.Planned? && s.lock == None then Some(Move(s, t, Locked(phase.plan)).(lock := Some(t))) else None
    case MakeTemp(temp, ctime) =>
      if phase.Locked? && s.fs.path != Some(temp) && Ticks(cfg.timing, s.fs.now, ctime) then
        var inode := Inode(phase.plan.content, ctime, ctime, s.fs.now);
        Some(Move(s, t, TempReady(phase.plan, temp)).(fs := s.fs.(inodes := s.fs.inodes[temp := inode])))
      else None
    case CheckStamp =>
      if phase.TempReady? && phase.plan.Overwrite? then
        var current := CapturePath(s.fs, s.fs.now);
        if current.None? || !current.value.Same(phase.plan.stamp) then Some(Abort(s, t))
        else if phase.plan.stamp.racy then Some(Move(s, t, Matched(phase.plan, phase.temp)))
        else Some(Move(s, t, Cleared(phase.plan, phase.temp)))
      else None
    case CheckContent =>
      if phase.Matched? && phase.plan.Overwrite? then
        (match s.fs.View()
         case None => Some(Abort(s, t))
         case Some(content) =>
           var read := Bounded(content, phase.plan.stamp.len);
           if Collides(cfg.contentId, read, phase.plan.base) then None
           else if cfg.contentId(read) == cfg.contentId(phase.plan.base) then
             Some(Move(s, t, Cleared(phase.plan, phase.temp)))
           else Some(Abort(s, t)))
      else None
    case Rename(ctime) =>
      if !Ticks(cfg.timing, s.fs.now, ctime) then None
      else if phase.Cleared? && phase.plan.Overwrite? && phase.temp in s.fs.inodes then
        var event := Swapped(t, cfg.contentId(phase.plan.base), phase.plan.base, phase.plan.content);
        Some(Commit(s, t, phase.plan, phase.temp, ctime, event))
      else if phase.TempReady? && phase.plan.PutUnguarded? && phase.temp in s.fs.inodes then
        Some(Commit(s, t, phase.plan, phase.temp, ctime, Forced(t, phase.plan.content)))
      else None
    case Link(ctime) =>
      if phase.TempReady? && phase.plan.CreateNew? && phase.temp in s.fs.inodes && Ticks(cfg.timing, s.fs.now, ctime)
      then
        if s.fs.path.Some? then Some(Abort(s, t))
        else Some(Commit(s, t, phase.plan, phase.temp, ctime, Created(t, phase.plan.content)))
      else None
    case Finish =>
      if phase.Persisted? && s.lock == Some(t) then Some(Move(s, t, Succeeded(phase.plan)).(lock := None)) else None
    case GiveUp =>
      if s.lock == Some(t) && (phase.Locked? || phase.TempReady? || phase.Matched? || phase.Cleared?)
      then Some(Abort(s, t)) else None
  }

  /** The state after an action, or none when the action is not possible. */
  function Next(cfg: Config, s: State, action: Action): Option<State> {
    match action
    case Elapse(duration) => Some(s.(fs := s.fs.(now := s.fs.now + duration)))
    case Meddle(outside) =>
      if OutsideAllowed(cfg, s, outside) then
        var fs := ApplyOutside(s.fs, outside);
        Some(s.(fs := fs, log := s.log + [External(fs.View())]))
      else None
    case Do(t, op) =>
      if t in s.threads then ThreadNext(cfg, s, t, op) else None
  }

  ghost predicate Init(cfg: Config, s: State) {
    && FsOk(cfg.timing, s.fs)
    && (forall t :: t in s.threads ==> s.threads[t] == Start(1))
    && s.lock == None && s.log == []
  }

  /** A run: the state after a list of possible actions. */
  function Run(cfg: Config, s: State, actions: seq<Action>): Option<State>
    decreases |actions|
  {
    if |actions| == 0 then
      Some(s)
    else
      match Next(cfg, s, actions[0])
      case None => None
      case Some(next) => Run(cfg, next, actions[1..])
  }

  // ---------------------------------------------------------------- the atomic register

  /** What the event does to an atomic compare-and-swap register, or none when the register forbids it. */
  function OnRegister(contentId: Bytes -> SnapshotId, register: Option<Bytes>, event: Event): Option<Option<Bytes>> {
    match event
    case External(view) => Some(view)
    case Swapped(_, named, base, content) =>
      if register == Some(base) && contentId(base) == named then Some(Some(content)) else None
    case Created(_, content) => if register == None then Some(Some(content)) else None
    case Forced(_, content) => Some(Some(content))
  }

  /** The register after a whole log, or none when some event was not allowed. */
  function Replay(contentId: Bytes -> SnapshotId, register: Option<Bytes>, log: seq<Event>): Option<Option<Bytes>> {
    if |log| == 0 then
      Some(register)
    else
      match Replay(contentId, register, log[..|log| - 1])
      case None => None
      case Some(previous) => OnRegister(contentId, previous, log[|log| - 1])
  }

  predicate By(event: Event, thread: ThreadId) {
    !event.External? && event.thread == thread
  }

  function CountBy(log: seq<Event>, thread: ThreadId): nat {
    if |log| == 0 then 0
    else CountBy(log[..|log| - 1], thread) + (if By(log[|log| - 1], thread) then 1 else 0)
  }
}
