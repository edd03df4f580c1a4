/** What concurrent callers of the cache get, that every call ends, and what is left once all have ended. */
module FlightRuns {
  import opened Numbers
  import opened SingleFlight

  // ---------------------------------------------------------------- what a step leaves alone

  lemma {:induction false} OthersStay(cfg: Config, s: State, t: ThreadId, op: Op)
    requires t in s.threads && ThreadNext(cfg, s, t, op).Some?
    ensures var r := ThreadNext(cfg, s, t, op).value;
      t in r.threads && r.threads == s.threads[t := r.threads[t]]
  {
  }

  /** The cell a thread works on, or the one it makes next. */
  function OwnCell(s: State, t: ThreadId): CellId
    requires t in s.threads
  {
    if s.threads[t].HasCell() then s.threads[t].cell else |s.cells|
  }

  /** Other threads' phases and cells are as they were. */
  ghost predicate Beside(s: State, r: State, t: ThreadId, c: CellId) {
    && |s.cells| <= |r.cells|
    && (forall u :: u in s.threads && u != t ==> u in r.threads && r.threads[u] == s.threads[u])
    && (forall d :: 0 <= d < |s.cells| && d != c ==> r.cells[d] == s.cells[d])
  }

  lemma {:induction false} StepIsBeside(cfg: Config, s: State, t: ThreadId, op: Op)
    requires t in s.threads && ThreadNext(cfg, s, t, op).Some?
    ensures Beside(s, ThreadNext(cfg, s, t, op).value, t, OwnCell(s, t))
  {
    OthersStay(cfg, s, t, op);
  }

  // ---------------------------------------------------------------- where answers come from

  /** Some load of the path ended with this outcome. */
  ghost predicate Given(s: State, path: Path, outcome: Outcome) {
    exists c :: 0 <= c < |s.cells| && s.cells[c].path == path && outcome in s.cells[c].results
  }

  ghost predicate AnswersGiven(s: State) {
    && (forall p :: p in s.resident ==> Given(s, p, Loaded(s.resident[p])))
    && forall t :: t in s.threads && s.threads[t].Returned? ==> Given(s, s.threads[t].path, s.threads[t].outcome)
  }

  /** Cells stay their path's, and no result of theirs is lost. */
  ghost predicate ResultsKept(s: State, r: State) {
    && |s.cells| <= |r.cells|
    && forall c :: 0 <= c < |s.cells| ==>
         r.cells[c].path == s.cells[c].path && forall o :: o in s.cells[c].results ==> o in r.cells[c].results
  }

  lemma {:induction false} StillGiven(s: State, r: State, path: Path, outcome: Outcome)
    requires ResultsKept(s, r) && Given(s, path, outcome)
    ensures Given(r, path, outcome)
  {
    var c :| 0 <= c < |s.cells| && s.cells[c].path == path && outcome in s.cells[c].results;
    assert r.cells[c].path == path && outcome in r.cells[c].results;
  }

  lemma {:induction false} OwnResultsKept(cfg: Config, s: State, t: ThreadId, op: Op)
    requires t in s.threads && ThreadNext(cfg, s, t, op).Some? && OwnCell(s, t) < |s.cells|
    ensures var r, c := ThreadNext(cfg, s, t, op).value, OwnCell(s, t);
      c < |r.cells| && r.cells[c].path == s.cells[c].path && s.cells[c].results <= r.cells[c].results
  {
  }

  lemma {:induction false} StepKeepsResults(cfg: Config, s: State, action: Action)
    requires Next(cfg, s, action).Some?
    ensures ResultsKept(s, Next(cfg, s, action).value)
  {
    if action.Do? {
      StepIsBeside(cfg, s, action.thread, action.op);
      if OwnCell(s, action.thread) < |s.cells| {
        OwnResultsKept(cfg, s, action.thread, action.op);
      }
    }
  }

  /** A thread returns what a load of its path gave. */
  lemma {:induction false} OwnAnswerGiven(cfg: Config, s: State, t: ThreadId, op: Op)
    requires Inv(cfg, s) && AnswersGiven(s) && t in s.threads && ThreadNext(cfg, s, t, op).Some?
    ensures var r := ThreadNext(cfg, s, t, op).value;
      t in r.threads && (r.threads[t].Returned? ==> Given(s, r.threads[t].path, r.threads[t].outcome))
  {
    var phase := s.threads[t];
    assert ThreadOk(cfg, s, t);
    if (op.Examine? || op.Remove?) && phase.HasCell() {
      assert CellOk(cfg, s, phase.cell);
      assert s.cells[phase.cell].state.Ready? ==> s.cells[phase.cell].state.outcome in s.cells[phase.cell].results;
    }
  }

  /** It leaves resident what was resident, or what a load of its path gave. */
  lemma {:induction false} OwnResidentGiven(cfg: Config, s: State, t: ThreadId, op: Op, p: Path)
    requires Inv(cfg, s) && AnswersGiven(s) && t in s.threads && ThreadNext(cfg, s, t, op).Some?
    requires p in ThreadNext(cfg, s, t, op).value.resident
    ensures Given(s, p, Loaded(ThreadNext(cfg, s, t, op).value.resident[p]))
  {
    var phase := s.threads[t];
    assert ThreadOk(cfg, s, t);
    if op.Insert? && phase.path == p {
      assert phase.outcome in s.cells[phase.cell].results;
    }
  }

  lemma {:induction false} StepGives(cfg: Config, s: State, action: Action)
    requires Inv(cfg, s) && AnswersGiven(s) && Next(cfg, s, action).Some?
    ensures AnswersGiven(Next(cfg, s, action).value)
  {
    var r := Next(cfg, s, action).value;
    StepKeepsResults(cfg, s, action);
    if action.Do? {
      OwnAnswerGiven(cfg, s, action.thread, action.op);
      OthersStay(cfg, s, action.thread, action.op);
    }
    forall p | p in r.resident
      ensures Given(r, p, Loaded(r.resident[p]))
    {
      if action.Do? {
        OwnResidentGiven(cfg, s, action.thread, action.op, p);
      }
      StillGiven(s, r, p, Loaded(r.resident[p]));
    }
    forall t | t in r.threads && r.threads[t].Returned?
      ensures Given(r, r.threads[t].path, r.threads[t].outcome)
    {
      StillGiven(s, r, r.threads[t].path, r.threads[t].outcome);
    }
  }

  lemma {:induction false} RunGives(cfg: Config, s: State, actions: seq<Action>)
    requires Inv(cfg, s) && AnswersGiven(s) && Run(cfg, s, actions).Some?
    ensures AnswersGiven(Run(cfg, s, actions).value)
    decreases |actions|
  {
    if |actions| > 0 {
      StepInv(cfg, s, actions[0]);
      StepGives(cfg, s, actions[0]);
      RunGives(cfg, Next(cfg, s, actions[0]).value, actions[1..]);
    }
  }

  /** From an empty cache, every resident and every answer, hits included, is the result of a load of its path. */
  lemma AnswersComeFromLoads(cfg: Config, init: State, actions: seq<Action>, s: State)
    requires Reachable(cfg, init, actions, s) && init.resident == map[]
    ensures forall p :: p in s.resident ==> Given(s, p, Loaded(s.resident[p]))
    ensures forall t :: t in s.threads && s.threads[t].Returned? ==>
      Given(s, s.threads[t].path, s.threads[t].outcome)
  {
    RunGives(cfg, init, actions);
  }

  // ---------------------------------------------------------------- which path a call answers for

  /** A step of a thread inside a call stays with the path the call asked for. */
  lemma {:induction false} CallKeepsItsPath(cfg: Config, s: State, t: ThreadId, op: Op)
    requires Inv(cfg, s) && t in s.threads && ThreadNext(cfg, s, t, op).Some?
    ensures var r := ThreadNext(cfg, s, t, op).value;
      && t in r.threads && !r.threads[t].Idle?
      && r.threads[t].path == match op case Call(path) => path case _ => s.threads[t].path
  {
    assert ThreadOk(cfg, s, t);
  }

  // ---------------------------------------------------------------- every call ends

  /** Steps a call may still take. */
  function Left(phase: Phase): nat {
    match phase
    case Idle => 0
    case Claiming(_) => 10
    case Claimed(_) => 9
    case Joining(_, _) => 8
    case Examining(_, _) => 7
    case Loading(_, _) => 6
    case ToInsert(_, _, _) => 5
    case Inserting(_, _, _) => 4
    case ToPublish(_, _, _) => 3
    case ToRemove(_, _, _) => 2
    case Removing(_, _, _) => 1
    case Returned(_, _) => 0
  }

  ghost function Work(threads: map<ThreadId, Phase>): nat
    decreases |threads|
  {
    if threads == map[] then
      0
    else
      var t :| t in threads;
      Left(threads[t]) + Work(threads - {t})
  }

  lemma {:induction false} WorkOf(threads: map<ThreadId, Phase>, t: ThreadId)
    requires t in threads
    ensures Work(threads) == Left(threads[t]) + Work(threads - {t})
    decreases |threads|
  {
    var u :| u in threads && Work(threads) == Left(threads[u]) + Work(threads - {u});
    if u != t {
      assert threads - {u} - {t} == threads - {t} - {u};
      WorkOf(threads - {u}, t);
      WorkOf(threads - {t}, u);
    }
  }

  /** Every step inside a call leaves it fewer. */
  lemma {:induction false} StepLeavesLess(cfg: Config, s: State, t: ThreadId, op: Op)
    requires t in s.threads && !op.Call? && ThreadNext(cfg, s, t, op).Some?
    ensures var r := ThreadNext(cfg, s, t, op).value;
      t in r.threads && Left(r.threads[t]) < Left(s.threads[t])
  {
  }

  lemma {:induction false} StepDoesWork(cfg: Config, s: State, t: ThreadId, op: Op)
    requires t in s.threads && !op.Call? && ThreadNext(cfg, s, t, op).Some?
    ensures Work(ThreadNext(cfg, s, t, op).value.threads) < Work(s.threads)
  {
    var r := ThreadNext(cfg, s, t, op).value;
    OthersStay(cfg, s, t, op);
    StepLeavesLess(cfg, s, t, op);
    WorkOf(s.threads, t);
    WorkOf(r.threads, t);
    assert r.threads - {t} == s.threads - {t};
  }

  /** Only steps of calls that are already under way. */
  predicate NoNewCalls(actions: seq<Action>) {
    forall i :: 0 <= i < |actions| ==> actions[i].Do? && !actions[i].op.Call?
  }

  lemma {:induction false} RunDoesWork(cfg: Config, s: State, actions: seq<Action>)
    requires Run(cfg, s, actions).Some? && NoNewCalls(actions)
    ensures |actions| + Work(Run(cfg, s, actions).value.threads) <= Work(s.threads)
    decreases |actions|
  {
    if |actions| > 0 {
      StepDoesWork(cfg, s, actions[0].thread, actions[0].op);
      RunDoesWork(cfg, Next(cfg, s, actions[0]).value, actions[1..]);
    }
  }

  /** No thread is inside a call. */
  predicate Quiet(s: State) {
    forall t :: t in s.threads ==> s.threads[t].Idle? || s.threads[t].Returned?
  }

  /**
   * Every call ends: however the calls under way are scheduled, they take no more steps than they have left, and as
   * long as one of them has not returned, some thread can take a step.
   */
  lemma CallsEnd(cfg: Config, init: State, before: seq<Action>, s: State, actions: seq<Action>, r: State)
    requires Reachable(cfg, init, before, s) && Run(cfg, s, actions) == Some(r) && NoNewCalls(actions)
    ensures |actions| <= Work(s.threads)
    ensures Quiet(r) || exists t, op: Op :: !op.Call? && t in r.threads && ThreadNext(cfg, r, t, op).Some?
  {
    RunDoesWork(cfg, s, actions);
    RunOn(cfg, init, before, actions);
    if !Quiet(r) {
      var t :| t in r.threads && !r.threads[t].Idle? && !r.threads[t].Returned?;
      NoDeadlock(cfg, init, before + actions, r, t);
      var u :| u in r.threads && CanStep(cfg, r, u) && Next(cfg, r, Do(u, NextOp(r.threads[u]))).Some?;
      assert !NextOp(r.threads[u]).Call? && ThreadNext(cfg, r, u, NextOp(r.threads[u])).Some?;
    }
  }

  // ---------------------------------------------------------------- what is left

  /** Some thread waits to lock the cell. */
  ghost predicate Awaited(s: State, c: CellId) {
    exists t :: t in s.threads && s.threads[t].Joining? && s.threads[t].cell == c
  }

  /** A published cell is in flight only until its loader takes it out; a pending one is awaited or held. */
  ghost predicate UnderWay(s: State, c: CellId)
    requires c < |s.cells|
  {
    var cell := s.cells[c];
    if cell.state.Pending? then
      cell.holder.Some? || Awaited(s, c)
    else
      && cell.holder.Some? && cell.holder.value in s.threads
      && (s.threads[cell.holder.value].ToRemove? || s.threads[cell.holder.value].Removing?)
  }

  ghost predicate PendingUnderWay(s: State) {
    forall c :: 0 <= c < |s.cells| && s.cells[c].state.Pending? ==> UnderWay(s, c)
  }

  ghost predicate FlightsUnderWay(s: State) {
    forall p :: p in s.inflight ==> s.inflight[p] < |s.cells| && UnderWay(s, s.inflight[p])
  }

  lemma {:induction false} OtherUnderWay(cfg: Config, s: State, r: State, t: ThreadId, c: CellId)
    requires Inv(cfg, s) && t in s.threads && Beside(s, r, t, OwnCell(s, t))
    requires c < |s.cells| && c != OwnCell(s, t) && UnderWay(s, c)
    ensures UnderWay(r, c)
  {
    assert CellOk(cfg, s, c);
    if s.cells[c].state.Pending? && s.cells[c].holder.None? {
      var u :| u in s.threads && s.threads[u].Joining? && s.threads[u].cell == c;
      assert r.threads[u] == s.threads[u];
    }
  }

  lemma {:induction false} OwnUnderWay(cfg: Config, s: State, t: ThreadId, op: Op)
    requires Inv(cfg, s) && t in s.threads && ThreadNext(cfg, s, t, op).Some? && !op.Remove?
    requires s.threads[t].HasCell() && s.threads[t].cell < |s.cells| && UnderWay(s, s.threads[t].cell)
    ensures UnderWay(ThreadNext(cfg, s, t, op).value, s.threads[t].cell)
  {
    assert ThreadOk(cfg, s, t) && CellOk(cfg, s, s.threads[t].cell);
  }

  lemma {:induction false} StaysUnderWay(cfg: Config, s: State, t: ThreadId, op: Op, c: CellId)
    requires Inv(cfg, s) && t in s.threads && ThreadNext(cfg, s, t, op).Some?
    requires c < |s.cells| && UnderWay(s, c) && !(op.Remove? && s.threads[t].cell == c)
    ensures c < |ThreadNext(cfg, s, t, op).value.cells| && UnderWay(ThreadNext(cfg, s, t, op).value, c)
  {
    StepIsBeside(cfg, s, t, op);
    if c == OwnCell(s, t) {
      OwnUnderWay(cfg, s, t, op);
    } else {
      OtherUnderWay(cfg, s, ThreadNext(cfg, s, t, op).value, t, c);
    }
  }

  /** A cell that is pending after a step was pending before it, or has just been made for the thread to join. */
  lemma {:induction false} PendingBefore(cfg: Config, s: State, t: ThreadId, op: Op, c: CellId)
    requires Inv(cfg, s) && t in s.threads && ThreadNext(cfg, s, t, op).Some?
    requires c < |ThreadNext(cfg, s, t, op).value.cells| && ThreadNext(cfg, s, t, op).value.cells[c].state.Pending?
    ensures if c < |s.cells| then s.cells[c].state.Pending? && !(op.Remove? && s.threads[t].cell == c)
            else UnderWay(ThreadNext(cfg, s, t, op).value, c)
  {
    var r := ThreadNext(cfg, s, t, op).value;
    assert ThreadOk(cfg, s, t);
    if c >= |s.cells| {
      assert r.threads[t].Joining? && r.threads[t].cell == c;
    }
  }

  /** A cell in flight after a step was so before it, or has just been made. */
  lemma {:induction false} InflightBefore(cfg: Config, s: State, t: ThreadId, op: Op, p: Path)
    requires Inv(cfg, s) && t in s.threads && ThreadNext(cfg, s, t, op).Some?
    requires p in ThreadNext(cfg, s, t, op).value.inflight
    ensures var r := ThreadNext(cfg, s, t, op).value; var c := r.inflight[p];
      || (p in s.inflight && s.inflight[p] == c && !(op.Remove? && s.threads[t].cell == c))
      || (c == |s.cells| < |r.cells| && r.cells[c].state.Pending?)
  {
    assert ThreadOk(cfg, s, t);
  }

  lemma {:induction false} ThreadStepUnderWay(cfg: Config, s: State, t: ThreadId, op: Op)
    requires Inv(cfg, s) && PendingUnderWay(s) && FlightsUnderWay(s)
    requires t in s.threads && ThreadNext(cfg, s, t, op).Some?
    ensures PendingUnderWay(ThreadNext(cfg, s, t, op).value) && FlightsUnderWay(ThreadNext(cfg, s, t, op).value)
  {
    var r := ThreadNext(cfg, s, t, op).value;
    forall c | 0 <= c < |r.cells| && r.cells[c].state.Pending?
      ensures UnderWay(r, c)
    {
      PendingBefore(cfg, s, t, op, c);
      if c < |s.cells| {
        StaysUnderWay(cfg, s, t, op, c);
      }
    }
    forall p | p in r.inflight
      ensures r.inflight[p] < |r.cells| && UnderWay(r, r.inflight[p])
    {
      InflightBefore(cfg, s, t, op, p);
      if r.inflight[p] < |s.cells| {
        StaysUnderWay(cfg, s, t, op, r.inflight[p]);
      }
    }
  }

  lemma {:induction false} StepUnderWay(cfg: Config, s: State, action: Action)
    requires Inv(cfg, s) && PendingUnderWay(s) && FlightsUnderWay(s) && Next(cfg, s, action).Some?
    ensures PendingUnderWay(Next(cfg, s, action).value) && FlightsUnderWay(Next(cfg, s, action).value)
  {
    match action
    case Do(t, op) => ThreadStepUnderWay(cfg, s, t, op);
    case Invalidate(_) =>
      var r := Next(cfg, s, action).value;
      forall c: nat | c < |s.cells| && UnderWay(s, c)
        ensures UnderWay(r, c)
      {
      }
  }

  lemma {:induction false} RunUnderWay(cfg: Config, s: State, actions: seq<Action>)
    requires Inv(cfg, s) && PendingUnderWay(s) && FlightsUnderWay(s) && Run(cfg, s, actions).Some?
    ensures PendingUnderWay(Run(cfg, s, actions).value) && FlightsUnderWay(Run(cfg, s, actions).value)
    decreases |actions|
  {
    if |actions| > 0 {
      StepInv(cfg, s, actions[0]);
      StepUnderWay(cfg, s, actions[0]);
      RunUnderWay(cfg, Next(cfg, s, actions[0]).value, actions[1..]);
    }
  }

  /** A shard lock is held by a thread inside a call. */
  lemma HoldersAreBusy(cfg: Config, s: State)
    requires Inv(cfg, s)
    ensures s.shards != map[] ==> !Quiet(s)
  {
    if s.shards != map[] {
      var n :| n in s.shards;
      assert ShardOk(cfg, s, n);
    }
  }

  /** Once all calls have ended, nothing is locked or in flight, and every cell has run its loader exactly once. */
  lemma NothingLeftBehind(cfg: Config, init: State, actions: seq<Action>, s: State)
    requires Reachable(cfg, init, actions, s) && Quiet(s)
    ensures s.shards == map[] && s.inflight == map[]
    ensures forall c :: 0 <= c < |s.cells| ==>
      && s.cells[c].holder.None? && s.cells[c].state.Ready?
      && s.cells[c].started == 1 && s.cells[c].results == [s.cells[c].state.outcome]
  {
    ReachableInv(cfg, init, actions, s);
    RunUnderWay(cfg, init, actions);
    HoldersAreBusy(cfg, s);
    forall c: nat | c < |s.cells|
      ensures CellOk(cfg, s, c) && s.cells[c].holder.None? && s.cells[c].state.Ready? && !UnderWay(s, c)
    {
      assert CellOk(cfg, s, c);
    }
    assert forall p :: p !in s.inflight;
  }

  // ---------------------------------------------------------------- one load serves all that follow

  /** From the end of a load to the insertion of what it loaded. */
  lemma {:induction false} Stores(
    cfg: Config, init: State, actions: seq<Action>, s: State, t: ThreadId, path: Path, c: CellId, content: Bytes)
    returns (more: seq<Action>, r: State)
    requires Leads(cfg, init, actions, s) && t in s.threads && s.shards == map[] && c < |s.cells|
    requires s.threads[t] == ToInsert(path, c, Loaded(content))
    ensures Leads(cfg, init, more, r)
    ensures r == Move(s, t, ToPublish(path, c, Loaded(content))).(resident := s.resident[path := content])
  {
    var n := cfg.shardOf(path);
    var s1 := Move(s, t, Inserting(path, c, Loaded(content))).(shards := map[n := t]);
    r := Move(s, t, ToPublish(path, c, Loaded(content))).(resident := s.resident[path := content]);
    assert Next(cfg, s, Do(t, LockShard)) == Some(s1);
    LeadsOn(cfg, init, actions, s, Do(t, LockShard));
    assert Next(cfg, s1, Do(t, Insert(true, {}))) == Some(r) by {
      assert s1.threads[t := r.threads[t]] == r.threads && s1.shards - {n} == map[];
      assert (s.resident - {})[path := content] == s.resident[path := content];
    }
    LeadsOn(cfg, init, actions + [Do(t, LockShard)], s1, Do(t, Insert(true, {})));
    more := actions + [Do(t, LockShard)] + [Do(t, Insert(true, {}))];
  }

  /** From the publication of an outcome to its return. */
  lemma {:induction false} TakesOut(
    cfg: Config, init: State, actions: seq<Action>, s: State, t: ThreadId, path: Path, c: CellId, outcome: Outcome)
    returns (more: seq<Action>, r: State)
    requires Leads(cfg, init, actions, s) && t in s.threads && s.shards == map[] && c < |s.cells|
    requires s.threads[t] == ToPublish(path, c, outcome)
    ensures Leads(cfg, init, more, r) && r.shards == map[] && r.inflight == s.inflight - {path}
    ensures r.threads == s.threads[t := Returned(path, outcome)] && r.resident == s.resident
    ensures r.cells == s.cells[c := s.cells[c].(state := Ready(outcome), holder := None)]
  {
    LeadsOn(cfg, init, actions, s, Do(t, Publish));
    var a, s1 := actions + [Do(t, Publish)], Next(cfg, s, Do(t, Publish)).value;
    LeadsOn(cfg, init, a, s1, Do(t, LockShard));
    var b, s2 := a + [Do(t, LockShard)], Next(cfg, s1, Do(t, LockShard)).value;
    LeadsOn(cfg, init, b, s2, Do(t, Remove));
    more, r := b + [Do(t, Remove)], Next(cfg, s2, Do(t, Remove)).value;
  }

  /** A thread that loads can end with any outcome; what was loaded can stay. */
  lemma {:induction false} CanFinish(
    cfg: Config, init: State, actions: seq<Action>, s: State, t: ThreadId, path: Path, c: CellId, outcome: Outcome)
    returns (more: seq<Action>, r: State)
    requires Leads(cfg, init, actions, s) && t in s.threads && s.shards == map[] && c < |s.cells|
    requires s.threads[t] == Loading(path, c) && s.cells[c].results == []
    ensures Leads(cfg, init, more, r) && r.shards == map[] && r.inflight == s.inflight - {path}
    ensures r.threads == s.threads[t := Returned(path, outcome)]
    ensures r.resident == if outcome.Loaded? then s.resident[path := outcome.content] else s.resident
    ensures |r.cells| == |s.cells| && r.cells[c].results == [outcome]
  {
    LeadsOn(cfg, init, actions, s, Do(t, EndLoad(outcome)));
    more, r := actions + [Do(t, EndLoad(outcome))], Next(cfg, s, Do(t, EndLoad(outcome))).value;
    if outcome.Loaded? {
      more, r := Stores(cfg, init, more, r, t, path, c, outcome.content);
    }
    more, r := TakesOut(cfg, init, more, r, t, path, c, outcome);
  }

  /** A caller of a resident path is answered at once, without a cell. */
  lemma {:induction false} CanHit(cfg: Config, init: State, actions: seq<Action>, s: State, t: ThreadId, path: Path)
    returns (more: seq<Action>, r: State)
    requires Leads(cfg, init, actions, s) && t in s.threads && (s.threads[t].Idle? || s.threads[t].Returned?)
    requires s.shards == map[] && path in s.resident
    ensures Leads(cfg, init, more, r) && r.cells == s.cells && r.resident == s.resident
    ensures r.threads == s.threads[t := Returned(path, Loaded(s.resident[path]))] && r.shards == map[]
  {
    LeadsOn(cfg, init, actions, s, Do(t, Call(path)));
    var a, s1 := actions + [Do(t, Call(path))], Next(cfg, s, Do(t, Call(path))).value;
    LeadsOn(cfg, init, a, s1, Do(t, LockShard));
    var b, s2 := a + [Do(t, LockShard)], Next(cfg, s1, Do(t, LockShard)).value;
    LeadsOn(cfg, init, b, s2, Do(t, Claim(true)));
    more, r := b + [Do(t, Claim(true))], Next(cfg, s2, Do(t, Claim(true))).value;
  }

  /** What one caller has loaded can serve every caller after it without another load. */
  lemma LoadServesTheNext(cfg: Config, init: State, t: ThreadId, u: ThreadId, path: Path, content: Bytes)
    returns (actions: seq<Action>, s: State)
    requires Init(init) && t in init.threads && u in init.threads && t != u
    ensures Reachable(cfg, init, actions, s) && t in s.threads && u in s.threads
    ensures s.threads[t] == s.threads[u] == Returned(path, Loaded(content)) && |s.cells| == 1
  {
    assert Leads(cfg, init, [], init);
    var a, s1 := CanComeToLoad(cfg, init, [], init, t, path);
    var b, s2 := CanFinish(cfg, init, a, s1, t, path, 0, Loaded(content));
    actions, s := CanHit(cfg, init, b, s2, u, path);
  }

  /** A load that failed is not kept: the next caller of the path loads again. */
  lemma FailureIsNotKept(cfg: Config, init: State, t: ThreadId, u: ThreadId, path: Path, message: Bytes)
    returns (actions: seq<Action>, s: State)
    requires Init(init) && t in init.threads && u in init.threads && t != u
    ensures Reachable(cfg, init, actions, s) && t in s.threads && u in s.threads
    ensures s.threads[t] == Returned(path, LoadFailed(message)) && s.threads[u] == Loading(path, 1)
  {
    assert Leads(cfg, init, [], init);
    var a, s1 := CanComeToLoad(cfg, init, [], init, t, path);
    var b, s2 := CanFinish(cfg, init, a, s1, t, path, 0, LoadFailed(message));
    actions, s := CanComeToLoad(cfg, init, b, s2, u, path);
  }
}
