/**
 * The in-flight cells of the snapshot cache as a state machine: concurrent callers of `get_or_load` that
 * miss claim or join a cell under the shard lock, and whoever first locks a pending cell runs the loader.
 */
module SingleFlight {
  import opened Numbers

  type ThreadId = nat
  type CellId = nat
  type Path = Bytes

  datatype Outcome = Loaded(content: Bytes) | LoadFailed(message: Bytes)

  datatype CellState = Pending | Ready(outcome: Outcome)

  /** A cell with its lock; `started` and `results` record every run of its loader. */
  datatype Cell = Cell(
    path: Path, state: CellState, holder: Option<ThreadId>, started: nat, results: seq<Outcome>)

  datatype Phase =
    | Idle
    | Claiming(path: Path)                                    // waits for the shard lock
    | Claimed(path: Path)                                     // holds the shard lock
    | Joining(path: Path, cell: CellId)                       // waits for the cell lock
    | Examining(path: Path, cell: CellId)                     // from here on holds the cell lock
    | Loading(path: Path, cell: CellId)
    | ToInsert(path: Path, cell: CellId, outcome: Outcome)    // waits for the shard lock
    | Inserting(path: Path, cell: CellId, outcome: Outcome)   // holds the shard lock
    | ToPublish(path: Path, cell: CellId, outcome: Outcome)
    | ToRemove(path: Path, cell: CellId, outcome: Outcome)    // waits for the shard lock
    | Removing(path: Path, cell: CellId, outcome: Outcome)    // holds the shard lock
    | Returned(path: Path, outcome: Outcome)
  {
    predicate HoldsShard() {
      Claimed? || Inserting? || Removing?
    }

    predicate WantsShard() {
      Claiming? || ToInsert? || ToRemove?
    }

    predicate HoldsCell() {
      Examining? || Loading? || ToInsert? || Inserting? || ToPublish? || ToRemove? || Removing?
    }

    predicate HasCell() {
      Joining? || HoldsCell()
    }
  }

  /** An outcome some caller got through a cell. */
  datatype Answer = Answer(cell: CellId, outcome: Outcome)

  datatype State = State(
    threads: map<ThreadId, Phase>, shards: map<nat, ThreadId>, resident: map<Path, Bytes>,
    inflight: map<Path, CellId>, cells: seq<Cell>, answers: seq<Answer>)

  /** Which shard a path belongs to, and whether paths may be invalidated during the run. */
  datatype Config = Config(shardOf: Path -> nat, invalidates: bool)

  datatype Op =
    | Call(path: Path)
    | LockShard
    | Claim(stampOk: bool)
    | LockCell
    | Examine
    | EndLoad(outcome: Outcome)
    | Insert(stored: bool, evicted: set<Path>)
    | Publish
    | Remove

  datatype Action = Do(thread: ThreadId, op: Op) | Invalidate(path: Path)

  function Move(s: State, t: ThreadId, phase: Phase): State {
    s.(threads := s.threads[t := phase])
  }

  function AfterShardLock(phase: Phase): Phase
    requires phase.WantsShard()
  {
    match phase
    case Claiming(path) => Claimed(path)
    case ToInsert(path, cell, outcome) => Inserting(path, cell, outcome)
    case ToRemove(path, cell, outcome) => Removing(path, cell, outcome)
  }

  /** Under the shard lock: a resident entry with a good stamp, or the path's cell, made if it has none. */
  function DoClaim(cfg: Config, s: State, t: ThreadId, path: Path, stampOk: bool): State {
    var unlocked := s.(shards := s.shards - {cfg.shardOf(path)});
    if path in s.resident && stampOk then
      Move(unlocked, t, Returned(path, Loaded(s.resident[path])))
    else
      var dropped := unlocked.(resident := s.resident - {path});
      if path in s.inflight then
        Move(dropped, t, Joining(path, s.inflight[path]))
      else
        var c := |s.cells|;
        Move(dropped, t, Joining(path, c)).(
          inflight := s.inflight[path := c], cells := s.cells + [Cell(path, Pending, None, 0, [])])
  }

  function SetCell(s: State, c: CellId, cell: Cell): State
    requires c < |s.cells|
  {
    s.(cells := s.cells[c := cell])
  }

  /** Under the cell lock: a published outcome is returned, a pending cell makes its holder the loader. */
  function DoExamine(s: State, t: ThreadId, path: Path, c: CellId): State
    requires c < |s.cells|
  {
    var cell := s.cells[c];
    match cell.state
    case Ready(outcome) =>
      SetCell(Move(s, t, Returned(path, outcome)), c, cell.(holder := None)).(
        answers := s.answers + [Answer(c, outcome)])
    case Pending =>
      SetCell(Move(s, t, Loading(path, c)), c, cell.(started := cell.started + 1))
  }

  function ThreadNext(cfg: Config, s: State, t: ThreadId, op: Op): Option<State>
    requires t in s.threads
  {
    var phase := s.threads[t];
    match op
    case Call(path) =>
      if phase.Idle? || phase.Returned? then Some(Move(s, t, Claiming(path))) else None
    case LockShard =>
      if phase.WantsShard() && cfg.shardOf(phase.path) !in s.shards then
        Some(Move(s, t, AfterShardLock(phase)).(shards := s.shards[cfg.shardOf(phase.path) := t]))
      else None
    case Claim(stampOk) =>
      if phase.Claimed? then Some(DoClaim(cfg, s, t, phase.path, stampOk)) else None
    case LockCell =>
      if phase.Joining? && phase.cell < |s.cells| && s.cells[phase.cell].holder == None then
        Some(SetCell(Move(s, t, Examining(phase.path, phase.cell)), phase.cell,
          s.cells[phase.cell].(holder := Some(t))))
      else None
    case Examine =>
      if phase.Examining? && phase.cell < |s.cells| then Some(DoExamine(s, t, phase.path, phase.cell)) else None
    case EndLoad(outcome) =>
      if phase.Loading? && phase.cell < |s.cells| then
        var next := if outcome.Loaded? then ToInsert(phase.path, phase.cell, outcome)
                    else ToPublish(phase.path, phase.cell, outcome);
        Some(SetCell(Move(s, t, next), phase.cell,
          s.cells[phase.cell].(results := s.cells[phase.cell].results + [outcome])))
      else None
    case Insert(stored, evicted) =>
      if phase.Inserting? && phase.outcome.Loaded? then
        var kept := s.resident - evicted;
        Some(Move(s, t, ToPublish(phase.path, phase.cell, phase.outcome)).(
          shards := s.shards - {cfg.shardOf(phase.path)},
          resident := if stored then kept[phase.path := phase.outcome.content] else kept))
      else None
    case Publish =>
      if phase.ToPublish? && phase.cell < |s.cells| then
        Some(SetCell(Move(s, t, ToRemove(phase.path, phase.cell, phase.outcome)), phase.cell,
          s.cells[phase.cell].(state := Ready(phase.outcome))))
      else None
    case Remove =>
      if phase.Removing? && phase.cell < |s.cells| then
        Some(SetCell(Move(s, t, Returned(phase.path, phase.outcome)), phase.cell,
          s.cells[phase.cell].(holder := None)).(
          shards := s.shards - {cfg.shardOf(phase.path)},
          inflight := s.inflight - {phase.path},
          answers := s.answers + [Answer(phase.cell, phase.outcome)]))
      else None
  }

  function Next(cfg: Config, s: State, action: Action): Option<State> {
    match action
    case Do(t, op) => if t in s.threads then ThreadNext(cfg, s, t, op) else None
    case Invalidate(path) =>
      if cfg.invalidates && cfg.shardOf(path) !in s.shards then
        Some(s.(resident := s.resident - {path}, inflight := s.inflight - {path}))
      else None
  }

  ghost predicate Init(s: State) {
    && (forall t :: t in s.threads ==> s.threads[t].Idle?)
    && s.shards == map[] && s.inflight == map[] && s.cells == [] && s.answers == []
  }

  function Run(cfg: Config, s: State, actions: seq<Action>): Option<State>
    decreases |actions|
  {
    if |actions| == 0 then
      Some(s)
    else
      match Next(cfg, s, actions[0])
      case None => None
      case Some(next) => Run(cfg, next, actions[1..])
  }

  // ---------------------------------------------------------------- what every step keeps

  /** What a thread's phase says about its locks and its cell. */
  ghost predicate ThreadOk(cfg: Config, s: State, t: ThreadId)
    requires t in s.threads
  {
    var phase := s.threads[t];
    && (phase.HoldsShard() ==> cfg.shardOf(phase.path) in s.shards && s.shards[cfg.shardOf(phase.path)] == t)
    && (phase.HasCell() ==> phase.cell < |s.cells| && s.cells[phase.cell].path == phase.path)
    && (phase.HoldsCell() ==> HolderOk(s.cells[phase.cell], t, phase))
    && (!cfg.invalidates && (phase.ToRemove? || phase.Removing?) ==>
          phase.path in s.inflight && s.inflight[phase.path] == phase.cell)
  }

  /** The cell as its lock holder has made it so far. */
  predicate HolderOk(cell: Cell, t: ThreadId, phase: Phase)
    requires phase.HoldsCell()
  {
    && cell.holder == Some(t)
    && match phase
       case Examining(_, _) => cell.state.Pending? ==> cell.started == 0 && cell.results == []
       case Loading(_, _) => cell.state.Pending? && cell.started == 1 && cell.results == []
       case ToRemove(_, _, outcome) => cell.state == Ready(outcome)
       case Removing(_, _, outcome) => cell.state == Ready(outcome)
       case ToPublish(_, _, outcome) => cell.state.Pending? && cell.started == 1 && cell.results == [outcome]
       case _ => cell.state.Pending? && cell.started == 1 && cell.results == [phase.outcome] && phase.outcome.Loaded?
  }

  /** A cell's lock holder is a thread that works on it; its outcome is the result of its only load. */
  ghost predicate CellOk(cfg: Config, s: State, c: CellId)
    requires c < |s.cells|
  {
    var cell := s.cells[c];
    && (cell.holder.Some? ==>
          var t := cell.holder.value;
          t in s.threads && s.threads[t].HoldsCell() && s.threads[t].cell == c)
    && (cell.state.Ready? ==> cell.started == 1 && cell.results == [cell.state.outcome])
    && (cell.state.Pending? && cell.holder.None? ==> cell.started == 0 && cell.results == [])
    && (cell.state.Pending? && !cfg.invalidates ==> cell.path in s.inflight && s.inflight[cell.path] == c)
  }

  ghost predicate ShardOk(cfg: Config, s: State, n: nat)
    requires n in s.shards
  {
    var t := s.shards[n];
    t in s.threads && s.threads[t].HoldsShard() && cfg.shardOf(s.threads[t].path) == n
  }

  ghost predicate AnswerOk(s: State, answer: Answer) {
    answer.cell < |s.cells| && s.cells[answer.cell].state == Ready(answer.outcome)
  }

  /** Shard locks are held by threads that need them, in-flight cells are their path's, answers are outcomes. */
  ghost predicate TablesOk(cfg: Config, s: State) {
    && (forall n :: n in s.shards ==> ShardOk(cfg, s, n))
    && (forall p :: p in s.inflight ==> s.inflight[p] < |s.cells| && s.cells[s.inflight[p]].path == p)
    && (forall i :: 0 <= i < |s.answers| ==> AnswerOk(s, s.answers[i]))
  }

  ghost predicate Inv(cfg: Config, s: State) {
    && (forall t :: t in s.threads ==> ThreadOk(cfg, s, t))
    && (forall c :: 0 <= c < |s.cells| ==> CellOk(cfg, s, c))
    && TablesOk(cfg, s)
  }

  /** Thread `t` moved and at most cell `c` changed, one that no other thread holds; nobody else's locks did. */
  ghost predicate Local(s: State, r: State, t: ThreadId, c: CellId) {
    && t in s.threads && r.threads.Keys == s.threads.Keys
    && (forall u :: u in s.threads && u != t ==> r.threads[u] == s.threads[u])
    && c <= |s.cells| <= |r.cells| <= Max(|s.cells|, c + 1)
    && (forall d :: 0 <= d < |s.cells| && d != c ==> r.cells[d] == s.cells[d])
    && (c < |s.cells| ==> r.cells[c].path == s.cells[c].path
                          && (s.cells[c].holder == None || s.cells[c].holder == Some(t)))
  }

  /** Other threads' shard locks and other paths' in-flight cells are as they were. */
  ghost predicate Apart(s: State, r: State, t: ThreadId, gone: Option<Path>) {
    && (forall n :: n in s.shards && s.shards[n] != t ==> n in r.shards && r.shards[n] == s.shards[n])
    && (forall p :: p in s.inflight && gone != Some(p) ==> p in r.inflight && r.inflight[p] == s.inflight[p])
  }

  /** The path whose in-flight cell goes is that of `t`, which holds its current cell `c`. */
  ghost predicate GoneOk(cfg: Config, s: State, t: ThreadId, c: CellId, gone: Option<Path>) {
    gone.Some? ==>
      && t in s.threads && s.threads[t].Removing? && s.threads[t].path == gone.value && s.threads[t].cell == c
      && c < |s.cells| && s.cells[c].state.Ready?
  }

  lemma OtherThreadKept(
    cfg: Config, s: State, r: State, t: ThreadId, c: CellId, gone: Option<Path>, u: ThreadId)
    requires Inv(cfg, s) && Local(s, r, t, c) && Apart(s, r, t, gone) && GoneOk(cfg, s, t, c, gone)
    requires u in s.threads && u != t
    ensures u in r.threads && ThreadOk(cfg, r, u)
  {
    assert ThreadOk(cfg, s, u) && ThreadOk(cfg, s, t);
  }

  lemma OtherCellKept(
    cfg: Config, s: State, r: State, t: ThreadId, c: CellId, gone: Option<Path>, d: CellId)
    requires Inv(cfg, s) && Local(s, r, t, c) && Apart(s, r, t, gone) && GoneOk(cfg, s, t, c, gone)
    requires d < |s.cells| && d != c
    requires s.threads[t].HoldsCell() ==> s.threads[t].cell == c
    ensures CellOk(cfg, r, d)
  {
    assert CellOk(cfg, s, d) && ThreadOk(cfg, s, t);
  }

  /** A local step keeps the invariant if it does so for the thread and the cell it touches. */
  lemma LocalStep(cfg: Config, s: State, r: State, t: ThreadId, c: CellId, gone: Option<Path>)
    requires Inv(cfg, s) && Local(s, r, t, c) && Apart(s, r, t, gone) && GoneOk(cfg, s, t, c, gone)
    requires s.threads[t].HoldsCell() ==> s.threads[t].cell == c
    requires ThreadOk(cfg, r, t) && (c < |r.cells| ==> CellOk(cfg, r, c))
    requires TablesOk(cfg, r)
    ensures Inv(cfg, r)
  {
    forall u | u in r.threads
      ensures ThreadOk(cfg, r, u)
    {
      if u != t {
        OtherThreadKept(cfg, s, r, t, c, gone, u);
      }
    }
    forall d | 0 <= d < |r.cells|
      ensures CellOk(cfg, r, d)
    {
      if d != c {
        OtherCellKept(cfg, s, r, t, c, gone, d);
      }
    }
  }

  lemma CallKeeps(cfg: Config, s: State, t: ThreadId, op: Op)
    requires Inv(cfg, s) && t in s.threads && op.Call? && ThreadNext(cfg, s, t, op).Some?
    ensures Inv(cfg, ThreadNext(cfg, s, t, op).value)
  {
    var r, phase := ThreadNext(cfg, s, t, op).value, s.threads[t];
    var c := |s.cells|;
    assert ThreadOk(cfg, s, t);
    LocalStep(cfg, s, r, t, c, None);
  }

  lemma LockShardTables(cfg: Config, s: State, t: ThreadId, op: Op)
    requires Inv(cfg, s) && t in s.threads && op.LockShard? && ThreadNext(cfg, s, t, op).Some?
    ensures TablesOk(cfg, ThreadNext(cfg, s, t, op).value)
  {
    assert ThreadOk(cfg, s, t);
  }

  lemma LockShardKeeps(cfg: Config, s: State, t: ThreadId, op: Op)
    requires Inv(cfg, s) && t in s.threads && op.LockShard? && ThreadNext(cfg, s, t, op).Some?
    ensures Inv(cfg, ThreadNext(cfg, s, t, op).value)
  {
    var r, phase := ThreadNext(cfg, s, t, op).value, s.threads[t];
    var c := if phase.HoldsCell() then phase.cell else |s.cells|;
    assert ThreadOk(cfg, s, t) && (phase.HoldsCell() ==> CellOk(cfg, s, c));
    LockShardTables(cfg, s, t, op);
    LocalStep(cfg, s, r, t, c, None);
  }

  lemma ClaimHitKeeps(cfg: Config, s: State, t: ThreadId, path: Path, stampOk: bool)
    requires Inv(cfg, s) && t in s.threads && s.threads[t] == Claimed(path)
    requires path in s.resident && stampOk
    ensures Inv(cfg, DoClaim(cfg, s, t, path, stampOk))
  {
    assert ThreadOk(cfg, s, t);
    LocalStep(cfg, s, DoClaim(cfg, s, t, path, stampOk), t, |s.cells|, None);
  }

  lemma ClaimJoinKeeps(cfg: Config, s: State, t: ThreadId, path: Path, stampOk: bool)
    requires Inv(cfg, s) && t in s.threads && s.threads[t] == Claimed(path)
    requires !(path in s.resident && stampOk) && path in s.inflight
    ensures Inv(cfg, DoClaim(cfg, s, t, path, stampOk))
  {
    assert ThreadOk(cfg, s, t);
    LocalStep(cfg, s, DoClaim(cfg, s, t, path, stampOk), t, |s.cells|, None);
  }

  lemma ClaimNewKeeps(cfg: Config, s: State, t: ThreadId, path: Path, stampOk: bool)
    requires Inv(cfg, s) && t in s.threads && s.threads[t] == Claimed(path)
    requires !(path in s.resident && stampOk) && path !in s.inflight
    ensures Inv(cfg, DoClaim(cfg, s, t, path, stampOk))
  {
    assert ThreadOk(cfg, s, t);
    LocalStep(cfg, s, DoClaim(cfg, s, t, path, stampOk), t, |s.cells|, None);
  }

  lemma LockCellKeeps(cfg: Config, s: State, t: ThreadId, op: Op)
    requires Inv(cfg, s) && t in s.threads && op.LockCell? && ThreadNext(cfg, s, t, op).Some?
    ensures Inv(cfg, ThreadNext(cfg, s, t, op).value)
  {
    var r, phase := ThreadNext(cfg, s, t, op).value, s.threads[t];
    var c := phase.cell;
    assert ThreadOk(cfg, s, t) && CellOk(cfg, s, c);
    LocalStep(cfg, s, r, t, c, None);
  }

  lemma ExamineReadyKeeps(cfg: Config, s: State, t: ThreadId, path: Path, c: CellId)
    requires Inv(cfg, s) && t in s.threads && s.threads[t] == Examining(path, c)
    requires c < |s.cells| && s.cells[c].state.Ready?
    ensures Inv(cfg, DoExamine(s, t, path, c))
  {
    assert ThreadOk(cfg, s, t) && CellOk(cfg, s, c);
    LocalStep(cfg, s, DoExamine(s, t, path, c), t, c, None);
  }

  lemma ExaminePendingKeeps(cfg: Config, s: State, t: ThreadId, path: Path, c: CellId)
    requires Inv(cfg, s) && t in s.threads && s.threads[t] == Examining(path, c)
    requires c < |s.cells| && s.cells[c].state.Pending?
    ensures Inv(cfg, DoExamine(s, t, path, c))
  {
    assert ThreadOk(cfg, s, t) && CellOk(cfg, s, c);
    LocalStep(cfg, s, DoExamine(s, t, path, c), t, c, None);
  }

  lemma EndLoadTables(cfg: Config, s: State, t: ThreadId, op: Op)
    requires Inv(cfg, s) && t in s.threads && op.EndLoad? && ThreadNext(cfg, s, t, op).Some?
    ensures TablesOk(cfg, ThreadNext(cfg, s, t, op).value)
  {
    assert ThreadOk(cfg, s, t);
  }

  lemma EndLoadKeeps(cfg: Config, s: State, t: ThreadId, op: Op)
    requires Inv(cfg, s) && t in s.threads && op.EndLoad? && ThreadNext(cfg, s, t, op).Some?
    ensures Inv(cfg, ThreadNext(cfg, s, t, op).value)
  {
    var r, phase := ThreadNext(cfg, s, t, op).value, s.threads[t];
    var c := phase.cell;
    assert ThreadOk(cfg, s, t) && CellOk(cfg, s, c);
    EndLoadTables(cfg, s, t, op);
    LocalStep(cfg, s, r, t, c, None);
  }

  lemma InsertKeeps(cfg: Config, s: State, t: ThreadId, op: Op)
    requires Inv(cfg, s) && t in s.threads && op.Insert? && ThreadNext(cfg, s, t, op).Some?
    ensures Inv(cfg, ThreadNext(cfg, s, t, op).value)
  {
    var r, phase := ThreadNext(cfg, s, t, op).value, s.threads[t];
    var c := phase.cell;
    assert ThreadOk(cfg, s, t) && CellOk(cfg, s, c);
    LocalStep(cfg, s, r, t, c, None);
  }

  lemma PublishKeeps(cfg: Config, s: State, t: ThreadId, op: Op)
    requires Inv(cfg, s) && t in s.threads && op.Publish? && ThreadNext(cfg, s, t, op).Some?
    ensures Inv(cfg, ThreadNext(cfg, s, t, op).value)
  {
    var r, phase := ThreadNext(cfg, s, t, op).value, s.threads[t];
    var c := phase.cell;
    assert ThreadOk(cfg, s, t) && CellOk(cfg, s, c);
    LocalStep(cfg, s, r, t, c, None);
  }

  lemma RemoveTables(cfg: Config, s: State, t: ThreadId, op: Op)
    requires Inv(cfg, s) && t in s.threads && op.Remove? && ThreadNext(cfg, s, t, op).Some?
    ensures TablesOk(cfg, ThreadNext(cfg, s, t, op).value)
  {
    assert ThreadOk(cfg, s, t);
  }

  lemma RemoveOwn(cfg: Config, s: State, t: ThreadId, op: Op)
    requires Inv(cfg, s) && t in s.threads && op.Remove? && ThreadNext(cfg, s, t, op).Some?
    ensures var r, c := ThreadNext(cfg, s, t, op).value, s.threads[t].cell;
      t in r.threads && ThreadOk(cfg, r, t) && c < |r.cells| && CellOk(cfg, r, c)
  {
    assert ThreadOk(cfg, s, t) && CellOk(cfg, s, s.threads[t].cell);
  }

  lemma RemoveApart(cfg: Config, s: State, t: ThreadId, op: Op)
    requires Inv(cfg, s) && t in s.threads && op.Remove? && ThreadNext(cfg, s, t, op).Some?
    ensures var r, c, gone := ThreadNext(cfg, s, t, op).value, s.threads[t].cell, Some(s.threads[t].path);
      Local(s, r, t, c) && Apart(s, r, t, gone) && GoneOk(cfg, s, t, c, gone)
  {
    assert ThreadOk(cfg, s, t) && CellOk(cfg, s, s.threads[t].cell);
  }

  lemma RemoveKeeps(cfg: Config, s: State, t: ThreadId, op: Op)
    requires Inv(cfg, s) && t in s.threads && op.Remove? && ThreadNext(cfg, s, t, op).Some?
    ensures Inv(cfg, ThreadNext(cfg, s, t, op).value)
  {
    var r, phase := ThreadNext(cfg, s, t, op).value, s.threads[t];
    RemoveOwn(cfg, s, t, op);
    RemoveApart(cfg, s, t, op);
    RemoveTables(cfg, s, t, op);
    LocalStep(cfg, s, r, t, phase.cell, Some(phase.path));
  }

  lemma InvalidateKeeps(cfg: Config, s: State, path: Path)
    requires Inv(cfg, s) && cfg.invalidates
    ensures Inv(cfg, s.(resident := s.resident - {path}, inflight := s.inflight - {path}))
  {
    var r := s.(resident := s.resident - {path}, inflight := s.inflight - {path});
    forall t | t in r.threads
      ensures ThreadOk(cfg, r, t)
    {
      assert ThreadOk(cfg, s, t);
    }
    forall c | 0 <= c < |r.cells|
      ensures CellOk(cfg, r, c)
    {
      assert CellOk(cfg, s, c);
    }
  }

  lemma StepInv(cfg: Config, s: State, action: Action)
    requires Inv(cfg, s) && Next(cfg, s, action).Some?
    ensures Inv(cfg, Next(cfg, s, action).value)
  {
    match action
    case Invalidate(path) => InvalidateKeeps(cfg, s, path);
    case Do(t, op) =>
      var phase := s.threads[t];
      match op {
        case Call(_) => CallKeeps(cfg, s, t, op);
        case LockShard => LockShardKeeps(cfg, s, t, op);
        case Claim(stampOk) =>
          if phase.path in s.resident && stampOk {
            ClaimHitKeeps(cfg, s, t, phase.path, stampOk);
          } else if phase.path in s.inflight {
            ClaimJoinKeeps(cfg, s, t, phase.path, stampOk);
          } else {
            ClaimNewKeeps(cfg, s, t, phase.path, stampOk);
          }
        case LockCell => LockCellKeeps(cfg, s, t, op);
        case Examine =>
          if s.cells[phase.cell].state.Ready? {
            ExamineReadyKeeps(cfg, s, t, phase.path, phase.cell);
          } else {
            ExaminePendingKeeps(cfg, s, t, phase.path, phase.cell);
          }
        case EndLoad(_) => EndLoadKeeps(cfg, s, t, op);
        case Insert(_, _) => InsertKeeps(cfg, s, t, op);
        case Publish => PublishKeeps(cfg, s, t, op);
        case Remove => RemoveKeeps(cfg, s, t, op);
      }
  }

  lemma {:induction false} RunInv(cfg: Config, s: State, actions: seq<Action>)
    requires Inv(cfg, s) && Run(cfg, s, actions).Some?
    ensures Inv(cfg, Run(cfg, s, actions).value)
    decreases |actions|
  {
    if |actions| > 0 {
      StepInv(cfg, s, actions[0]);
      RunInv(cfg, Next(cfg, s, actions[0]).value, actions[1..]);
    }
  }

  // ---------------------------------------------------------------- what holds in every run

  ghost predicate Reachable(cfg: Config, init: State, actions: seq<Action>, s: State) {
    Init(init) && Run(cfg, init, actions) == Some(s)
  }

  lemma ReachableInv(cfg: Config, init: State, actions: seq<Action>, s: State)
    requires Reachable(cfg, init, actions, s)
    ensures Inv(cfg, s)
  {
    RunInv(cfg, init, actions);
  }

  /** A cell's loader starts at most once and ends at most once, invalidation or not. */
  lemma LoadsAtMostOnce(cfg: Config, init: State, actions: seq<Action>, s: State, c: CellId)
    requires Reachable(cfg, init, actions, s) && c < |s.cells|
    ensures |s.cells[c].results| <= s.cells[c].started <= 1
  {
    ReachableInv(cfg, init, actions, s);
    assert CellOk(cfg, s, c);
    if s.cells[c].holder.Some? {
      assert ThreadOk(cfg, s, s.cells[c].holder.value);
    }
  }

  /** Whoever gets an outcome through a cell gets that of its only load. */
  lemma EveryHolderGetsThatOutcome(cfg: Config, init: State, actions: seq<Action>, s: State, i: nat)
    requires Reachable(cfg, init, actions, s) && i < |s.answers|
    ensures var answer := s.answers[i];
      && answer.cell < |s.cells|
      && s.cells[answer.cell].started == 1 && s.cells[answer.cell].results == [answer.outcome]
  {
    ReachableInv(cfg, init, actions, s);
    assert AnswerOk(s, s.answers[i]);
    assert CellOk(cfg, s, s.answers[i].cell);
  }

  /** Without invalidation, two loads of one path never overlap. */
  lemma LoadsNeverOverlap(cfg: Config, init: State, actions: seq<Action>, s: State, t: ThreadId, u: ThreadId)
    requires Reachable(cfg, init, actions, s) && !cfg.invalidates
    requires t in s.threads && u in s.threads && s.threads[t].Loading? && s.threads[u].Loading?
    ensures s.threads[t].path == s.threads[u].path ==> t == u
  {
    ReachableInv(cfg, init, actions, s);
    assert ThreadOk(cfg, s, t) && ThreadOk(cfg, s, u);
    assert CellOk(cfg, s, s.threads[t].cell) && CellOk(cfg, s, s.threads[u].cell);
  }

  /** A thread that waits for a cell lock holds no shard lock. */
  lemma NoShardWhileJoining(cfg: Config, init: State, actions: seq<Action>, s: State, n: nat)
    requires Reachable(cfg, init, actions, s) && n in s.shards
    ensures s.shards[n] in s.threads && !s.threads[s.shards[n]].Joining?
  {
    ReachableInv(cfg, init, actions, s);
    assert ShardOk(cfg, s, n);
  }

  /** The thread is inside a call and does not wait for a lock that another thread holds. */
  predicate CanStep(cfg: Config, s: State, t: ThreadId)
    requires t in s.threads
  {
    var phase := s.threads[t];
    && !phase.Idle? && !phase.Returned?
    && (phase.WantsShard() ==> cfg.shardOf(phase.path) !in s.shards)
    && (phase.Joining? ==> phase.cell < |s.cells| && s.cells[phase.cell].holder == None)
  }

  function NextOp(phase: Phase): Op
    requires !phase.Idle? && !phase.Returned?
  {
    match phase
    case Claimed(_) => Claim(false)
    case Joining(_, _) => LockCell
    case Examining(_, _) => Examine
    case Loading(_, _) => EndLoad(LoadFailed([]))
    case Inserting(_, _, _) => Insert(false, {})
    case ToPublish(_, _, _) => Publish
    case Removing(_, _, _) => Remove
    case _ => LockShard
  }

  lemma SteppingIsPossible(cfg: Config, s: State, t: ThreadId)
    requires Inv(cfg, s) && t in s.threads && CanStep(cfg, s, t)
    ensures Next(cfg, s, Do(t, NextOp(s.threads[t]))).Some?
  {
    assert ThreadOk(cfg, s, t);
  }

  /** No deadlock: while some call is unfinished, some thread in a call can take its next step. */
  lemma NoDeadlock(cfg: Config, init: State, actions: seq<Action>, s: State, t: ThreadId)
    requires Reachable(cfg, init, actions, s)
    requires t in s.threads && !s.threads[t].Idle? && !s.threads[t].Returned?
    ensures exists u :: u in s.threads && CanStep(cfg, s, u) && Next(cfg, s, Do(u, NextOp(s.threads[u]))).Some?
  {
    ReachableInv(cfg, init, actions, s);
    assert ThreadOk(cfg, s, t);
    var phase := s.threads[t];
    var u := t;
    if phase.Joining? && s.cells[phase.cell].holder.Some? {
      u := s.cells[phase.cell].holder.value;
      assert CellOk(cfg, s, phase.cell) && ThreadOk(cfg, s, u);
    }
    if s.threads[u].WantsShard() && cfg.shardOf(s.threads[u].path) in s.shards {
      var n := cfg.shardOf(s.threads[u].path);
      u := s.shards[n];
      assert ShardOk(cfg, s, n);
    }
    assert CanStep(cfg, s, u);
    SteppingIsPossible(cfg, s, u);
  }

  // ---------------------------------------------------------------- with invalidation

  lemma TailOfConcat<T>(before: seq<T>, after: seq<T>)
    requires |before| > 0
    ensures |before + after| > 0 && (before + after)[0] == before[0]
    ensures (before + after)[1..] == before[1..] + after
  {
  }

  lemma RunFirst(cfg: Config, s: State, actions: seq<Action>, next: State)
    requires |actions| > 0 && Next(cfg, s, actions[0]) == Some(next)
    ensures Run(cfg, s, actions) == Run(cfg, next, actions[1..])
  {
  }

  lemma {:induction false} RunOn(cfg: Config, s: State, before: seq<Action>, after: seq<Action>)
    requires Run(cfg, s, before).Some?
    ensures Run(cfg, s, before + after) == Run(cfg, Run(cfg, s, before).value, after)
    decreases |before|
  {
    if |before| == 0 {
      assert before + after == after;
    } else {
      var next := Next(cfg, s, before[0]).value;
      TailOfConcat(before, after);
      RunFirst(cfg, s, before, next);
      RunFirst(cfg, s, before + after, next);
      RunOn(cfg, next, before[1..], after);
    }
  }

  lemma RunOne(cfg: Config, s: State, action: Action)
    requires Next(cfg, s, action).Some?
    ensures Run(cfg, s, [action]) == Next(cfg, s, action)
  {
    assert Run(cfg, Next(cfg, s, action).value, []) == Next(cfg, s, action);
  }

  /** From `s`, the actions lead to `r`. */
  ghost predicate Leads(cfg: Config, s: State, actions: seq<Action>, r: State) {
    Run(cfg, s, actions) == Some(r)
  }

  lemma LeadsOn(cfg: Config, s: State, actions: seq<Action>, r: State, action: Action)
    requires Leads(cfg, s, actions, r) && Next(cfg, r, action).Some?
    ensures Leads(cfg, s, actions + [action], Next(cfg, r, action).value)
  {
    RunOn(cfg, s, actions, [action]);
    RunOne(cfg, r, action);
  }

  /** A caller of a path without an in-flight cell can come to load it. */
  lemma CanComeToLoad(cfg: Config, init: State, actions: seq<Action>, s: State, t: ThreadId, path: Path)
    returns (more: seq<Action>, r: State)
    requires Leads(cfg, init, actions, s) && t in s.threads && s.threads[t].Idle?
    requires s.shards == map[] && path !in s.inflight
    ensures Leads(cfg, init, more, r)
    ensures r.threads == s.threads[t := Loading(path, |s.cells|)] && r.shards == map[]
    ensures |r.cells| == |s.cells| + 1 && r.cells[|s.cells|].results == [] && r.resident == s.resident - {path}
  {
    LeadsOn(cfg, init, actions, s, Do(t, Call(path)));
    var a, s1 := actions + [Do(t, Call(path))], Next(cfg, s, Do(t, Call(path))).value;
    LeadsOn(cfg, init, a, s1, Do(t, LockShard));
    var b, s2 := a + [Do(t, LockShard)], Next(cfg, s1, Do(t, LockShard)).value;
    LeadsOn(cfg, init, b, s2, Do(t, Claim(false)));
    var c, s3 := b + [Do(t, Claim(false))], Next(cfg, s2, Do(t, Claim(false))).value;
    LeadsOn(cfg, init, c, s3, Do(t, LockCell));
    var d, s4 := c + [Do(t, LockCell)], Next(cfg, s3, Do(t, LockCell)).value;
    LeadsOn(cfg, init, d, s4, Do(t, Examine));
    more, r := d + [Do(t, Examine)], Next(cfg, s4, Do(t, Examine)).value;
  }

  /** Two threads load one path at the same time. */
  ghost predicate Overlap(s: State) {
    exists t, u :: t in s.threads && u in s.threads && t != u
      && s.threads[t].Loading? && s.threads[u].Loading? && s.threads[t].path == s.threads[u].path
  }

  /** Loads of one path can overlap exactly when paths may be invalidated while they are loaded. */
  lemma OverlapNeedsInvalidation(cfg: Config, init: State, t: ThreadId, u: ThreadId)
    requires Init(init) && t in init.threads && u in init.threads && t != u
    ensures cfg.invalidates <==> exists actions, s :: Reachable(cfg, init, actions, s) && Overlap(s)
  {
    if cfg.invalidates {
      var path := [];
      var a, s1 := CanComeToLoad(cfg, init, [], init, t, path);
      LeadsOn(cfg, init, a, s1, Invalidate(path));
      var b, s2 := a + [Invalidate(path)], Next(cfg, s1, Invalidate(path)).value;
      var c, s3 := CanComeToLoad(cfg, init, b, s2, u, path);
      assert s3.threads[t] == Loading(path, 0) && s3.threads[u].Loading?;
      assert Reachable(cfg, init, c, s3) && Overlap(s3);
    } else {
      forall actions, s | Reachable(cfg, init, actions, s)
        ensures !Overlap(s)
      {
        forall t, u | t in s.threads && u in s.threads && s.threads[t].Loading? && s.threads[u].Loading?
          ensures s.threads[t].path == s.threads[u].path ==> t == u
        {
          LoadsNeverOverlap(cfg, init, actions, s, t, u);
        }
      }
    }
  }
}
