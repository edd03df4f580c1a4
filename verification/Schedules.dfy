/** Runs put together step by step: what threads and outsiders can do from any start. */
module Schedules {
  import opened Numbers
  import opened Protocol
  import opened FileSystem
  import opened Pipeline
  import opened PipelineTheorems

  /** From `s`, the actions lead to `r`. */
  ghost predicate Leads(cfg: Config, s: State, actions: seq<Action>, r: State) {
    Run(cfg, s, actions) == Some(r)
  }

  lemma {:induction false} LeadsOn(cfg: Config, s: State, actions: seq<Action>, r: State, action: Action, r': State)
    requires Leads(cfg, s, actions, r) && Next(cfg, r, action) == Some(r')
    ensures Leads(cfg, s, actions + [action], r')
    decreases |actions|
  {
    if |actions| == 0 {
      assert [action][1..] == [];
      assert Run(cfg, r', []) == Some(r');
      assert actions + [action] == [action];
    } else {
      LeadsOn(cfg, Next(cfg, s, actions[0]).value, actions[1..], r, action, r');
      assert (actions + [action])[1..] == actions[1..] + [action];
    }
  }

  /** No action is an outsider's. */
  predicate NobodyMeddles(actions: seq<Action>) {
    forall i :: 0 <= i < |actions| ==> !actions[i].Meddle?
  }

  /** Every action is a step of this thread. */
  predicate ByOnly(actions: seq<Action>, t: ThreadId) {
    forall i :: 0 <= i < |actions| ==> actions[i].Do? && actions[i].thread == t
  }

  /** `more` goes on from `actions` with nothing but steps of this thread. */
  predicate Continues(actions: seq<Action>, more: seq<Action>, t: ThreadId) {
    && (NobodyMeddles(actions) ==> NobodyMeddles(more))
    && (ByOnly(actions, t) ==> ByOnly(more, t))
  }

  /** A thread that decided what to persist, with the path lock free. */
  ghost predicate Ready(cfg: Config, s: State, t: ThreadId, plan: Plan) {
    t in s.threads && s.threads[t] == Planned(plan) && s.lock == None && FsOk(cfg.timing, s.fs)
  }

  lemma MissingPlans(cfg: Config, start: State, actions: seq<Action>, s: State, t: ThreadId)
    returns (r: State)
    requires Leads(cfg, start, actions, s) && t in s.threads && s.threads[t] == Start(1) && s.fs.View().None?
    requires !cfg.decide(t, None).Replacing? && !cfg.decide(t, None).Refused?
    ensures Leads(cfg, start, actions + [Do(t, Step(Open))], r)
    ensures r == Move(s, t, Missing(cfg, t))
  {
    r := Move(s, t, Missing(cfg, t));
    LeadsOn(cfg, start, actions, s, Do(t, Step(Open)), r);
  }

  /** The thread locks the path and writes its temporary file. */
  lemma PreparesTemp(cfg: Config, start: State, actions: seq<Action>, s: State, t: ThreadId, plan: Plan, temp: InodeId)
    returns (more: seq<Action>, r: State)
    requires Leads(cfg, start, actions, s) && Ready(cfg, s, t, plan) && s.fs.path != Some(temp)
    ensures Leads(cfg, start, more, r) && Continues(actions, more, t)
    ensures r.threads == s.threads[t := TempReady(plan, temp)] && r.lock == Some(t) && r.log == s.log
    ensures r.fs.path == s.fs.path && temp in r.fs.inodes && r.fs.now == s.fs.now && FsOk(cfg.timing, r.fs)
    ensures r.fs.inodes == s.fs.inodes[temp := Inode(plan.content, s.fs.now, s.fs.now, s.fs.now)]
  {
    var s1 := Move(s, t, Locked(plan)).(lock := Some(t));
    LeadsOn(cfg, start, actions, s, Do(t, Acquire), s1);
    var a := actions + [Do(t, Acquire)];
    var action := Do(t, MakeTemp(temp, s.fs.now));
    r := Next(cfg, s1, action).value;
    LeadsOn(cfg, start, a, s1, action, r);
    more := a + [action];
  }

  /** The thread releases the lock. */
  lemma Finishes(cfg: Config, start: State, actions: seq<Action>, s: State, t: ThreadId, plan: Plan)
    returns (more: seq<Action>, r: State)
    requires Leads(cfg, start, actions, s) && t in s.threads && s.threads[t] == Persisted(plan) && s.lock == Some(t)
    ensures Leads(cfg, start, more, r) && Continues(actions, more, t)
    ensures r == Move(s, t, Succeeded(plan)).(lock := None)
  {
    r := Move(s, t, Succeeded(plan)).(lock := None);
    LeadsOn(cfg, start, actions, s, Do(t, Finish), r);
    more := actions + [Do(t, Finish)];
  }

  /** From `s` the thread put its content in place by the logged event, and is done. */
  ghost predicate Put(cfg: Config, s: State, r: State, t: ThreadId, plan: Plan) {
    && t in s.threads && r.threads == s.threads[t := Succeeded(plan)] && r.lock == None && FsOk(cfg.timing, r.fs)
    && r.log == s.log + [EventOf(cfg, t, plan)] && r.fs.path.Some? && r.fs.View() == Some(plan.content)
  }

  /** The last steps of a thread whose temporary file may be put in place now. */
  lemma PutsInPlace(
    cfg: Config, start: State, actions: seq<Action>, s: State, t: ThreadId, plan: Plan, temp: InodeId, op: Op)
    returns (more: seq<Action>, r: State)
    requires Leads(cfg, start, actions, s) && t in s.threads && s.lock == Some(t) && FsOk(cfg.timing, s.fs)
    requires temp in s.fs.inodes && s.fs.inodes[temp].content == plan.content
    requires ThreadNext(cfg, s, t, op) == Some(Commit(s, t, plan, temp, s.fs.now, EventOf(cfg, t, plan)))
    ensures Leads(cfg, start, more, r) && Continues(actions, more, t)
    ensures Put(cfg, s, r, t, plan)
  {
    var s1 := Commit(s, t, plan, temp, s.fs.now, EventOf(cfg, t, plan));
    LeadsOn(cfg, start, actions, s, Do(t, op), s1);
    var a := actions + [Do(t, op)];
    more, r := Finishes(cfg, start, a, s1, t, plan);
  }

  lemma Creates(cfg: Config, start: State, actions: seq<Action>, s: State, t: ThreadId, content: Bytes, temp: InodeId)
    returns (more: seq<Action>, r: State)
    requires Leads(cfg, start, actions, s) && Ready(cfg, s, t, CreateNew(content)) && s.fs.path == None
    ensures Leads(cfg, start, more, r) && Continues(actions, more, t)
    ensures Put(cfg, s, r, t, CreateNew(content))
  {
    var a, s1 := PreparesTemp(cfg, start, actions, s, t, CreateNew(content), temp);
    more, r := PutsInPlace(cfg, start, a, s1, t, CreateNew(content), temp, Link(s1.fs.now));
  }

  lemma Forces(cfg: Config, start: State, actions: seq<Action>, s: State, u: ThreadId, content: Bytes, temp: InodeId)
    returns (more: seq<Action>, r: State)
    requires Leads(cfg, start, actions, s) && Ready(cfg, s, u, PutUnguarded(content)) && s.fs.path != Some(temp)
    ensures Leads(cfg, start, more, r) && Continues(actions, more, u)
    ensures Put(cfg, s, r, u, PutUnguarded(content))
  {
    var a, s1 := PreparesTemp(cfg, start, actions, s, u, PutUnguarded(content), temp);
    more, r := PutsInPlace(cfg, start, a, s1, u, PutUnguarded(content), temp, Rename(s1.fs.now));
  }

  // ---------------------------------------------------------------- a guarded replacement, step by step

  lemma StepsOn(
    cfg: Config, start: State, actions: seq<Action>, s: State, t: ThreadId, a: Phase, local: Local, b: Phase)
    returns (more: seq<Action>)
    requires t in s.threads && Leads(cfg, start, actions, Move(s, t, a)) && Advance(cfg, s.fs, t, a, local) == Some(b)
    ensures Leads(cfg, start, more, Move(s, t, b)) && Continues(actions, more, t)
  {
    var action := Do(t, Step(local));
    assert Next(cfg, Move(s, t, a), action) == Some(Move(s, t, b)) by {
      assert s.threads[t := a][t := b] == s.threads[t := b];
    }
    LeadsOn(cfg, start, actions, Move(s, t, a), action, Move(s, t, b));
    more := actions + [action];
  }

  /** The path holds `base`. */
  ghost predicate Holds(fs: Fs, base: Bytes) {
    fs.path.Some? && fs.path.value in fs.inodes && fs.inodes[fs.path.value].content == base
  }

  /** Reading on from the first `n` bytes to the end. */
  lemma {:induction false} ReadsOn(
    cfg: Config, start: State, actions: seq<Action>, s: State, t: ThreadId, before: FileStamp, base: Bytes, n: nat)
    returns (more: seq<Action>)
    requires t in s.threads && n <= |base| <= MAX_FILE_BYTES
    requires before.identity in s.fs.inodes && s.fs.inodes[before.identity].content == base
    requires Leads(cfg, start, actions, Move(s, t, Reading(1, before, base[..n])))
    ensures Leads(cfg, start, more, Move(s, t, ReadDone(1, before, base))) && Continues(actions, more, t)
    decreases |base| - n
  {
    if n == |base| {
      assert base[..n] == base;
      more := StepsOn(cfg, start, actions, s, t, Reading(1, before, base[..n]), Read(1), ReadDone(1, before, base));
    } else {
      assert base[..n] + base[n..n + 1] == base[..n + 1];
      var a := StepsOn(cfg, start, actions, s, t,
        Reading(1, before, base[..n]), Read(1), Reading(1, before, base[..n + 1]));
      more := ReadsOn(cfg, start, a, s, t, before, base, n + 1);
    }
  }

  /** A thread that starts now loads what the path holds, old or new, and plans to replace it. */
  lemma LoadsAndPlans(
    cfg: Config, start: State, actions: seq<Action>, s: State, t: ThreadId, base: Bytes, content: Bytes)
    returns (more: seq<Action>, stamp: FileStamp)
    requires Leads(cfg, start, actions, s) && t in s.threads && s.threads[t] == Start(1)
    requires Holds(s.fs, base) && |base| <= MAX_FILE_BYTES && cfg.decide(t, Some(base)) == Replacing(content)
    ensures stamp == Capture(s.fs, s.fs.path.value, s.fs.now)
    ensures Leads(cfg, start, more, Move(s, t, Planned(Overwrite(base, stamp, content))))
    ensures Continues(actions, more, t)
  {
    var k, now := s.fs.path.value, s.fs.now;
    stamp := Capture(s.fs, k, now);
    var plan := Overwrite(base, stamp, content);
    assert Move(s, t, Start(1)) == s by { assert s.threads[t := Start(1)] == s.threads; }
    var a := StepsOn(cfg, start, actions, s, t, Start(1), Open, Opened(1, k));
    a := StepsOn(cfg, start, a, s, t, Opened(1, k), StatBefore(now), Reading(1, stamp, []));
    assert base[..0] == [];
    a := ReadsOn(cfg, start, a, s, t, stamp, base, 0);
    a := StepsOn(cfg, start, a, s, t, ReadDone(1, stamp, base), StatAfter(now), Restatted(1, stamp, base, stamp));
    more := Settles(cfg, start, a, s, t, stamp, base, plan);
  }

  /** The path still shows the stamp; a racy one is settled by reading again. */
  lemma Settles(
    cfg: Config, start: State, actions: seq<Action>, s: State, t: ThreadId, stamp: FileStamp, base: Bytes, plan: Plan)
    returns (more: seq<Action>)
    requires t in s.threads && Holds(s.fs, base) && stamp == Capture(s.fs, s.fs.path.value, s.fs.now)
    requires Leads(cfg, start, actions, Move(s, t, Restatted(1, stamp, base, stamp)))
    requires Loaded(cfg, t, base, stamp) == Planned(plan)
    ensures Leads(cfg, start, more, Move(s, t, Planned(plan))) && Continues(actions, more, t)
  {
    if stamp.racy {
      var a := StepsOn(cfg, start, actions, s, t,
        Restatted(1, stamp, base, stamp), StatPath, Rereading(1, base, stamp));
      more := StepsOn(cfg, start, a, s, t, Rereading(1, base, stamp), Reread, Planned(plan));
    } else {
      more := StepsOn(cfg, start, actions, s, t, Restatted(1, stamp, base, stamp), StatPath, Planned(plan));
    }
  }

  /** The check finds the stamp, and, if that is racy, the content behind it. */
  lemma Clears(
    cfg: Config, start: State, actions: seq<Action>, s: State, t: ThreadId, plan: Plan, temp: InodeId)
    returns (more: seq<Action>, r: State)
    requires Leads(cfg, start, actions, s) && t in s.threads && s.threads[t] == TempReady(plan, temp)
    requires plan.Overwrite? && plan.stamp.len == |plan.base| && s.fs.View() == Some(plan.base)
    requires CapturePath(s.fs, s.fs.now).Some? && CapturePath(s.fs, s.fs.now).value.Same(plan.stamp)
    ensures Leads(cfg, start, more, r) && r == Move(s, t, Cleared(plan, temp)) && Continues(actions, more, t)
  {
    r := Move(s, t, Cleared(plan, temp));
    if plan.stamp.racy {
      var s1 := Move(s, t, Matched(plan, temp));
      LeadsOn(cfg, start, actions, s, Do(t, CheckStamp), s1);
      var a := actions + [Do(t, CheckStamp)];
      assert Bounded(plan.base, plan.stamp.len) == plan.base;
      assert Next(cfg, s1, Do(t, CheckContent)) == Some(r) by {
        assert s.threads[t := Matched(plan, temp)][t := Cleared(plan, temp)] == s.threads[t := Cleared(plan, temp)];
      }
      LeadsOn(cfg, start, a, s1, Do(t, CheckContent), r);
      more := a + [Do(t, CheckContent)];
    } else {
      LeadsOn(cfg, start, actions, s, Do(t, CheckStamp), r);
      more := actions + [Do(t, CheckStamp)];
    }
  }

  lemma Replaces(
    cfg: Config, start: State, actions: seq<Action>, s: State, t: ThreadId, plan: Plan, temp: InodeId)
    returns (more: seq<Action>, r: State)
    requires Leads(cfg, start, actions, s) && Ready(cfg, s, t, plan) && s.fs.path != Some(temp)
    requires plan.Overwrite? && Holds(s.fs, plan.base)
    requires plan.stamp == Capture(s.fs, s.fs.path.value, s.fs.now)
    ensures Leads(cfg, start, more, r) && Put(cfg, s, r, t, plan) && Continues(actions, more, t)
  {
    var a, s1 := PreparesTemp(cfg, start, actions, s, t, plan, temp);
    var b, s2 := Clears(cfg, start, a, s1, t, plan, temp);
    more, r := PutsInPlace(cfg, start, b, s2, t, plan, temp, Rename(s2.fs.now));
  }

  // ---------------------------------------------------------------- what outsiders can do

  /** An outsider removes the file before anybody looks. */
  lemma Disappears(cfg: Config, start: State) returns (actions: seq<Action>, r: State)
    requires Init(cfg, start)
    ensures Leads(cfg, start, actions, r) && r.threads == start.threads && r.lock == None
    ensures r.fs.path == None && FsOk(cfg.timing, r.fs)
  {
    r := Next(cfg, start, Meddle(Unlink)).value;
    assert Leads(cfg, start, [], start);
    LeadsOn(cfg, start, [], start, Meddle(Unlink), r);
    actions := [] + [Meddle(Unlink)];
  }

  /** An outsider writes a new file and gives it the path. */
  lemma Appears(cfg: Config, start: State, actions: seq<Action>, s: State, base: Bytes)
    returns (more: seq<Action>, r: State)
    requires Leads(cfg, start, actions, s) && s.lock == None && s.fs.path == None && FsOk(cfg.timing, s.fs)
    ensures Leads(cfg, start, more, r) && r.threads == s.threads && r.lock == None
    ensures Holds(r.fs, base) && r.fs.path == Some(0) && FsOk(cfg.timing, r.fs)
  {
    var write := Meddle(Rewrite(0, Inode(base, s.fs.now, s.fs.now, s.fs.now)));
    var s1 := Next(cfg, s, write).value;
    LeadsOn(cfg, start, actions, s, write, s1);
    r := Next(cfg, s1, Meddle(Point(0))).value;
    LeadsOn(cfg, start, actions + [write], s1, Meddle(Point(0)), r);
    more := actions + [write] + [Meddle(Point(0))];
  }
}
