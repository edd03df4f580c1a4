/**
 * The disk as the sequential server sees it: every system call is preceded by whatever an external
 * writer does, taken from an arbitrary script.
 */
module Disk {
  import opened Numbers
  import opened FileSystem

  type PathId = nat

  type Files = map<PathId, Fs>

  /**
   * What an outsider may do: let time pass, rewrite a named file in place, create a file, rename one
   * onto the path, or remove the path. A file that lost its name is no longer written, and the server's
   * pending temporary file is left alone.
   */
  datatype Disturbance =
    | Pass(duration: nat)
    | InPlace(p: PathId, content: Bytes, mtime: int, ctime: int)
    | Create(p: PathId, k: InodeId, content: Bytes, mtime: int, ctime: int)
    | Point(p: PathId, k: InodeId)
    | Unlink(p: PathId)

  /** A temporary file the server has created but not yet renamed. */
  type Temp = Option<(PathId, InodeId)>

  /** The effect of one disturbance; one that is not possible has none. */
  function Disturbed(timing: Timing, temp: Temp, files: Files, d: Disturbance): (r: Files)
    ensures r.Keys == files.Keys
  {
    match d
    case Pass(duration) => map p | p in files :: files[p].(now := files[p].now + duration)
    case InPlace(p, content, mtime, ctime) =>
      if p in files && files[p].path.Some? && Ticks(timing, files[p].now, ctime) then
        var fs := files[p];
        files[p := fs.(inodes := fs.inodes[fs.path.value := Inode(content, mtime, ctime, fs.now)])]
      else files
    case Create(p, k, content, mtime, ctime) =>
      if p in files && k !in files[p].inodes && Ticks(timing, files[p].now, ctime) then
        var fs := files[p];
        files[p := fs.(inodes := fs.inodes[k := Inode(content, mtime, ctime, fs.now)])]
      else files
    case Point(p, k) =>
      if p in files && k in files[p].inodes && temp != Some((p, k)) then
        files[p := files[p].(path := Some(k))]
      else files
    case Unlink(p) =>
      if p in files then files[p := files[p].(path := None)] else files
  }

  ghost predicate FilesOk(timing: Timing, files: Files) {
    forall p {:trigger FsOk(timing, files[p])} :: p in files ==> FsOk(timing, files[p])
  }

  ghost predicate FilesEvolve(files: Files, files': Files) {
    && files.Keys == files'.Keys
    && forall p {:trigger Evolves(files[p], files'[p])} :: p in files ==> Evolves(files[p], files'[p])
  }

  lemma DisturbedEvolves(timing: Timing, temp: Temp, files: Files, d: Disturbance)
    requires FilesOk(timing, files)
    ensures FilesOk(timing, Disturbed(timing, temp, files, d))
    ensures FilesEvolve(files, Disturbed(timing, temp, files, d))
  {
    forall p | p in files
      ensures FsOk(timing, Disturbed(timing, temp, files, d)[p])
      ensures Evolves(files[p], Disturbed(timing, temp, files, d)[p])
    {
      assert FsOk(timing, files[p]);
    }
  }

  /** Every state the files went through, oldest first. */
  type Trail = seq<Files>

  ghost predicate TrailOk(timing: Timing, trail: Trail) {
    && |trail| > 0
    && (forall i {:trigger FilesOk(timing, trail[i])} :: 0 <= i < |trail| ==> FilesOk(timing, trail[i]))
    && (forall i, j {:trigger FilesEvolve(trail[i], trail[j])} ::
          0 <= i <= j < |trail| ==> FilesEvolve(trail[i], trail[j]))
  }

  lemma TrailGrows(timing: Timing, trail: Trail, files: Files)
    requires TrailOk(timing, trail) && FilesOk(timing, files) && FilesEvolve(trail[|trail| - 1], files)
    ensures TrailOk(timing, trail + [files])
  {
    var last := |trail| - 1;
    forall i | 0 <= i < |trail|
      ensures FilesEvolve(trail[i], files)
    {
      assert FilesEvolve(trail[i], trail[last]);
      forall p | p in files
        ensures Evolves(trail[i][p], files[p])
      {
        EvolvesTransitive(trail[i][p], trail[last][p], files[p]);
      }
    }
  }

  /** At some instant of the stretch, `p` held exactly `content`. */
  ghost predicate ShownBetween(trail: Trail, p: PathId, content: Bytes, from: nat, until: nat) {
    exists i :: from <= i < until && i < |trail| && p in trail[i] && trail[i][p].View() == Some(content)
  }

  /** At some instant from `from` on, `p` held exactly `content`. */
  ghost predicate ShownSince(trail: Trail, p: PathId, content: Bytes, from: nat) {
    ShownBetween(trail, p, content, from, |trail|)
  }

  /** Inode `k` was opened through `p` at or after `from`, and what it holds now is what `p` showed since. */
  ghost predicate Held(trail: Trail, p: PathId, k: InodeId, from: nat) {
    && from < |trail| && p in trail[|trail| - 1] && k in trail[|trail| - 1][p].inodes
    && ShownSince(trail, p, trail[|trail| - 1][p].inodes[k].content, from)
  }

  /** At some instant of the stretch, `p` held nothing. */
  ghost predicate AbsentBetween(trail: Trail, p: PathId, from: nat, until: nat) {
    exists i :: from <= i < until && i < |trail| && p in trail[i] && trail[i][p].View() == None
  }

  /** `p` held nothing at some instant from `from` on. */
  ghost predicate AbsentSince(trail: Trail, p: PathId, from: nat) {
    AbsentBetween(trail, p, from, |trail|)
  }

  /** The path's file system was `fs` at some instant from `from` on. */
  ghost predicate OnTrail(trail: Trail, p: PathId, fs: Fs, from: nat) {
    exists i :: from <= i < |trail| && p in trail[i] && trail[i][p] == fs
  }

  // ---------------------------------------------------------------- calm

  /** The path names the same file, unchanged. */
  predicate SameFile(a: Fs, b: Fs) {
    && a.path == b.path
    && (a.path.Some? ==>
          a.path.value in a.inodes && a.path.value in b.inodes && a.inodes[a.path.value] == b.inodes[a.path.value])
  }

  ghost predicate SameAt(trail: Trail, p: PathId, from: nat, i: nat)
    requires from < |trail| && i < |trail|
  {
    p in trail[from] && p in trail[i] && SameFile(trail[from][p], trail[i][p])
  }

  /** Over the stretch the path named one file and nobody changed it. */
  ghost predicate CalmBetween(trail: Trail, p: PathId, from: nat, until: nat) {
    && from < until <= |trail|
    && forall i {:trigger SameAt(trail, p, from, i)} :: from <= i < until ==> SameAt(trail, p, from, i)
  }

  /** From `from` on the path named one file and nobody changed it. */
  ghost predicate Calm(trail: Trail, p: PathId, from: nat) {
    CalmBetween(trail, p, from, |trail|)
  }

  lemma CalmAt(trail: Trail, p: PathId, from: nat, i: nat)
    requires Calm(trail, p, from) && from <= i < |trail|
    ensures p in trail[from] && p in trail[i] && SameFile(trail[from][p], trail[i][p])
    ensures trail[i][p].View() == trail[from][p].View()
  {
    assert SameAt(trail, p, from, i);
  }

  /** What is calm over two stretches is calm over each, and the file is the same at their common instant. */
  lemma CalmParts(first: Trail, trail: Trail, p: PathId, from: nat)
    requires |first| <= |trail| && first == trail[..|first|] && from < |first| && Calm(trail, p, from)
    ensures Calm(first, p, from) && Calm(trail, p, |first| - 1)
    ensures p in trail[from] && p in first[|first| - 1] && SameFile(trail[from][p], first[|first| - 1][p])
  {
    var middle := |first| - 1;
    CalmAt(trail, p, from, middle);
    forall i | from <= i < |first|
      ensures SameAt(first, p, from, i)
    {
      CalmAt(trail, p, from, i);
    }
    forall i | middle <= i < |trail|
      ensures SameAt(trail, p, middle, i)
    {
      CalmAt(trail, p, from, i);
    }
  }

  lemma CalmOnTrail(trail: Trail, p: PathId, from: nat, fs: Fs)
    requires Calm(trail, p, from) && OnTrail(trail, p, fs, from)
    ensures p in trail[from] && SameFile(trail[from][p], fs)
  {
    var i :| from <= i < |trail| && p in trail[i] && trail[i][p] == fs;
    CalmAt(trail, p, from, i);
  }

  /** What a calm path showed is what it held all along. */
  lemma CalmShown(trail: Trail, p: PathId, from: nat, content: Bytes)
    requires Calm(trail, p, from) && ShownSince(trail, p, content, from)
    ensures p in trail[from] && trail[from][p].View() == Some(content)
  {
    var i :| from <= i < |trail| && p in trail[i] && trail[i][p].View() == Some(content);
    CalmAt(trail, p, from, i);
  }

  lemma OnLongerTrail(trail: Trail, longer: Trail, p: PathId, fs: Fs, from: nat, earlier: nat)
    requires |trail| <= |longer| && trail == longer[..|trail|] && earlier <= from && OnTrail(trail, p, fs, from)
    ensures OnTrail(longer, p, fs, earlier)
  {
    var i :| from <= i < |trail| && p in trail[i] && trail[i][p] == fs;
    assert longer[i] == trail[i];
  }

  lemma AbsentStays(trail: Trail, longer: Trail, p: PathId, from: nat, earlier: nat)
    requires |trail| <= |longer| && trail == longer[..|trail|] && earlier <= from && AbsentSince(trail, p, from)
    ensures AbsentSince(longer, p, earlier)
  {
    var i :| from <= i < |trail| && p in trail[i] && trail[i][p].View() == None;
    assert longer[i] == trail[i];
  }

  // ---------------------------------------------------------------- stretches of the trail

  /** What was shown on the trail so far was shown before whatever came after it. */
  lemma ShownBefore(soFar: Trail, trail: Trail, p: PathId, content: Bytes, from: nat, until: nat)
    requires |soFar| <= |trail| && soFar == trail[..|soFar|] && |soFar| <= until && ShownSince(soFar, p, content, from)
    ensures ShownBetween(trail, p, content, from, until)
  {
    var i :| from <= i < |soFar| && p in soFar[i] && soFar[i][p].View() == Some(content);
    assert trail[i] == soFar[i];
  }

  lemma AbsentBefore(soFar: Trail, trail: Trail, p: PathId, from: nat, until: nat)
    requires |soFar| <= |trail| && soFar == trail[..|soFar|] && |soFar| <= until && AbsentSince(soFar, p, from)
    ensures AbsentBetween(trail, p, from, until)
  {
    var i :| from <= i < |soFar| && p in soFar[i] && soFar[i][p].View() == None;
    assert trail[i] == soFar[i];
  }

  /** Calm so far is calm on a longer trail up to there. */
  lemma CalmBefore(soFar: Trail, trail: Trail, p: PathId, from: nat)
    requires |soFar| <= |trail| && soFar == trail[..|soFar|]
    ensures Calm(soFar, p, from) <==> CalmBetween(trail, p, from, |soFar|)
  {
    if Calm(soFar, p, from) {
      forall i | from <= i < |soFar|
        ensures SameAt(trail, p, from, i)
      {
        assert SameAt(soFar, p, from, i);
      }
    }
    if CalmBetween(trail, p, from, |soFar|) {
      forall i | from <= i < |soFar|
        ensures SameAt(soFar, p, from, i)
      {
        assert SameAt(trail, p, from, i);
      }
    }
  }

  lemma CalmWithin(trail: Trail, p: PathId, from: nat, middle: nat, until: nat)
    requires CalmBetween(trail, p, from, until) && from <= middle < until
    ensures CalmBetween(trail, p, from, middle + 1) && CalmBetween(trail, p, middle, until)
    ensures p in trail[from] && p in trail[middle] && SameFile(trail[from][p], trail[middle][p])
    ensures trail[middle][p].View() == trail[from][p].View()
  {
    assert SameAt(trail, p, from, middle);
    forall i | middle <= i < until
      ensures SameAt(trail, p, middle, i)
    {
      assert SameAt(trail, p, from, i);
    }
  }

  // ---------------------------------------------------------------- who did it

  /** What an outsider did, or a step that left every path naming what it named. */
  ghost predicate ServerSilent(timing: Timing, before: Files, after: Files) {
    (exists temp, d :: after == Disturbed(timing, temp, before, d)) || SameNames(before, after)
  }

  ghost predicate SameNames(before: Files, after: Files) {
    before.Keys == after.Keys && forall p :: p in before ==> SameFile(before[p], after[p])
  }

  ghost predicate SilentAt(timing: Timing, trail: Trail, i: nat)
    requires 0 < i < |trail|
  {
    ServerSilent(timing, trail[i - 1], trail[i])
  }

  /** The server changed what a path names only at the instants in `swaps`. */
  ghost predicate OnlySwaps(timing: Timing, trail: Trail, swaps: seq<nat>) {
    forall i {:trigger SilentAt(timing, trail, i)} :: 0 < i < |trail| && i !in swaps ==> SilentAt(timing, trail, i)
  }

  lemma SilentLonger(timing: Timing, trail: Trail, swaps: seq<nat>, files: Files, swaps': seq<nat>)
    requires |trail| > 0 && OnlySwaps(timing, trail, swaps)
    requires forall i :: i in swaps ==> i in swaps'
    requires |trail| in swaps' || ServerSilent(timing, trail[|trail| - 1], files)
    ensures OnlySwaps(timing, trail + [files], swaps')
  {
    var longer := trail + [files];
    forall i | 0 < i < |longer| && i !in swaps'
      ensures SilentAt(timing, longer, i)
    {
      if i < |trail| {
        assert SilentAt(timing, trail, i);
      }
    }
  }

  // ---------------------------------------------------------------- time

  /** The path's clock shows `elapsed` more than at the first instant. */
  ghost predicate TimeAt(trail: Trail, p: PathId, elapsed: nat)
    requires |trail| > 0
  {
    p in trail[0] && p in trail[|trail| - 1] && trail[|trail| - 1][p].now == trail[0][p].now + elapsed
  }

  /** So much time has passed since the first instant. */
  ghost predicate Timed(trail: Trail, elapsed: nat) {
    && |trail| > 0
    && forall p {:trigger TimeAt(trail, p, elapsed)} :: p in trail[|trail| - 1] ==> TimeAt(trail, p, elapsed)
  }

  /** How long a disturbance takes. */
  function Duration(d: Disturbance): nat {
    if d.Pass? then d.duration else 0
  }

  lemma TimedGrows(trail: Trail, elapsed: nat, files: Files, duration: nat)
    requires Timed(trail, elapsed) && files.Keys == trail[|trail| - 1].Keys
    requires forall p :: p in files ==> files[p].now == trail[|trail| - 1][p].now + duration
    ensures Timed(trail + [files], elapsed + duration)
  {
    forall p | p in files
      ensures TimeAt(trail + [files], p, elapsed + duration)
    {
      assert TimeAt(trail, p, elapsed);
    }
  }

  /** A bracket within a stretch of the trail is no longer than the stretch. */
  lemma BracketWithin(
    soFar: Trail, before: nat, trail: Trail, elapsed: nat, p: PathId, from: Time, to: Time)
    requires Timed(soFar, before) && Timed(trail, elapsed) && |soFar| <= |trail| && soFar == trail[..|soFar|]
    requires p in soFar[|soFar| - 1] && p in trail[|trail| - 1]
    requires soFar[|soFar| - 1][p].now <= from && to <= trail[|trail| - 1][p].now
    ensures to - from <= elapsed - before
  {
    assert TimeAt(soFar, p, before) && TimeAt(trail, p, elapsed);
  }

  // ---------------------------------------------------------------- disturbances and the trail

  /** A disturbance that changes an inode changes the one the path names. */
  lemma OnlyNamedInodesChange(timing: Timing, temp: Temp, files: Files, d: Disturbance, p: PathId, k: InodeId)
    requires FilesOk(timing, files) && p in files && k in files[p].inodes
    ensures var files' := Disturbed(timing, temp, files, d);
      && p in files' && k in files'[p].inodes
      && (files'[p].inodes[k].content == files[p].inodes[k].content ||
          files'[p].View() == Some(files'[p].inodes[k].content))
  {
  }

  lemma ShownLonger(trail: Trail, files: Files, p: PathId, content: Bytes, from: nat)
    requires ShownSince(trail, p, content, from) ||
      (from <= |trail| && p in files && files[p].View() == Some(content))
    ensures ShownSince(trail + [files], p, content, from)
  {
    var longer := trail + [files];
    if ShownSince(trail, p, content, from) {
      var i :| from <= i < |trail| && p in trail[i] && trail[i][p].View() == Some(content);
      assert longer[i] == trail[i];
    } else {
      assert longer[|trail|] == files;
    }
  }

  lemma HeldKept(timing: Timing, temp: Temp, trail: Trail, d: Disturbance, p: PathId, k: InodeId, from: nat)
    requires |trail| > 0 && FilesOk(timing, trail[|trail| - 1]) && Held(trail, p, k, from)
    ensures Held(trail + [Disturbed(timing, temp, trail[|trail| - 1], d)], p, k, from)
  {
    var files := trail[|trail| - 1];
    var files' := Disturbed(timing, temp, files, d);
    OnlyNamedInodesChange(timing, temp, files, d, p, k);
    ShownLonger(trail, files', p, files'[p].inodes[k].content, from);
  }

  ghost predicate AllHeldKept(trail: Trail, longer: Trail) {
    forall p, k, from: nat {:trigger Held(longer, p, k, from)} :: Held(trail, p, k, from) ==> Held(longer, p, k, from)
  }

  /** One disturbance extends the trail and keeps open files held. */
  lemma TrailDisturbed(timing: Timing, temp: Temp, trail: Trail, d: Disturbance)
    requires TrailOk(timing, trail)
    ensures TrailOk(timing, trail + [Disturbed(timing, temp, trail[|trail| - 1], d)])
    ensures AllHeldKept(trail, trail + [Disturbed(timing, temp, trail[|trail| - 1], d)])
  {
    assert FilesOk(timing, trail[|trail| - 1]);
    DisturbedEvolves(timing, temp, trail[|trail| - 1], d);
    TrailGrows(timing, trail, Disturbed(timing, temp, trail[|trail| - 1], d));
    forall p, k, from: nat | Held(trail, p, k, from)
      ensures Held(trail + [Disturbed(timing, temp, trail[|trail| - 1], d)], p, k, from)
    {
      HeldKept(timing, temp, trail, d, p, k, from);
    }
  }

  lemma AllHeldKeptTransitive(a: Trail, b: Trail, c: Trail)
    requires AllHeldKept(a, b) && AllHeldKept(b, c)
    ensures AllHeldKept(a, c)
  {
  }

  lemma PrefixOn(a: Trail, b: Trail, c: Trail)
    requires |a| <= |b| <= |c| && a == b[..|a|] && b == c[..|b|]
    ensures a == c[..|a|]
  {
  }

  /** Facts about an earlier instant of the trail and the present. */
  lemma Instant(timing: Timing, trail: Trail, at: nat, p: PathId)
    requires TrailOk(timing, trail) && at < |trail| && p in trail[|trail| - 1]
    ensures p in trail[at] && FsOk(timing, trail[at][p]) && FsOk(timing, trail[|trail| - 1][p])
    ensures Evolves(trail[at][p], trail[|trail| - 1][p])
  {
    assert FilesOk(timing, trail[at]) && FilesOk(timing, trail[|trail| - 1]);
    assert FilesEvolve(trail[at], trail[|trail| - 1]);
    assert FsOk(timing, trail[at][p]) && FsOk(timing, trail[|trail| - 1][p]);
    assert Evolves(trail[at][p], trail[|trail| - 1][p]);
  }

  /** Nobody has interfered since the last instant. */
  lemma CalmNow(timing: Timing, trail: Trail, p: PathId)
    requires TrailOk(timing, trail) && p in trail[|trail| - 1]
    ensures Calm(trail, p, |trail| - 1)
  {
    Instant(timing, trail, |trail| - 1, p);
    assert SameAt(trail, p, |trail| - 1, |trail| - 1);
  }

  /** The pending temporary file has no name yet. */
  ghost predicate TempOk(temp: Temp, files: Files) {
    temp.Some? ==>
      && temp.value.0 in files && temp.value.1 in files[temp.value.0].inodes
      && files[temp.value.0].path != Some(temp.value.1)
  }

  /** Nobody but the server touches its temporary file. */
  ghost predicate TempKept(temp: Temp, files: Files, files': Files) {
    temp.Some? && TempOk(temp, files) ==>
      && TempOk(temp, files')
      && files'[temp.value.0].inodes[temp.value.1] == files[temp.value.0].inodes[temp.value.1]
  }

  lemma DisturbedTempKept(timing: Timing, temp: Temp, files: Files, d: Disturbance)
    ensures TempKept(temp, files, Disturbed(timing, temp, files, d))
  {
  }

  /** An inode number the kernel has free. */
  method FreshInode(inodes: map<InodeId, Inode>) returns (k: InodeId)
    ensures k !in inodes
  {
    k := 0;
    var left := inodes.Keys;
    while left != {}
      invariant forall x :: x in inodes && x !in left ==> x < k
      decreases |left|
    {
      var x :| x in left;
      left := left - {x};
      k := Max(k, x + 1);
    }
  }

  class Device {
    const timing: Timing
    var files: Files
    var temp: Temp
    /** What outsiders do before each system call. */
    var script: seq<seq<Disturbance>>
    /** What the kernel is free to choose: short reads and the lag of coarse timestamps. */
    var choices: seq<nat>
    ghost var trail: Trail
    /** The instants at which the server renamed or linked a file onto a path. */
    ghost var swaps: seq<nat>
    /** The time that has passed since the first instant. */
    ghost var elapsed: nat
    /** Some stat-to-stat, stat-to-clock or rename-to-stat bracket took longer than the bound. */
    ghost var late: bool

    ghost predicate Valid()
      reads this
    {
      && TrailOk(timing, trail) && files == trail[|trail| - 1] && TempOk(temp, files)
      && OnlySwaps(timing, trail, swaps) && Timed(trail, elapsed)
    }

    /**
     * Earlier instants stay on the trail. Lateness is never forgotten, and a call makes the device late only by
     * taking longer than the bound. Time passes only where the script lets it pass.
     */
    twostate predicate Onward()
      reads this
    {
      && |old(trail)| <= |trail| && old(trail) == trail[..|old(trail)|]
      && files.Keys == old(files).Keys
      && old(elapsed) <= elapsed
      && (old(late) ==> late)
      && (late ==> old(late) || old(elapsed) + timing.bracket < elapsed)
      && (|old(script)| == 0 ==> |script| == 0 && elapsed == old(elapsed))
    }

    /** The device was in time, and no more than the longest legal bracket has passed since. */
    twostate predicate InTime()
      reads this
    {
      !old(late) && elapsed <= old(elapsed) + timing.bracket
    }

    /** Additionally only outsiders acted: open files stay held, the temporary file is untouched. */
    twostate predicate Undisturbed()
      reads this
    {
      && Onward() && AllHeldKept(old(trail), trail)
      && temp == old(temp) && TempKept(temp, old(files), files)
      && swaps == old(swaps)
      && (|old(script)| == 0 ==> trail == old(trail))
    }

    constructor (timing: Timing, files: Files, script: seq<seq<Disturbance>>, choices: seq<nat>)
      requires FilesOk(timing, files)
      ensures Valid() && this.timing == timing && this.files == files
      ensures this.script == script && this.choices == choices
      ensures trail == [files] && swaps == [] && elapsed == 0 && !late && temp == None
    {
      this.timing := timing;
      this.files := files;
      this.temp := None;
      this.script := script;
      this.choices := choices;
      this.trail := [files];
      this.swaps := [];
      this.elapsed := 0;
      this.late := false;
      assert FilesEvolve(files, files);
      assert forall p :: p in files ==> TimeAt([files], p, 0);
    }

    method Disturb(d: Disturbance)
      requires Valid() && |script| > 0
      modifies this`files, this`trail, this`elapsed
      ensures Valid() && Undisturbed() && late == old(late)
    {
      TrailDisturbed(timing, temp, trail, d);
      DisturbedTempKept(timing, temp, files, d);
      assert FilesOk(timing, trail[|trail| - 1]);
      DisturbedEvolves(timing, temp, files, d);
      SilentLonger(timing, trail, swaps, Disturbed(timing, temp, files, d), swaps);
      TimedGrows(trail, elapsed, Disturbed(timing, temp, files, d), Duration(d));
      files := Disturbed(timing, temp, files, d);
      trail := trail + [files];
      elapsed := elapsed + Duration(d);
    }

    /** The external writer acts: the next block of the script, or nothing once it is used up. */
    method Interfere()
      requires Valid()
      modifies this`files, this`script, this`trail, this`elapsed
      ensures Valid() && Undisturbed()
    {
      if |script| == 0 {
        return;
      }
      var block := script[0];
      for i := 0 to |block|
        invariant Valid() && Undisturbed() && script == old(script)
      {
        ghost var before := trail;
        Disturb(block[i]);
        AllHeldKeptTransitive(old(trail), before, trail);
      }
      script := script[1..];
    }

    method Choose(bound: nat) returns (n: nat)
      requires Valid()
      modifies this`choices
      ensures Valid() && n <= bound
    {
      if |choices| == 0 {
        return bound;
      }
      n := Min(choices[0], bound);
      choices := choices[1..];
    }

    ghost method NoteBracket(from: Time, to: Time)
      requires Valid()
      modifies this`late
      ensures Valid() && late == (old(late) || to > from + timing.bracket)
    {
      late := late || to > from + timing.bracket;
    }

    /** Read the clock some time after the instant of a stat. */
    method Clock(p: PathId) returns (clock: Time)
      requires Valid() && p in files
      modifies this
      ensures Valid() && Undisturbed() && Evolves(old(files)[p], files[p])
      ensures old(files)[p].now <= clock == files[p].now
      ensures !late ==> clock <= old(files)[p].now + timing.bracket
    {
      ghost var start, since := |trail| - 1, files[p].now;
      Interfere();
      Instant(timing, trail, start, p);
      clock := files[p].now;
      BracketWithin(old(trail), old(elapsed), trail, elapsed, p, since, clock);
      NoteBracket(since, clock);
    }

    /** `stat` on the path, then the clock: `atStat` is the path's file system at the first instant. */
    method StatPath(p: PathId) returns (stamp: Option<FileStamp>, ghost atStat: Fs)
      requires Valid() && p in files
      modifies this
      ensures Valid() && Undisturbed()
      ensures FsOk(timing, atStat) && Evolves(old(files)[p], atStat) && Evolves(atStat, files[p])
      ensures OnTrail(trail, p, atStat, |old(trail)| - 1)
      ensures stamp.Some? <==> atStat.View().Some?
      ensures stamp.Some? ==>
        && stamp == CapturePath(atStat, stamp.value.capturedAt)
        && ShownSince(trail, p, stamp.value.seen, |old(trail)| - 1)
        && atStat.now <= stamp.value.capturedAt <= files[p].now
        && (!late ==> stamp.value.capturedAt <= stamp.value.takenAt + timing.bracket)
    {
      ghost var start := |trail| - 1;
      Interfere();
      Instant(timing, trail, start, p);
      var fs := files[p];
      atStat := fs;
      ghost var soFar := trail;
      assert soFar[|soFar| - 1][p] == atStat;
      if fs.path.None? {
        return None, atStat;
      }
      var clock := Clock(p);
      AllHeldKeptTransitive(old(trail), soFar, trail);
      stamp := CapturePath(fs, clock);
      assert trail[|soFar| - 1] == soFar[|soFar| - 1];
      OnLongerTrail(soFar, trail, p, fs, |old(trail)| - 1, |old(trail)| - 1);
    }

    method Open(p: PathId) returns (fd: Option<InodeId>)
      requires Valid() && p in files
      modifies this
      ensures Valid() && Undisturbed()
      ensures Evolves(old(files)[p], files[p])
      ensures fd == files[p].path && (fd.None? ==> AbsentSince(trail, p, |old(trail)| - 1))
      ensures fd.Some? ==> fd.value in files[p].inodes && Held(trail, p, fd.value, |old(trail)| - 1)
    {
      ghost var start := |trail| - 1;
      Interfere();
      fd := files[p].path;
      Instant(timing, trail, start, p);
      assert trail[|trail| - 1][p].View() == if fd.None? then None else Some(files[p].inodes[fd.value].content);
    }

    /** `fstat`, then the clock. */
    method StatFd(p: PathId, fd: InodeId) returns (stamp: FileStamp, ghost atStat: Fs)
      requires Valid() && p in files && fd in files[p].inodes
      modifies this
      ensures Valid() && Undisturbed() && fd in files[p].inodes
      ensures FsOk(timing, atStat) && Evolves(old(files)[p], atStat) && Evolves(atStat, files[p])
      ensures OnTrail(trail, p, atStat, |old(trail)| - 1)
      ensures fd in atStat.inodes && stamp == Capture(atStat, fd, stamp.capturedAt)
      ensures temp == Some((p, fd)) ==> atStat.inodes[fd] == old(files)[p].inodes[fd]
      ensures atStat.now <= stamp.capturedAt <= files[p].now
      ensures !late ==> stamp.capturedAt <= stamp.takenAt + timing.bracket
    {
      ghost var start := |trail| - 1;
      Interfere();
      Instant(timing, trail, start, p);
      var fs := files[p];
      atStat := fs;
      ghost var soFar := trail;
      assert soFar[|soFar| - 1][p] == atStat;
      var clock := Clock(p);
      AllHeldKeptTransitive(old(trail), soFar, trail);
      OnLongerTrail(soFar, trail, p, fs, |old(trail)| - 1, |old(trail)| - 1);
      stamp := Capture(fs, fd, clock);
    }

    /** One `read` from an open file: some bytes from `offset`, at most `count`, none only at the end. */
    method ReadFd(p: PathId, fd: InodeId, offset: nat, count: nat) returns (chunk: Bytes)
      requires Valid() && p in files && fd in files[p].inodes && count > 0
      modifies this
      ensures Valid() && Undisturbed() && fd in files[p].inodes && Evolves(old(files)[p], files[p])
      ensures |chunk| == 0 <==> |files[p].inodes[fd].content| <= offset
      ensures |chunk| > 0 ==>
        offset + |chunk| <= |files[p].inodes[fd].content| &&
        chunk == files[p].inodes[fd].content[offset..offset + |chunk|]
    {
      ghost var start := |trail| - 1;
      Interfere();
      Instant(timing, trail, start, p);
      var content := files[p].inodes[fd].content;
      if |content| <= offset {
        return [];
      }
      var n := Choose(Min(count, |content| - offset) - 1);
      chunk := content[offset..offset + n + 1];
    }

    /** The verification read: everything up to one byte more than `len`, in one step. */
    method ReadBounded(p: PathId, fd: InodeId, len: nat) returns (bytes: Bytes)
      requires Valid() && p in files && fd in files[p].inodes
      modifies this
      ensures Valid() && Undisturbed() && fd in files[p].inodes && Evolves(old(files)[p], files[p])
      ensures bytes == Bounded(files[p].inodes[fd].content, len)
    {
      ghost var start := |trail| - 1;
      Interfere();
      Instant(timing, trail, start, p);
      bytes := Bounded(files[p].inodes[fd].content, len);
    }

    /** Read the whole path in one step. */
    method ReadPath(p: PathId) returns (content: Option<Bytes>)
      requires Valid() && p in files
      modifies this
      ensures Valid() && Undisturbed() && Evolves(old(files)[p], files[p])
      ensures content == files[p].View()
      ensures content.Some? ==> ShownSince(trail, p, content.value, |old(trail)| - 1)
      ensures OnTrail(trail, p, files[p], |old(trail)| - 1)
    {
      ghost var start := |trail| - 1;
      Interfere();
      Instant(timing, trail, start, p);
      assert trail[|trail| - 1][p] == files[p];
      content := files[p].View();
    }

    /** Create, fill and keep open a new temporary file beside the destination. */
    method MakeTemp(p: PathId, bytes: Bytes) returns (k: InodeId)
      requires Valid() && p in files && temp == None
      modifies this
      ensures Valid() && Onward() && AllHeldKept(old(trail), trail)
      ensures temp == Some((p, k)) && swaps == old(swaps)
      ensures k in files[p].inodes && files[p].inodes[k].content == bytes
      ensures |old(script)| == 0 ==> trail == old(trail) + [files] && SameFile(old(files)[p], files[p])
    {
      Interfere();
      Instant(timing, trail, |trail| - 1, p);
      var fs := files[p];
      k := FreshInode(fs.inodes);
      var lag := Choose(timing.granularity);
      var put := fs.(inodes := fs.inodes[k := Inode(bytes, fs.now - lag, fs.now - lag, fs.now)]);
      NamesKept(timing, files, p, k, put);
      HeldBesideNew(trail, p, put);
      AllHeldKeptTransitive(old(trail), trail, trail + [files[p := put]]);
      Extend(p, put, false);
      temp := Some((p, k));
    }

    /** Rename the temporary file over the path; the kernel stamps its change time. */
    method Rename(p: PathId, k: InodeId)
      requires Valid() && p in files && temp == Some((p, k))
      modifies this
      ensures Valid() && Onward() && temp == None
      ensures |old(trail)| < |trail| && swaps == old(swaps) + [|trail| - 1]
      ensures files[p].path == Some(k) && k in files[p].inodes
      ensures files[p].inodes[k].content == old(files[p].inodes[k].content)
      ensures files[p].inodes[k].mtime == old(files[p].inodes[k].mtime)
      ensures files[p].inodes[k].changedAt == files[p].now
      ensures |old(script)| == 0 ==> trail == old(trail) + [files]
    {
      Interfere();
      Instant(timing, trail, |trail| - 1, p);
      var fs := files[p];
      var lag := Choose(timing.granularity);
      var renamed := fs.inodes[k].(ctime := fs.now - lag, changedAt := fs.now);
      temp := None;
      Extend(p, fs.(inodes := fs.inodes[k := renamed], path := Some(k)), true);
    }

    /** Link the temporary file to the path unless something is there, and drop the temporary name. */
    method Link(p: PathId, k: InodeId) returns (done: bool)
      requires Valid() && p in files && temp == Some((p, k))
      modifies this
      ensures Valid() && Onward() && temp == None
      ensures done ==>
        && files[p].path == Some(k) && k in files[p].inodes
        && files[p].inodes[k].content == old(files[p].inodes[k].content)
        && files[p].inodes[k].mtime == old(files[p].inodes[k].mtime)
        && files[p].inodes[k].changedAt == files[p].now
        && |trail| > |old(trail)| && p in trail[|trail| - 2] && trail[|trail| - 2][p].path == None
        && swaps == old(swaps) + [|trail| - 1]
      ensures !done ==> AllHeldKept(old(trail), trail) && files[p].path.Some? && swaps == old(swaps)
      ensures |old(script)| == 0 ==> trail == if done then old(trail) + [files] else old(trail)
    {
      Interfere();
      temp := None;
      Instant(timing, trail, |trail| - 1, p);
      var fs := files[p];
      if fs.path.Some? {
        return false;
      }
      var lag := Choose(timing.granularity);
      var linked := fs.inodes[k].(ctime := fs.now - lag, changedAt := fs.now);
      Extend(p, fs.(inodes := fs.inodes[k := linked], path := Some(k)), true);
      return true;
    }

    /** Remove the temporary file after a failed attempt. */
    method DropTemp()
      requires Valid()
      modifies this`temp
      ensures Valid() && temp == None
    {
      temp := None;
    }

    /** Record a change the server itself makes, and whether it changes what the path names. */
    method Extend(p: PathId, fs: Fs, ghost swap: bool)
      requires Valid() && p in files && FsOk(timing, fs) && Evolves(files[p], fs)
      requires temp == None && fs.now == files[p].now && (swap || SameNames(files, files[p := fs]))
      modifies this`files, this`trail, this`swaps
      ensures Valid() && Onward() && files == old(files)[p := fs] && trail == old(trail) + [files]
      ensures swaps == if swap then old(swaps) + [|old(trail)|] else old(swaps)
    {
      ghost var last := |trail| - 1;
      assert FilesOk(timing, trail[last]);
      var changed := files[p := fs];
      forall q | q in changed
        ensures FsOk(timing, changed[q]) && Evolves(files[q], changed[q])
      {
        assert FsOk(timing, files[q]);
      }
      TrailGrows(timing, trail, changed);
      ghost var marked := if swap then swaps + [|trail|] else swaps;
      SilentLonger(timing, trail, swaps, changed, marked);
      TimedGrows(trail, elapsed, changed, 0);
      files := changed;
      trail := trail + [files];
      swaps := marked;
    }
  }

  /** A new inode leaves every path naming what it named. */
  lemma NamesKept(timing: Timing, files: Files, p: PathId, k: InodeId, put: Fs)
    requires FilesOk(timing, files) && p in files && k !in files[p].inodes
    requires put.path == files[p].path && put.inodes.Keys == files[p].inodes.Keys + {k}
    requires forall x :: x in files[p].inodes ==> put.inodes[x] == files[p].inodes[x]
    ensures SameNames(files, files[p := put]) && SameFile(files[p], put)
  {
    forall q | q in files
      ensures SameFile(files[q], files[p := put][q])
    {
      assert FsOk(timing, files[q]);
    }
  }

  /** A new inode does not touch open files. */
  lemma HeldBesideNew(trail: Trail, p: PathId, put: Fs)
    requires |trail| > 0 && p in trail[|trail| - 1]
    requires forall x :: x in trail[|trail| - 1][p].inodes ==>
      x in put.inodes && put.inodes[x] == trail[|trail| - 1][p].inodes[x]
    ensures AllHeldKept(trail, trail + [trail[|trail| - 1][p := put]])
  {
    var files := trail[|trail| - 1][p := put];
    forall q: PathId, k: InodeId, from: nat | Held(trail, q, k, from)
      ensures Held(trail + [files], q, k, from)
    {
      ShownLonger(trail, files, q, files[q].inodes[k].content, from);
    }
  }
}
