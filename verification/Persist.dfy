/** Atomic persistence, call by call: temporary file, destination check, rename or link, confirmed stamp. */
module Persist {
  import opened Numbers
  import opened Protocol
  import opened FileSystem
  import opened Disk
  import opened Cache

  datatype PersistError = DestinationChanged | DestinationExists

  /** What a guarded write still wants to find: the stamp of the base snapshot and its identity. */
  datatype ExpectedDestination = ExpectedDestination(stamp: FileStamp, contentId: SnapshotId)

  /** A stamp confirmed after the rename: inside the racy window, so never trusted without a read. */
  ghost predicate Adoptable(disk: Device, p: PathId, bytes: Bytes, stamp: Option<FileStamp>)
    reads disk
    requires p in disk.files
  {
    stamp.Some? && !disk.late ==> stamp.value.racy && Describes(disk.timing, disk.files[p], stamp.value, bytes)
  }

  /** A stamp of the renamed inode taken within one bracket of the rename is racy. */
  lemma AdoptedIsRacy(timing: Timing, renamed: Fs, atStat: Fs, temp: InodeId, current: FileStamp)
    requires Sound(timing) && FsOk(timing, renamed) && FsOk(timing, atStat) && Evolves(renamed, atStat)
    requires temp in renamed.inodes && renamed.inodes[temp].changedAt == renamed.now
    requires current.identity == temp && CapturePath(atStat, current.capturedAt) == Some(current)
    requires atStat.now <= current.capturedAt <= renamed.now + timing.bracket
    ensures current.racy
  {
  }

  /** It describes the renamed bytes, as far as a racy stamp does. */
  lemma AdoptedDescribes(
    timing: Timing, renamed: Fs, atStat: Fs, fs: Fs, temp: InodeId, current: FileStamp, bytes: Bytes)
    requires Sound(timing) && FsOk(timing, renamed) && FsOk(timing, atStat)
    requires Evolves(renamed, atStat) && Evolves(atStat, fs)
    requires temp in renamed.inodes && renamed.inodes[temp].changedAt == renamed.now
    requires current.identity == temp && CapturePath(atStat, current.capturedAt) == Some(current)
    requires current.len == |bytes|
    requires atStat.now <= current.capturedAt <= renamed.now + timing.bracket
    ensures current.racy && Describes(timing, fs, current, bytes)
  {
    AdoptedIsRacy(timing, renamed, atStat, temp, current);
    CaptureOk(timing, atStat, temp, current.capturedAt);
    StampOkEvolves(timing, atStat, fs, current);
  }

  // ---------------------------------------------------------------- what the destination check finds out

  /** At that instant the path held exactly these bytes. */
  ghost predicate HeldAt(trail: Trail, p: PathId, at: nat, bytes: Bytes) {
    at < |trail| && p in trail[at] && trail[at][p].View() == Some(bytes)
  }

  /** At the instant before, the path was missing. */
  ghost predicate MissingBefore(trail: Trail, p: PathId, at: nat) {
    0 < at <= |trail| && p in trail[at - 1] && trail[at - 1][p].path == None
  }

  /** No other bytes have the identity of `base`. */
  ghost predicate Unmistakable(contentId: Bytes -> SnapshotId, base: Bytes) {
    forall read :: contentId(read) == contentId(base) ==> read == base
  }

  predicate ContentAsWanted(fs: Fs, wanted: ExpectedDestination, contentId: Bytes -> SnapshotId) {
    fs.View().Some? && contentId(Bounded(fs.View().value, wanted.stamp.len)) == wanted.contentId
  }

  /** The path has the wanted stamp, and the wanted content when that stamp is racy. */
  predicate AsWanted(fs: Fs, wanted: ExpectedDestination, contentId: Bytes -> SnapshotId) {
    StampedAs(fs, wanted.stamp) && (wanted.stamp.racy ==> ContentAsWanted(fs, wanted, contentId))
  }

  /** In the stretch the path had the wanted stamp and then, when that is racy, the wanted content. */
  ghost predicate Confirmed(
    trail: Trail, p: PathId, wanted: ExpectedDestination, contentId: Bytes -> SnapshotId, from: nat, until: nat)
  {
    exists i, j :: from <= i <= j < until && j < |trail| && p in trail[i] && p in trail[j] &&
      StampedAs(trail[i][p], wanted.stamp) &&
      (wanted.stamp.racy ==> ContentAsWanted(trail[j][p], wanted, contentId))
  }

  /** At one instant from `from` on the path had another stamp or, if that decides, other content. */
  ghost predicate Refuted(
    trail: Trail, p: PathId, wanted: ExpectedDestination, contentId: Bytes -> SnapshotId, from: nat)
  {
    exists i :: from <= i < |trail| && p in trail[i] && !AsWanted(trail[i][p], wanted, contentId)
  }

  lemma ConfirmedBy(
    soFar: Trail, trail: Trail, p: PathId, wanted: ExpectedDestination, contentId: Bytes -> SnapshotId, from: nat,
    first: Fs, second: Fs)
    requires |soFar| <= |trail| && soFar == trail[..|soFar|] && OnTrail(soFar, p, first, from)
    requires StampedAs(first, wanted.stamp)
    requires wanted.stamp.racy ==>
      OnTrail(trail, p, second, |soFar| - 1) && ContentAsWanted(second, wanted, contentId)
    ensures Confirmed(trail, p, wanted, contentId, from, |trail|)
  {
    var i :| from <= i < |soFar| && p in soFar[i] && soFar[i][p] == first;
    assert trail[i] == soFar[i];
    var j := i;
    if wanted.stamp.racy {
      j :| |soFar| - 1 <= j < |trail| && p in trail[j] && trail[j][p] == second;
    }
    assert StampedAs(trail[i][p], wanted.stamp);
    assert wanted.stamp.racy ==> ContentAsWanted(trail[j][p], wanted, contentId);
  }

  lemma RefutedBy(
    trail: Trail, p: PathId, wanted: ExpectedDestination, contentId: Bytes -> SnapshotId, from: nat, later: nat, fs: Fs)
    requires OnTrail(trail, p, fs, later) && from <= later && !AsWanted(fs, wanted, contentId)
    ensures Refuted(trail, p, wanted, contentId, from)
  {
    var i :| later <= i < |trail| && p in trail[i] && trail[i][p] == fs;
    assert !AsWanted(trail[i][p], wanted, contentId);
  }

  lemma ConfirmedBefore(
    soFar: Trail, trail: Trail, p: PathId, wanted: ExpectedDestination, contentId: Bytes -> SnapshotId, later: nat,
    from: nat, until: nat)
    requires |soFar| <= |trail| && soFar == trail[..|soFar|] && from <= later && |soFar| <= until
    requires Confirmed(soFar, p, wanted, contentId, later, |soFar|)
    ensures Confirmed(trail, p, wanted, contentId, from, until)
  {
    var i, j :| later <= i <= j < |soFar| && p in soFar[i] && p in soFar[j] &&
      StampedAs(soFar[i][p], wanted.stamp) &&
      (wanted.stamp.racy ==> ContentAsWanted(soFar[j][p], wanted, contentId));
    assert trail[i] == soFar[i] && trail[j] == soFar[j];
    assert StampedAs(trail[i][p], wanted.stamp);
    assert wanted.stamp.racy ==> ContentAsWanted(trail[j][p], wanted, contentId);
  }

  lemma RefutedEarlier(
    trail: Trail, p: PathId, wanted: ExpectedDestination, contentId: Bytes -> SnapshotId, later: nat, from: nat)
    requires from <= later && Refuted(trail, p, wanted, contentId, later)
    ensures Refuted(trail, p, wanted, contentId, from)
  {
  }

  /** While nobody interferes the check can only go one way. */
  lemma CalmDecides(
    trail: Trail, p: PathId, wanted: ExpectedDestination, contentId: Bytes -> SnapshotId, from: nat, until: nat)
    requires CalmBetween(trail, p, from, until)
    ensures p in trail[from]
    ensures Confirmed(trail, p, wanted, contentId, from, until) ==> AsWanted(trail[from][p], wanted, contentId)
    ensures until == |trail| && Refuted(trail, p, wanted, contentId, from) ==>
      !AsWanted(trail[from][p], wanted, contentId)
  {
    CalmWithin(trail, p, from, from, until);
    if Confirmed(trail, p, wanted, contentId, from, until) {
      var i, j :| from <= i <= j < until && j < |trail| && p in trail[i] && p in trail[j] &&
        StampedAs(trail[i][p], wanted.stamp) &&
        (wanted.stamp.racy ==> ContentAsWanted(trail[j][p], wanted, contentId));
      CalmWithin(trail, p, from, i, until);
      CalmWithin(trail, p, from, j, until);
      StampOfSameFile(trail[from][p], trail[i][p], wanted.stamp);
    }
    if until == |trail| && Refuted(trail, p, wanted, contentId, from) {
      var i :| from <= i < |trail| && p in trail[i] && !AsWanted(trail[i][p], wanted, contentId);
      CalmWithin(trail, p, from, i, until);
      StampOfSameFile(trail[from][p], trail[i][p], wanted.stamp);
    }
  }

  /** The content tiebreak for a racy stamp: what the path held at one instant decides it. */
  method CheckContent(
    disk: Device, p: PathId, wanted: ExpectedDestination, contentId: Bytes -> SnapshotId, ghost base: Bytes)
    returns (matched: bool)
    requires disk.Valid() && p in disk.files && disk.temp.Some? && wanted.contentId == contentId(base)
    requires !disk.late ==> |base| == wanted.stamp.len
    modifies disk
    ensures disk.Valid() && disk.Undisturbed()
    ensures matched <==> ContentAsWanted(disk.files[p], wanted, contentId)
    ensures OnTrail(disk.trail, p, disk.files[p], |old(disk.trail)| - 1)
    ensures matched && Unmistakable(contentId, base) && !disk.late ==>
      ShownSince(disk.trail, p, base, |old(disk.trail)| - 1)
  {
    var content := disk.ReadPath(p);
    if content.None? {
      return false;
    }
    var read := Bounded(content.value, wanted.stamp.len);
    matched := contentId(read) == wanted.contentId;
    if matched && Unmistakable(contentId, base) && !disk.late {
      assert read == base && content.value == base;
    }
  }

  /** The stamp of the path: equal and not racy, it proves that the path held the base. */
  method CheckStamp(disk: Device, p: PathId, wanted: ExpectedDestination, ghost base: Bytes)
    returns (same: bool, ghost atStat: Fs)
    requires disk.Valid() && p in disk.files && disk.temp.Some? && Sound(disk.timing)
    requires !disk.late ==> Describes(disk.timing, disk.files[p], wanted.stamp, base)
    modifies disk
    ensures disk.Valid() && disk.Undisturbed()
    ensures OnTrail(disk.trail, p, atStat, |old(disk.trail)| - 1) && (same <==> StampedAs(atStat, wanted.stamp))
    ensures same && !wanted.stamp.racy && !disk.late ==> ShownSince(disk.trail, p, base, |old(disk.trail)| - 1)
  {
    ghost var fs := disk.files[p];
    var current;
    current, atStat := disk.StatPath(p);
    same := current.Some? && current.value.Same(wanted.stamp);
    if same && !wanted.stamp.racy && !disk.late {
      DescribesEvolves(disk.timing, fs, atStat, wanted.stamp, base);
      NonRacyStampProves(disk.timing, atStat, wanted.stamp, current.value.capturedAt);
    }
  }

  /**
   * The destination check: equal stamp, and equal content when the stamp is racy. It passes only on what it
   * was to find, which proves the base unless its identity can be mistaken, and fails only on something else.
   */
  method CheckDestination(
    disk: Device, p: PathId, wanted: ExpectedDestination, contentId: Bytes -> SnapshotId, ghost base: Bytes)
    returns (matched: bool)
    requires disk.Valid() && p in disk.files && disk.temp.Some? && Sound(disk.timing)
    requires wanted.contentId == contentId(base)
    requires !disk.late ==> Describes(disk.timing, disk.files[p], wanted.stamp, base)
    modifies disk
    ensures disk.Valid() && disk.Undisturbed()
    ensures matched ==> Confirmed(disk.trail, p, wanted, contentId, |old(disk.trail)| - 1, |disk.trail|)
    ensures !matched ==> Refuted(disk.trail, p, wanted, contentId, |old(disk.trail)| - 1)
    ensures matched && Unmistakable(contentId, base) && !disk.late ==>
      ShownSince(disk.trail, p, base, |old(disk.trail)| - 1)
  {
    ghost var start := |disk.trail| - 1;
    var same, atStat := CheckStamp(disk, p, wanted, base);
    ghost var soFar: Trail := disk.trail;
    if !same {
      RefutedBy(disk.trail, p, wanted, contentId, start, start, atStat);
      return false;
    }
    if !wanted.stamp.racy {
      ConfirmedBy(soFar, disk.trail, p, wanted, contentId, start, atStat, atStat);
      return true;
    }
    matched := CheckContent(disk, p, wanted, contentId, base);
    AllHeldKeptTransitive(old(disk.trail), soFar, disk.trail);
    if !matched {
      RefutedBy(disk.trail, p, wanted, contentId, start, |soFar| - 1, disk.files[p]);
      return;
    }
    ConfirmedBy(soFar, disk.trail, p, wanted, contentId, start, atStat, disk.files[p]);
    if Unmistakable(contentId, base) && !disk.late {
      ShownEarlier(disk.trail, p, base, start, |soFar| - 1);
    }
  }

  // ---------------------------------------------------------------- the temporary file and its rename

  method WriteUniqueTemp(disk: Device, p: PathId, bytes: Bytes) returns (k: InodeId, stamp: FileStamp)
    requires disk.Valid() && p in disk.files && disk.temp == None
    modifies disk
    ensures disk.Valid() && disk.Onward() && AllHeldKept(old(disk.trail), disk.trail)
    ensures disk.temp == Some((p, k)) && disk.swaps == old(disk.swaps)
    ensures k in disk.files[p].inodes && disk.files[p].inodes[k].content == bytes
    ensures stamp.identity == k && stamp.len == |bytes| && stamp.mtime == disk.files[p].inodes[k].mtime
    ensures |old(disk.script)| == 0 ==> Calm(disk.trail, p, |old(disk.trail)| - 1)
  {
    k := disk.MakeTemp(p, bytes);
    ghost var soFar: Trail := disk.trail;
    var taken, atStat := disk.StatFd(p, k);
    AllHeldKeptTransitive(old(disk.trail), soFar, disk.trail);
    stamp := taken;
    if |old(disk.script)| == 0 {
      CalmByOne(old(disk.trail), disk.files, p);
    }
  }

  lemma CalmByOne(trail: Trail, files: Files, p: PathId)
    requires |trail| > 0 && p in trail[|trail| - 1] && p in files
    requires SameFile(trail[|trail| - 1][p], files[p]) && SameFile(trail[|trail| - 1][p], trail[|trail| - 1][p])
    ensures Calm(trail + [files], p, |trail| - 1)
  {
    var longer := trail + [files];
    assert SameAt(longer, p, |trail| - 1, |trail| - 1) && SameAt(longer, p, |trail| - 1, |trail|);
  }

  /** The stamp confirmed after the rename is still the path's. */
  ghost predicate StillStamped(disk: Device, p: PathId, stamp: Option<FileStamp>)
    reads disk
  {
    p in disk.files && stamp.Some? && StampedAs(disk.files[p], stamp.value)
  }

  /** On a calm path the stat after the rename is that of the temporary file, and the path keeps it. */
  lemma CalmConfirms(trail: Trail, p: PathId, start: nat, renamed: Fs, tempStamp: FileStamp, atStat: Fs, clock: Time)
    requires Calm(trail, p, start) && p in trail[start] && trail[start][p] == renamed
    requires OnTrail(trail, p, atStat, start)
    requires renamed.path == Some(tempStamp.identity) && tempStamp.identity in renamed.inodes
    requires tempStamp.len == |renamed.inodes[tempStamp.identity].content|
    requires tempStamp.mtime == renamed.inodes[tempStamp.identity].mtime
    ensures CapturePath(atStat, clock).Some? && tempStamp.RenameKeeps(CapturePath(atStat, clock).value)
    ensures p in trail[|trail| - 1] && StampedAs(trail[|trail| - 1][p], CapturePath(atStat, clock).value)
  {
    CalmOnTrail(trail, p, start, atStat);
    CalmAt(trail, p, start, |trail| - 1);
  }

  /** The stat after the rename, given up when identity, length or modification time did not survive it. */
  method StatRenamed(disk: Device, p: PathId, tempStamp: FileStamp)
    returns (current: Option<FileStamp>, ghost atStat: Fs)
    requires disk.Valid() && p in disk.files && disk.temp == None
    requires tempStamp.identity in disk.files[p].inodes && disk.files[p].path == Some(tempStamp.identity)
    requires
      var inode := disk.files[p].inodes[tempStamp.identity];
      |inode.content| == tempStamp.len && inode.mtime == tempStamp.mtime
    modifies disk
    ensures disk.Valid() && disk.Undisturbed() && disk.temp == None
    ensures FsOk(disk.timing, atStat) && Evolves(old(disk.files)[p], atStat) && Evolves(atStat, disk.files[p])
    ensures current.Some? ==>
      && current == CapturePath(atStat, current.value.capturedAt)
      && atStat.now <= current.value.capturedAt <= disk.files[p].now
      && current.value.identity == tempStamp.identity && current.value.len == tempStamp.len
      && current.value.mtime == tempStamp.mtime
    ensures Calm(disk.trail, p, |old(disk.trail)| - 1) ==> StillStamped(disk, p, current)
  {
    ghost var start, renamed := |disk.trail| - 1, disk.files[p];
    Instant(disk.timing, disk.trail, start, p);
    current, atStat := disk.StatPath(p);
    if Calm(disk.trail, p, start) {
      CalmConfirms(disk.trail, p, start, renamed, tempStamp, atStat,
        if current.Some? then current.value.capturedAt else 0);
    }
    if current.None? || !tempStamp.RenameKeeps(current.value) {
      current := None;
    }
  }

  /**
   * The stat after the rename: adopted only when identity, length and modification time survived, which they do
   * unless somebody interferes.
   */
  method ConfirmStamp(disk: Device, p: PathId, bytes: Bytes, tempStamp: FileStamp)
    returns (adopted: Option<FileStamp>)
    requires disk.Valid() && p in disk.files && disk.temp == None && Sound(disk.timing)
    requires tempStamp.identity in disk.files[p].inodes && tempStamp.len == |bytes|
    requires
      var inode := disk.files[p].inodes[tempStamp.identity];
      inode.changedAt == disk.files[p].now && inode.content == bytes && inode.mtime == tempStamp.mtime
    requires disk.files[p].path == Some(tempStamp.identity)
    modifies disk
    ensures disk.Valid() && disk.Undisturbed() && disk.temp == None
    ensures Adoptable(disk, p, bytes, adopted)
    ensures adopted.Some? ==>
      && adopted.value.identity == tempStamp.identity && adopted.value.len == tempStamp.len
      && adopted.value.mtime == tempStamp.mtime
    ensures Calm(disk.trail, p, |old(disk.trail)| - 1) ==> StillStamped(disk, p, adopted)
  {
    ghost var start, renamed := |disk.trail| - 1, disk.files[p];
    Instant(disk.timing, disk.trail, start, p);
    var current, atStat := StatRenamed(disk, p, tempStamp);
    if current.None? {
      return None;
    }
    BracketWithin(
      old(disk.trail), old(disk.elapsed), disk.trail, disk.elapsed, p, renamed.now, current.value.capturedAt);
    disk.NoteBracket(renamed.now, current.value.capturedAt);
    if !disk.late {
      AdoptedDescribes(disk.timing, renamed, atStat, disk.files[p], tempStamp.identity, current.value, bytes);
    }
    return current;
  }

  /** The server put `bytes` at the path at instant `at`, and changed no path at any other instant since. */
  twostate predicate SwappedIn(disk: Device, p: PathId, bytes: Bytes, at: nat)
    reads disk
  {
    && |old(disk.trail)| <= at && HeldAt(disk.trail, p, at, bytes) && disk.swaps == old(disk.swaps) + [at]
  }

  /** Rename the temporary file into place and confirm its stamp. */
  method PutInPlace(disk: Device, p: PathId, bytes: Bytes, k: InodeId, tempStamp: FileStamp)
    returns (adopted: Option<FileStamp>, ghost at: nat)
    requires disk.Valid() && p in disk.files && disk.temp == Some((p, k)) && Sound(disk.timing)
    requires disk.files[p].inodes[k].content == bytes && tempStamp.identity == k && tempStamp.len == |bytes|
    requires tempStamp.mtime == disk.files[p].inodes[k].mtime
    modifies disk
    ensures disk.Valid() && disk.Onward() && disk.temp == None
    ensures SwappedIn(disk, p, bytes, at) && Adoptable(disk, p, bytes, adopted)
    ensures Calm(disk.trail, p, at) ==> StillStamped(disk, p, adopted)
    ensures |old(disk.script)| == 0 ==> at == |old(disk.trail)| && Calm(disk.trail, p, at)
  {
    disk.Rename(p, k);
    ghost var soFar: Trail := disk.trail;
    at := |soFar| - 1;
    Instant(disk.timing, disk.trail, at, p);
    adopted := ConfirmStamp(disk, p, bytes, tempStamp);
    assert disk.trail[at] == soFar[at];
  }

  // ---------------------------------------------------------------- write and create

  /** Where the stretch before the server's change ends, or the trail if it changed nothing. */
  ghost function Until(trail: Trail, at: nat, swapped: bool): nat {
    if swapped then at else |trail|
  }

  /** The check of a guarded write, or none. */
  method CheckWanted(
    disk: Device, p: PathId, wanted: Option<ExpectedDestination>, contentId: Bytes -> SnapshotId, ghost base: Bytes)
    returns (cleared: bool)
    requires disk.Valid() && p in disk.files && disk.temp.Some? && Sound(disk.timing)
    requires wanted.Some? ==>
      && wanted.value.contentId == contentId(base)
      && (!disk.late ==> Describes(disk.timing, disk.files[p], wanted.value.stamp, base))
    modifies disk
    ensures disk.Valid() && disk.Undisturbed()
    ensures wanted.None? ==> cleared
    ensures wanted.Some? && cleared ==>
      Confirmed(disk.trail, p, wanted.value, contentId, |old(disk.trail)| - 1, |disk.trail|)
    ensures !cleared ==> Refuted(disk.trail, p, wanted.value, contentId, |old(disk.trail)| - 1)
    ensures wanted.Some? && cleared && Unmistakable(contentId, base) && !disk.late ==>
      ShownSince(disk.trail, p, base, |old(disk.trail)| - 1)
  {
    cleared := true;
    if wanted.Some? {
      cleared := CheckDestination(disk, p, wanted.value, contentId, base);
    }
  }

  /** The temporary file is written and the destination checked. */
  method PrepareWrite(
    disk: Device, p: PathId, bytes: Bytes, wanted: Option<ExpectedDestination>,
    contentId: Bytes -> SnapshotId, ghost base: Bytes)
    returns (k: InodeId, tempStamp: FileStamp, cleared: bool)
    requires disk.Valid() && p in disk.files && disk.temp == None && Sound(disk.timing)
    requires wanted.Some? ==>
      && wanted.value.contentId == contentId(base)
      && (!disk.late ==> Describes(disk.timing, disk.files[p], wanted.value.stamp, base))
    modifies disk
    ensures disk.Valid() && disk.Onward() && disk.swaps == old(disk.swaps)
    ensures disk.temp == Some((p, k)) && k in disk.files[p].inodes && disk.files[p].inodes[k].content == bytes
    ensures tempStamp.identity == k && tempStamp.len == |bytes| && tempStamp.mtime == disk.files[p].inodes[k].mtime
    ensures |old(disk.script)| == 0 ==> Calm(disk.trail, p, |old(disk.trail)| - 1)
    ensures wanted.None? ==> cleared
    ensures wanted.Some? && cleared ==>
      Confirmed(disk.trail, p, wanted.value, contentId, |old(disk.trail)| - 1, |disk.trail|)
    ensures !cleared ==> Refuted(disk.trail, p, wanted.value, contentId, |old(disk.trail)| - 1)
    ensures wanted.Some? && cleared && Unmistakable(contentId, base) && !disk.late ==>
      ShownSince(disk.trail, p, base, |old(disk.trail)| - 1)
  {
    ghost var fs, start := disk.files[p], |disk.trail| - 1;
    k, tempStamp := WriteUniqueTemp(disk, p, bytes);
    ghost var atTemp := |disk.trail| - 1;
    if wanted.Some? && !disk.late {
      Instant(disk.timing, disk.trail, start, p);
      DescribesEvolves(disk.timing, fs, disk.files[p], wanted.value.stamp, base);
    }
    cleared := CheckWanted(disk, p, wanted, contentId, base);
    if wanted.Some? {
      if cleared {
        ConfirmedBefore(disk.trail, disk.trail, p, wanted.value, contentId, atTemp, start, |disk.trail|);
        if Unmistakable(contentId, base) && !disk.late {
          ShownEarlier(disk.trail, p, base, start, atTemp);
        }
      } else {
        RefutedEarlier(disk.trail, p, wanted.value, contentId, atTemp, start);
      }
    }
  }

  /** A passed check stays a fact of the longer trail, and on a calm stretch it says what the path held. */
  lemma StaysCleared(
    checked: Trail, trail: Trail, p: PathId, wanted: ExpectedDestination, contentId: Bytes -> SnapshotId, start: nat,
    at: nat)
    requires |checked| <= |trail| && checked == trail[..|checked|] && |checked| <= at
    requires Confirmed(checked, p, wanted, contentId, start, |checked|)
    ensures Confirmed(trail, p, wanted, contentId, start, at)
    ensures CalmBetween(trail, p, start, at) ==> p in trail[start] && AsWanted(trail[start][p], wanted, contentId)
  {
    ConfirmedBefore(checked, trail, p, wanted, contentId, start, start, at);
    if CalmBetween(trail, p, start, at) {
      CalmDecides(trail, p, wanted, contentId, start, at);
    }
  }

  /**
   * `atomic_write`. On success the server put exactly `bytes` at the path at one instant `at`, after the path had
   * what was expected there, and a returned stamp may be adopted for them. It fails only after an instant at
   * which the path had something else, and then the server has changed no path.
   */
  method AtomicWrite(
    disk: Device, p: PathId, bytes: Bytes, wanted: Option<ExpectedDestination>,
    contentId: Bytes -> SnapshotId, ghost base: Bytes)
    returns (r: Result<Option<FileStamp>, PersistError>, ghost at: nat)
    requires disk.Valid() && p in disk.files && disk.temp == None && Sound(disk.timing)
    requires wanted.Some? ==>
      && wanted.value.contentId == contentId(base)
      && (!disk.late ==> Describes(disk.timing, disk.files[p], wanted.value.stamp, base))
    modifies disk
    ensures disk.Valid() && disk.Onward() && disk.temp == None
    ensures r.Ok? ==>
      && SwappedIn(disk, p, bytes, at) && Adoptable(disk, p, bytes, r.value)
      && (Calm(disk.trail, p, at) ==> StillStamped(disk, p, r.value))
    ensures r.Ok? && wanted.Some? ==>
      && Confirmed(disk.trail, p, wanted.value, contentId, |old(disk.trail)| - 1, at)
      && (Unmistakable(contentId, base) && !disk.late ==>
            ShownBetween(disk.trail, p, base, |old(disk.trail)| - 1, at))
    ensures r.Err? ==>
      && r.error == DestinationChanged && wanted.Some? && disk.swaps == old(disk.swaps)
      && Refuted(disk.trail, p, wanted.value, contentId, |old(disk.trail)| - 1)
    ensures CalmBetween(disk.trail, p, |old(disk.trail)| - 1, Until(disk.trail, at, r.Ok?)) ==>
      (r.Ok? <==> wanted.None? || AsWanted(old(disk.files)[p], wanted.value, contentId))
    ensures |old(disk.script)| == 0 ==>
      && CalmBetween(disk.trail, p, |old(disk.trail)| - 1, Until(disk.trail, at, r.Ok?))
      && (r.Ok? ==> Calm(disk.trail, p, at))
  {
    ghost var start := |disk.trail| - 1;
    var k, tempStamp, cleared := PrepareWrite(disk, p, bytes, wanted, contentId, base);
    at := 0;
    ghost var checked: Trail := disk.trail;
    assert checked == checked[..|checked|];
    if !cleared {
      disk.DropTemp();
      CalmBefore(checked, checked, p, start);
      if CalmBetween(checked, p, start, |checked|) {
        CalmDecides(checked, p, wanted.value, contentId, start, |checked|);
      }
      return Err(DestinationChanged), at;
    }
    var adopted;
    adopted, at := PutInPlace(disk, p, bytes, k, tempStamp);
    CalmBefore(checked, disk.trail, p, start);
    if wanted.Some? {
      StaysCleared(checked, disk.trail, p, wanted.value, contentId, start, at);
      if Unmistakable(contentId, base) && !disk.late {
        ShownBefore(checked, disk.trail, p, base, start, at);
      }
    }
    return Ok(adopted), at;
  }

  /**
   * `atomic_create`. The link succeeds only onto a missing path, and then the server put exactly `bytes` there in
   * that step; a losing create finds the path occupied, changes no path and no open file.
   */
  method AtomicCreate(disk: Device, p: PathId, bytes: Bytes)
    returns (r: Result<Option<FileStamp>, PersistError>, ghost at: nat)
    requires disk.Valid() && p in disk.files && disk.temp == None && Sound(disk.timing)
    modifies disk
    ensures disk.Valid() && disk.Onward() && disk.temp == None
    ensures r.Ok? ==>
      && SwappedIn(disk, p, bytes, at) && MissingBefore(disk.trail, p, at) && Adoptable(disk, p, bytes, r.value)
      && (Calm(disk.trail, p, at) ==> StillStamped(disk, p, r.value))
    ensures r.Err? ==>
      && r.error == DestinationExists && disk.swaps == old(disk.swaps)
      && AllHeldKept(old(disk.trail), disk.trail) && disk.files[p].View().Some?
    ensures CalmBetween(disk.trail, p, |old(disk.trail)| - 1, Until(disk.trail, at, r.Ok?)) ==>
      (r.Ok? <==> old(disk.files)[p].path == None)
    ensures |old(disk.script)| == 0 ==>
      && CalmBetween(disk.trail, p, |old(disk.trail)| - 1, Until(disk.trail, at, r.Ok?))
      && (r.Ok? ==> Calm(disk.trail, p, at))
  {
    ghost var start := |disk.trail| - 1;
    var k, tempStamp := WriteUniqueTemp(disk, p, bytes);
    ghost var atTemp: Trail := disk.trail;
    var linked := disk.Link(p, k);
    ghost var soFar: Trail := disk.trail;
    at := |soFar| - 1;
    Instant(disk.timing, disk.trail, at, p);
    if !linked {
      AllHeldKeptTransitive(old(disk.trail), atTemp, disk.trail);
      CalmBefore(atTemp, disk.trail, p, start);
      if CalmBetween(disk.trail, p, start, |disk.trail|) {
        CalmWithin(disk.trail, p, start, at, |disk.trail|);
      }
      return Err(DestinationExists), at;
    }
    var adopted := ConfirmStamp(disk, p, bytes, tempStamp);
    assert disk.trail[at] == soFar[at] && disk.trail[at - 1] == soFar[at - 1];
    CalmBefore(atTemp, disk.trail, p, start);
    if CalmBetween(disk.trail, p, start, at) {
      CalmWithin(disk.trail, p, start, at - 1, at);
    }
    return Ok(adopted), at;
  }
}
