/** The snapshot cache: stable loading, stamp-checked hits, verified refresh, eviction and adoption after a rename. */
module Cache {
  import opened Numbers
  import opened Protocol
  import opened FileSystem
  import opened Disk

  const SHARD_COUNT: nat := 8

  /** A shared, immutable snapshot. */
  datatype Resident = Resident(bytes: Bytes, id: SnapshotId, stamp: Option<FileStamp>)

  datatype LoadError = Missing | Unstable | BadText(error: ContractError)

  // ---------------------------------------------------------------- loading

  /** A stamp that still speaks for the file, and speaks for `bytes` unless it is racy. */
  ghost predicate Describes(timing: Timing, fs: Fs, stamp: FileStamp, bytes: Bytes) {
    StampOk(timing, fs, stamp) && |bytes| == stamp.len && (!stamp.racy ==> stamp.seen == bytes)
  }

  /** What was read so far is a prefix of the file, unless it changed since `before` was taken. */
  ghost predicate Prefix(fs: Fs, before: FileStamp, bytes: Bytes) {
    Unchanged(fs, before.identity, before.takenAt) ==> bytes <= fs.inodes[before.identity].content
  }

  ghost predicate Complete(fs: Fs, before: FileStamp, bytes: Bytes) {
    Unchanged(fs, before.identity, before.takenAt) ==> bytes == fs.inodes[before.identity].content
  }

  lemma ReadEvolves(fs: Fs, fs': Fs, before: FileStamp, bytes: Bytes)
    requires Evolves(fs, fs') && before.takenAt <= fs.now && before.identity in fs.inodes
    ensures Prefix(fs, before, bytes) ==> Prefix(fs', before, bytes)
    ensures Complete(fs, before, bytes) ==> Complete(fs', before, bytes)
  {
  }

  lemma DescribesEvolves(timing: Timing, fs: Fs, fs': Fs, stamp: FileStamp, bytes: Bytes)
    requires Describes(timing, fs, stamp, bytes) && Evolves(fs, fs')
    ensures Describes(timing, fs', stamp, bytes)
  {
    StampOkEvolves(timing, fs, fs', stamp);
  }

  lemma ShownStays(trail: Trail, longer: Trail, p: PathId, bytes: Bytes, from: nat)
    requires |trail| <= |longer| && trail == longer[..|trail|] && ShownSince(trail, p, bytes, from)
    ensures ShownSince(longer, p, bytes, from)
  {
    var i :| from <= i < |trail| && p in trail[i] && trail[i][p].View() == Some(bytes);
    assert longer[i] == trail[i];
  }

  // ---------------------------------------------------------------- what a calm path loads as

  /** What loading the path gives when nobody interferes: its text, or why it has none. */
  function LoadOf(fs: Fs): Result<Bytes, LoadError> {
    match fs.View()
    case None => Err(Missing)
    case Some(content) =>
      match ValidateText(content)
      case Err(e) => Err(BadText(e))
      case Ok(_) => Ok(content)
  }

  function StampNow(fs: Fs): Option<FileStamp> {
    CapturePath(fs, fs.now)
  }

  /** The stamp is the path's. */
  predicate StampedAs(fs: Fs, stamp: FileStamp) {
    StampNow(fs).Some? && stamp.Same(StampNow(fs).value)
  }

  lemma StampOfSameFile(a: Fs, b: Fs, stamp: FileStamp)
    requires SameFile(a, b)
    ensures StampedAs(a, stamp) <==> StampedAs(b, stamp)
    ensures a.View() == b.View() && LoadOf(a) == LoadOf(b)
  {
  }

  ghost predicate LoadedAs(fs: Fs, r: Result<(Bytes, FileStamp), LoadError>) {
    match LoadOf(fs)
    case Err(e) => r == Err(e)
    case Ok(content) => r.Ok? && r.value.0 == content && StampedAs(fs, r.value.1)
  }

  /** The chunked read loop: everything the open file yields, one `read` at a time. */
  method ReadToEnd(disk: Device, p: PathId, before: FileStamp) returns (bytes: Result<Bytes, LoadError>)
    requires disk.Valid() && p in disk.files && disk.temp == None
    requires before.identity in disk.files[p].inodes && before.takenAt <= disk.files[p].now
    modifies disk
    ensures disk.Valid() && disk.Undisturbed() && disk.temp == None
    ensures Evolves(old(disk.files)[p], disk.files[p])
    ensures bytes.Ok? ==> Complete(disk.files[p], before, bytes.value)
    ensures bytes.Err? ==> bytes.error.BadText?
    ensures
      var fs := old(disk.files)[p];
      Calm(disk.trail, p, |old(disk.trail)| - 1) && fs.path == Some(before.identity) &&
      |fs.inodes[before.identity].content| <= MAX_FILE_BYTES ==>
        bytes == Ok(fs.inodes[before.identity].content)
  {
    var read: Bytes := [];
    ghost var start := |disk.trail| - 1;
    while true
      invariant disk.Valid() && disk.Undisturbed() && disk.temp == None
      invariant Evolves(old(disk.files)[p], disk.files[p])
      invariant |read| <= MAX_FILE_BYTES && Prefix(disk.files[p], before, read)
      invariant Calm(disk.trail, p, start) && old(disk.files)[p].path == Some(before.identity) ==>
        read <= old(disk.files)[p].inodes[before.identity].content
      decreases MAX_FILE_BYTES - |read|
    {
      ghost var fs, soFar: Trail := disk.files[p], disk.trail;
      var chunk := disk.ReadFd(p, before.identity, |read|, READ_BUFFER_BYTES);
      EvolvesTransitive(old(disk.files)[p], fs, disk.files[p]);
      ReadEvolves(fs, disk.files[p], before, read);
      AllHeldKeptTransitive(old(disk.trail), soFar, disk.trail);
      if Calm(disk.trail, p, start) {
        CalmParts(soFar, disk.trail, p, start);
        CalmAt(disk.trail, p, start, |disk.trail| - 1);
      }
      if |chunk| == 0 {
        assert Calm(disk.trail, p, start) && old(disk.files)[p].path == Some(before.identity) ==>
          read == old(disk.files)[p].inodes[before.identity].content;
        return Ok(read);
      }
      if |read| + |chunk| > MAX_FILE_BYTES {
        return Err(BadText(FileTooLarge(Min(|read| + |chunk|, U64_MAX))));
      }
      read := read + chunk;
    }
  }

  /** What reading through a descriptor gives on a calm path, up to the last stamp. */
  ghost predicate BegunAs(fs: Fs, r: Result<(FileStamp, Bytes), LoadError>) {
    match fs.View()
    case None => r == Err(Missing)
    case Some(content) =>
      if |content| > MAX_FILE_BYTES then
        r == Err(BadText(FileTooLarge(Min(|content|, U64_MAX))))
      else
        r.Ok? && r.value.1 == content && StampedAs(fs, r.value.0) && fs.path == Some(r.value.0.identity)
  }

  /** On a calm path the first stamp of the opened file is the path's. */
  lemma CalmOpened(
    atOpen: Trail, trail: Trail, p: PathId, start: nat, fs0: Fs, fd: InodeId, first: Fs, before: FileStamp)
    requires |atOpen| <= |trail| && atOpen == trail[..|atOpen|] && start < |atOpen| && Calm(trail, p, start)
    requires p in trail[start] && trail[start][p] == fs0
    requires p in atOpen[|atOpen| - 1] && atOpen[|atOpen| - 1][p].path == Some(fd)
    requires OnTrail(trail, p, first, |atOpen| - 1)
    requires fd in first.inodes && before == Capture(first, fd, before.capturedAt)
    ensures Calm(atOpen, p, start) && fs0.path == Some(fd) && fd in fs0.inodes
    ensures StampedAs(fs0, before) && before.len == |fs0.inodes[fd].content|
  {
    CalmParts(atOpen, trail, p, start);
    CalmOnTrail(trail, p, |atOpen| - 1, first);
  }

  /** Open, and stamp through the descriptor. */
  method OpenAndStat(disk: Device, p: PathId) returns (r: Option<FileStamp>)
    requires disk.Valid() && p in disk.files && disk.temp == None
    modifies disk
    ensures disk.Valid() && disk.Undisturbed() && disk.temp == None
    ensures r.Some? ==>
      && r.value.identity in disk.files[p].inodes && old(disk.files)[p].now <= r.value.takenAt <= disk.files[p].now
      && Held(disk.trail, p, r.value.identity, |old(disk.trail)| - 1)
      && (!disk.late ==> StampOk(disk.timing, disk.files[p], r.value))
    ensures r.None? ==> AbsentSince(disk.trail, p, |old(disk.trail)| - 1)
    ensures Calm(disk.trail, p, |old(disk.trail)| - 1) ==>
      var fs := old(disk.files)[p];
      && (r.None? ==> fs.View() == None)
      && (r.Some? ==> StampedAs(fs, r.value) && fs.path == Some(r.value.identity))
  {
    ghost var fs0, start := disk.files[p], |disk.trail| - 1;
    var fd := disk.Open(p);
    ghost var atOpen: Trail := disk.trail;
    if fd.None? {
      if Calm(disk.trail, p, start) {
        CalmAt(disk.trail, p, start, |disk.trail| - 1);
      }
      return None;
    }
    var stamp, first := disk.StatFd(p, fd.value);
    AllHeldKeptTransitive(old(disk.trail), atOpen, disk.trail);
    assert Held(disk.trail, p, fd.value, start);
    if Calm(disk.trail, p, start) {
      CalmOpened(atOpen, disk.trail, p, start, fs0, fd.value, first, stamp);
    }
    if !disk.late {
      CaptureOk(disk.timing, first, stamp.identity, stamp.capturedAt);
      StampOkEvolves(disk.timing, first, disk.files[p], stamp);
    }
    return Some(stamp);
  }

  /** Open and stamp, within the size cap. */
  method OpenStamped(disk: Device, p: PathId) returns (r: Result<FileStamp, LoadError>)
    requires disk.Valid() && p in disk.files && disk.temp == None
    modifies disk
    ensures disk.Valid() && disk.Undisturbed() && disk.temp == None
    ensures r.Ok? ==>
      && r.value.identity in disk.files[p].inodes && old(disk.files)[p].now <= r.value.takenAt <= disk.files[p].now
      && (!disk.late ==> StampOk(disk.timing, disk.files[p], r.value))
    ensures r == Err(Missing) ==> AbsentSince(disk.trail, p, |old(disk.trail)| - 1)
    ensures Calm(disk.trail, p, |old(disk.trail)| - 1) ==>
      match old(disk.files)[p].View()
      case None => r == Err(Missing)
      case Some(content) =>
        if |content| > MAX_FILE_BYTES then
          r == Err(BadText(FileTooLarge(Min(|content|, U64_MAX))))
        else
          r.Ok? && StampedAs(old(disk.files)[p], r.value) && old(disk.files)[p].path == Some(r.value.identity)
  {
    var before := OpenAndStat(disk, p);
    if before.None? {
      return Err(Missing);
    }
    if before.value.len > MAX_FILE_BYTES {
      return Err(BadText(FileTooLarge(Min(before.value.len, U64_MAX))));
    }
    return Ok(before.value);
  }

  /** Open, stamp, and read to the end. */
  method BeginRead(disk: Device, p: PathId) returns (r: Result<(FileStamp, Bytes), LoadError>)
    requires disk.Valid() && p in disk.files && disk.temp == None
    modifies disk
    ensures disk.Valid() && disk.Undisturbed() && disk.temp == None
    ensures r.Ok? ==>
      && r.value.0.identity in disk.files[p].inodes && old(disk.files)[p].now <= r.value.0.takenAt <= disk.files[p].now
      && Complete(disk.files[p], r.value.0, r.value.1)
      && (!disk.late ==> StampOk(disk.timing, disk.files[p], r.value.0))
    ensures r == Err(Missing) ==> AbsentSince(disk.trail, p, |old(disk.trail)| - 1)
    ensures Calm(disk.trail, p, |old(disk.trail)| - 1) ==> BegunAs(old(disk.files)[p], r)
  {
    ghost var start := |disk.trail| - 1;
    var stamped := OpenStamped(disk, p);
    if stamped.Err? {
      return Err(stamped.error);
    }
    var before := stamped.value;
    ghost var atRead, soFar: Trail := disk.files[p], disk.trail;
    var read := ReadToEnd(disk, p, before);
    AllHeldKeptTransitive(old(disk.trail), soFar, disk.trail);
    if Calm(disk.trail, p, start) {
      CalmParts(soFar, disk.trail, p, start);
    }
    if read.Err? {
      return Err(read.error);
    }
    if !disk.late {
      StampOkEvolves(disk.timing, atRead, disk.files[p], before);
    }
    return Ok((before, read.value));
  }

  /** A complete read of an open file between its first stamp and one taken now. */
  lemma CompleteRead(timing: Timing, done: Fs, second: Fs, before: FileStamp, bytes: Bytes, after: FileStamp)
    requires Sound(timing) && FsOk(timing, second) && Evolves(done, second)
    requires StampOk(timing, done, before) && Complete(done, before, bytes)
    requires before.identity in second.inodes && after == Capture(second, before.identity, after.capturedAt)
    requires after.takenAt <= after.capturedAt <= before.takenAt + timing.bracket
    ensures StampOk(timing, second, after)
    ensures before.Same(after) && !after.racy ==> bytes == after.seen
  {
    StampOkEvolves(timing, done, second, before);
    ReadEvolves(done, second, before, bytes);
    ReadBetweenStamps(timing, second, before, bytes, after.capturedAt);
  }

  /** What the whole stamped read gives on a calm path. */
  ghost predicate OpenedAs(fs: Fs, r: Result<(FileStamp, Bytes, FileStamp), LoadError>) {
    match fs.View()
    case None => r == Err(Missing)
    case Some(content) =>
      if |content| > MAX_FILE_BYTES then
        r == Err(BadText(FileTooLarge(Min(|content|, U64_MAX))))
      else
        r.Ok? && r.value.1 == content && StampedAs(fs, r.value.0) && StampedAs(fs, r.value.2)
  }

  /** On a calm path the opened file's stamp is the path's whenever it is taken. */
  lemma CalmStampsAgain(
    soFar: Trail, trail: Trail, p: PathId, start: nat, second: Fs, fd: InodeId, after: FileStamp)
    requires |soFar| <= |trail| && soFar == trail[..|soFar|] && start < |soFar| && Calm(trail, p, start)
    requires OnTrail(trail, p, second, |soFar| - 1) && fd in second.inodes
    requires after == Capture(second, fd, after.capturedAt)
    ensures Calm(soFar, p, start) && p in trail[start]
    ensures trail[start][p].path == Some(fd) ==> StampedAs(trail[start][p], after)
  {
    CalmParts(soFar, trail, p, start);
    CalmOnTrail(trail, p, |soFar| - 1, second);
  }

  /** Open, stamp, read to the end, stamp again: all through one descriptor. */
  method ReadOpened(disk: Device, p: PathId) returns (r: Result<(FileStamp, Bytes, FileStamp), LoadError>)
    requires disk.Valid() && p in disk.files && disk.temp == None && Sound(disk.timing)
    modifies disk
    ensures disk.Valid() && disk.Undisturbed() && disk.temp == None
    ensures r.Ok? && !disk.late ==>
      && StampOk(disk.timing, disk.files[p], r.value.2)
      && (r.value.0.Same(r.value.2) && !r.value.2.racy ==> r.value.1 == r.value.2.seen)
    ensures r == Err(Missing) ==> AbsentSince(disk.trail, p, |old(disk.trail)| - 1)
    ensures Calm(disk.trail, p, |old(disk.trail)| - 1) ==> OpenedAs(old(disk.files)[p], r)
  {
    ghost var fs0, start := disk.files[p], |disk.trail| - 1;
    var begun := BeginRead(disk, p);
    if begun.Err? {
      return Err(begun.error);
    }
    var (before, bytes) := begun.value;
    ghost var done, soFar: Trail := disk.files[p], disk.trail;
    var after, second := disk.StatFd(p, before.identity);
    AllHeldKeptTransitive(old(disk.trail), soFar, disk.trail);
    BracketWithin(
      old(disk.trail), old(disk.elapsed), disk.trail, disk.elapsed, p, before.takenAt, after.capturedAt);
    disk.NoteBracket(before.takenAt, after.capturedAt);
    if !disk.late {
      CompleteRead(disk.timing, done, second, before, bytes, after);
      StampOkEvolves(disk.timing, second, disk.files[p], after);
    }
    if Calm(disk.trail, p, start) {
      CalmStampsAgain(soFar, disk.trail, p, start, second, before.identity, after);
    }
    return Ok((before, bytes, after));
  }

  /** What a stamped read gives on a calm path. */
  ghost predicate StampedReadAs(fs: Fs, r: Result<Option<(Bytes, FileStamp)>, LoadError>) {
    match fs.View()
    case None => r == Err(Missing)
    case Some(content) =>
      if |content| > MAX_FILE_BYTES then
        r == Err(BadText(FileTooLarge(Min(|content|, U64_MAX))))
      else
        r.Ok? && r.value.Some? && r.value.value.0 == content && StampedAs(fs, r.value.value.1)
  }

  /** Read between two equal stamps of the open file, confirmed by an equal stamp of the path. */
  method StampedRead(disk: Device, p: PathId) returns (r: Result<Option<(Bytes, FileStamp)>, LoadError>)
    requires disk.Valid() && p in disk.files && disk.temp == None && Sound(disk.timing)
    modifies disk
    ensures disk.Valid() && disk.Undisturbed() && disk.temp == None
    ensures r.Ok? && r.value.Some? && !disk.late ==>
      && Describes(disk.timing, disk.files[p], r.value.value.1, r.value.value.0)
      && (!r.value.value.1.racy ==> ShownSince(disk.trail, p, r.value.value.0, |old(disk.trail)| - 1))
    ensures r == Err(Missing) ==> AbsentSince(disk.trail, p, |old(disk.trail)| - 1)
    ensures Calm(disk.trail, p, |old(disk.trail)| - 1) ==> StampedReadAs(old(disk.files)[p], r)
  {
    ghost var start := |disk.trail| - 1;
    var attempt := ReadOpened(disk, p);
    if attempt.Err? {
      return Err(attempt.error);
    }
    var (before, bytes, after) := attempt.value;
    ghost var atPath, soFar: Trail := disk.files[p], disk.trail;
    var named, last := disk.StatPath(p);
    AllHeldKeptTransitive(old(disk.trail), soFar, disk.trail);
    if Calm(disk.trail, p, start) {
      CalmParts(soFar, disk.trail, p, start);
      CalmOnTrail(disk.trail, p, |soFar| - 1, last);
    }
    if !before.Same(after) || named.None? || !named.value.Same(after) || |bytes| != after.len {
      return Ok(None);
    }
    if !disk.late {
      StampOkEvolves(disk.timing, atPath, last, after);
      StampOkEvolves(disk.timing, last, disk.files[p], after);
      if !after.racy {
        NonRacyStampProves(disk.timing, last, after, named.value.capturedAt);
        ShownEarlier(disk.trail, p, bytes, start, |soFar| - 1);
      }
    }
    return Ok(Some((bytes, after)));
  }

  ghost predicate CandidateAs(fs: Fs, r: Result<Option<(Bytes, FileStamp)>, LoadError>) {
    match r
    case Err(e) => LoadedAs(fs, Err(e))
    case Ok(None) => false
    case Ok(Some(loaded)) => LoadedAs(fs, Ok(loaded))
  }

  /**
   * One attempt at a stable read. A success outside the window is the stamped content, inside the window
   * it was confirmed by a second read; either way the path held exactly these bytes during the call.
   */
  method ReadCandidate(disk: Device, p: PathId) returns (r: Result<Option<(Bytes, FileStamp)>, LoadError>)
    requires disk.Valid() && p in disk.files && disk.temp == None && Sound(disk.timing)
    modifies disk
    ensures disk.Valid() && disk.Undisturbed() && disk.temp == None
    ensures r.Ok? && r.value.Some? ==> IsText(r.value.value.0)
    ensures r.Ok? && r.value.Some? && !disk.late ==>
      && Describes(disk.timing, disk.files[p], r.value.value.1, r.value.value.0)
      && ShownSince(disk.trail, p, r.value.value.0, |old(disk.trail)| - 1)
    ensures r == Err(Missing) ==> AbsentSince(disk.trail, p, |old(disk.trail)| - 1)
    ensures Calm(disk.trail, p, |old(disk.trail)| - 1) ==> CandidateAs(old(disk.files)[p], r)
  {
    ghost var start := |disk.trail| - 1;
    var stamped := StampedRead(disk, p);
    if stamped.Err? || stamped.value.None? {
      return stamped;
    }
    var (bytes, after) := stamped.value.value;
    if after.racy {
      ghost var fs, soFar: Trail := disk.files[p], disk.trail;
      var reread := disk.ReadPath(p);
      AllHeldKeptTransitive(old(disk.trail), soFar, disk.trail);
      if Calm(disk.trail, p, start) {
        CalmParts(soFar, disk.trail, p, start);
        CalmAt(disk.trail, p, start, |disk.trail| - 1);
      }
      if reread != Some(bytes) {
        return Ok(None);
      }
      if !disk.late {
        DescribesEvolves(disk.timing, fs, disk.files[p], after, bytes);
        ShownEarlier(disk.trail, p, bytes, start, |soFar| - 1);
      }
    }
    var text := ValidateText(bytes);
    if text.Err? {
      return Err(BadText(text.error));
    }
    return Ok(Some((bytes, after)));
  }

  /** Two attempts, then an error. On a calm path the first attempt decides. */
  method Load(disk: Device, p: PathId) returns (r: Result<(Bytes, FileStamp), LoadError>)
    requires disk.Valid() && p in disk.files && disk.temp == None && Sound(disk.timing)
    modifies disk
    ensures disk.Valid() && disk.Undisturbed() && disk.temp == None
    ensures r.Ok? ==> IsText(r.value.0)
    ensures r.Ok? && !disk.late ==>
      && Describes(disk.timing, disk.files[p], r.value.1, r.value.0)
      && ShownSince(disk.trail, p, r.value.0, |old(disk.trail)| - 1)
    ensures r == Err(Missing) ==> AbsentSince(disk.trail, p, |old(disk.trail)| - 1)
    ensures Calm(disk.trail, p, |old(disk.trail)| - 1) ==> LoadedAs(old(disk.files)[p], r)
    ensures |old(disk.script)| == 0 ==> LoadedAs(old(disk.files)[p], r)
  {
    ghost var start := |disk.trail| - 1;
    CalmNow(disk.timing, disk.trail, p);
    for attempt := 0 to MAX_READ_ATTEMPTS
      invariant disk.Valid() && disk.Undisturbed() && disk.temp == None
      invariant attempt == 0 ==> |disk.trail| - 1 == start && disk.files == old(disk.files)
      invariant attempt > 0 ==> !Calm(disk.trail, p, start)
    {
      ghost var soFar: Trail := disk.trail;
      var candidate := ReadCandidate(disk, p);
      AllHeldKeptTransitive(old(disk.trail), soFar, disk.trail);
      if Calm(disk.trail, p, start) {
        CalmParts(soFar, disk.trail, p, start);
      }
      match candidate {
        case Err(error) =>
          if error == Missing {
            AbsentStays(disk.trail, disk.trail, p, |soFar| - 1, start);
          }
          return Err(error);
        case Ok(Some(loaded)) =>
          if !disk.late {
            ShownEarlier(disk.trail, p, loaded.0, start, |soFar| - 1);
          }
          return Ok(loaded);
        case Ok(None) =>
      }
    }
    return Err(Unstable);
  }

  lemma ShownEarlier(trail: Trail, p: PathId, bytes: Bytes, from: nat, later: nat)
    requires from <= later && ShownSince(trail, p, bytes, later)
    ensures ShownSince(trail, p, bytes, from)
  {
  }

  // ---------------------------------------------------------------- the shards

  /** `stamp` starts as the snapshot's own and is refreshed by verified serves. */
  datatype Entry = Entry(snapshot: Resident, bytes: nat, stamp: Option<FileStamp>)

  datatype Shard = Shard(entries: map<PathId, Entry>, used: nat)

  ghost function Total(entries: map<PathId, Entry>): nat {
    if entries == map[] then 0 else
    var p :| p in entries;
    entries[p].bytes + Total(entries - {p})
  }

  lemma {:induction false} TotalRemove(entries: map<PathId, Entry>, p: PathId)
    requires p in entries
    ensures Total(entries) == entries[p].bytes + Total(entries - {p})
    decreases |entries|
  {
    var q :| q in entries && Total(entries) == entries[q].bytes + Total(entries - {q});
    if q != p {
      TotalRemove(entries - {q}, p);
      TotalRemove(entries - {p}, q);
      assert entries - {q} - {p} == entries - {p} - {q};
    }
  }

  lemma TotalAdd(entries: map<PathId, Entry>, p: PathId, entry: Entry)
    requires p !in entries
    ensures Total(entries[p := entry]) == entry.bytes + Total(entries)
  {
    TotalRemove(entries[p := entry], p);
    assert entries[p := entry] - {p} == entries;
  }

  /**
   * Exact accounting within the byte budget. The saturating sums of the source lose count only at the
   * largest possible capacity.
   */
  ghost predicate Accounted(capacity: nat, shard: Shard) {
    capacity < U64_MAX ==> shard.used == Total(shard.entries) && shard.used <= capacity
  }

  ghost function ResidentBytes(shards: seq<Shard>): nat {
    var n := |shards|;
    if n == 0 then 0 else ResidentBytes(shards[..n - 1]) + Total(shards[n - 1].entries)
  }

  function WithoutPath(shard: Shard, p: PathId): Shard {
    if p in shard.entries then
      Shard(shard.entries - {p}, SaturatingSub(shard.used, shard.entries[p].bytes))
    else
      shard
  }

  lemma WithoutPathAccounted(capacity: nat, shard: Shard, p: PathId)
    requires Accounted(capacity, shard)
    ensures Accounted(capacity, WithoutPath(shard, p))
  {
    if p in shard.entries {
      TotalRemove(shard.entries, p);
    }
  }

  /**
   * A resident entry is legal text with its own identity; its stamp describes it unless some bracket was late.
   */
  ghost predicate EntryFits(
    contentId: Bytes -> SnapshotId, timing: Timing, files: Files, late: bool, p: PathId, entry: Option<Entry>)
  {
    entry.Some? ==>
      && p in files && entry.value.stamp.Some?
      && IsText(entry.value.snapshot.bytes) && entry.value.snapshot.id == contentId(entry.value.snapshot.bytes)
      && (!late ==> Describes(timing, files[p], entry.value.stamp.value, entry.value.snapshot.bytes))
  }

  lemma EntryFitsOnward(
    contentId: Bytes -> SnapshotId, timing: Timing, files: Files, late: bool, files': Files, late': bool, p: PathId,
    entry: Option<Entry>)
    requires EntryFits(contentId, timing, files, late, p, entry) && FilesEvolve(files, files') && (late ==> late')
    ensures EntryFits(contentId, timing, files', late', p, entry)
  {
    if entry.Some? && !late' {
      assert Evolves(files[p], files'[p]);
      DescribesEvolves(timing, files[p], files'[p], entry.value.stamp.value, entry.value.snapshot.bytes);
    }
  }

  class SnapshotCache {
    const capacity: nat
    const shardIndex: PathId -> nat
    const contentId: Bytes -> SnapshotId
    var shards: seq<Shard>

    ghost predicate Valid()
      reads this
    {
      && 1 <= capacity <= U64_MAX && |shards| == SHARD_COUNT
      && forall i {:trigger Accounted(capacity, shards[i])} :: 0 <= i < SHARD_COUNT ==> Accounted(capacity, shards[i])
    }

    function Index(p: PathId): (i: nat)
      ensures i < SHARD_COUNT
    {
      shardIndex(p) % SHARD_COUNT
    }

    function Lookup(p: PathId): Option<Entry>
      requires |shards| == SHARD_COUNT
      reads this
    {
      var entries := shards[Index(p)].entries;
      if p in entries then Some(entries[p]) else None
    }

    constructor WithCapacity(capacity: nat, shardIndex: PathId -> nat, contentId: Bytes -> SnapshotId)
      requires capacity <= U64_MAX
      ensures Valid() && this.capacity == Max(capacity, 1)
      ensures this.shardIndex == shardIndex && this.contentId == contentId
      ensures forall p :: Lookup(p) == None
    {
      this.capacity := Max(capacity, 1);
      this.shardIndex := shardIndex;
      this.contentId := contentId;
      this.shards := seq(SHARD_COUNT, _ => Shard(map[], 0));
    }

    /** Every resident entry is stamped, and its stamp describes its bytes unless some bracket was late. */
    ghost predicate Truthful(disk: Device)
      requires |shards| == SHARD_COUNT
      reads this, disk
    {
      TruthfulFor(disk.timing, disk.files, disk.late)
    }

    ghost predicate TruthfulFor(timing: Timing, files: Files, late: bool)
      requires |shards| == SHARD_COUNT
      reads this
    {
      forall p {:trigger EntryFits(contentId, timing, files, late, p, Lookup(p))} ::
        EntryFits(contentId, timing, files, late, p, Lookup(p))
    }

    /** A hit needs an equal stamp outside the racy window; without a stamp any entry is a hit. */
    method Get(p: PathId, stamp: Option<FileStamp>) returns (hit: Option<Resident>)
      requires Valid()
      ensures hit.Some? ==> Lookup(p).Some? && hit.value == Lookup(p).value.snapshot
      ensures hit.Some? <==>
        && Lookup(p).Some?
        && (stamp.Some? ==>
              && Lookup(p).value.stamp.Some? && Lookup(p).value.stamp.value.Same(stamp.value)
              && !Lookup(p).value.stamp.value.racy)
    {
      var entry := Lookup(p);
      if entry.None? {
        return None;
      }
      if stamp.Some? {
        if entry.value.stamp.None? || !entry.value.stamp.value.Same(stamp.value) {
          return None;
        }
        if entry.value.stamp.value.racy {
          return None;
        }
      }
      return Some(entry.value.snapshot);
    }

    /** Replace one shard by one whose entries are a part of the old ones, plus possibly one for `p`. */
    method PutShard(p: PathId, shard: Shard)
      requires Valid() && Accounted(capacity, shard)
      requires forall q :: q in shard.entries && q != p ==>
        q in shards[Index(p)].entries && shard.entries[q] == shards[Index(p)].entries[q]
      modifies this`shards
      ensures Valid()
      ensures Lookup(p) == if p in shard.entries then Some(shard.entries[p]) else None
      ensures forall q :: q != p ==> Lookup(q) == old(Lookup(q)) || (Index(q) == Index(p) && Lookup(q) == None)
      ensures (forall q :: q in old(shards)[Index(p)].entries && q != p ==> q in shard.entries) ==>
        forall q :: q != p ==> Lookup(q) == old(Lookup(q))
    {
      ghost var before := shards;
      shards := shards[Index(p) := shard];
      forall i | 0 <= i < SHARD_COUNT
        ensures Accounted(capacity, shards[i])
      {
        assert Accounted(capacity, before[i]);
      }
    }

    /** Bytes counted over all shards: those of the resident entries, at most the capacity per shard. */
    method UsedBytes() returns (total: nat)
      requires Valid() && capacity < U64_MAX
      ensures total == ResidentBytes(shards) && total <= 8 * capacity
    {
      total := 0;
      for i := 0 to SHARD_COUNT
        invariant total == ResidentBytes(shards[..i]) && total <= i * capacity
      {
        assert Accounted(capacity, shards[i]);
        assert shards[..i + 1][..i] == shards[..i];
        total := total + shards[i].used;
      }
      assert shards[..SHARD_COUNT] == shards;
    }

    /** Drop one path. */
    method Remove(p: PathId)
      requires Valid()
      modifies this`shards
      ensures Valid() && Lookup(p) == None
      ensures forall q :: q != p ==> Lookup(q) == old(Lookup(q))
    {
      var shard := shards[Index(p)];
      assert Accounted(capacity, shard);
      WithoutPathAccounted(capacity, shard, p);
      var rest := WithoutPath(shard, p);
      shards := shards[Index(p) := rest];
      forall i | 0 <= i < SHARD_COUNT
        ensures Accounted(capacity, shards[i])
      {
        assert Accounted(capacity, old(shards)[i]);
      }
    }

    /**
     * Evict entries, in no particular order, until `bytes` more fit or nothing is left. Nothing goes when they
     * fit already, and otherwise the last one evicted had to go.
     */
    method Evict(shard: Shard, bytes: nat) returns (r: Shard)
      requires Accounted(capacity, shard) && bytes <= capacity <= U64_MAX
      ensures Accounted(capacity, r)
      ensures forall q :: q in r.entries ==> q in shard.entries && r.entries[q] == shard.entries[q]
      ensures capacity < U64_MAX ==> r.used + bytes <= capacity
      ensures SaturatingAdd(shard.used, bytes) <= capacity ==> r == shard
      ensures r == shard || LastHadToGo(shard, r, bytes)
    {
      r := shard;
      while SaturatingAdd(r.used, bytes) > capacity && r.entries != map[]
        invariant Accounted(capacity, r)
        invariant forall q :: q in r.entries ==> q in shard.entries && r.entries[q] == shard.entries[q]
        invariant SaturatingAdd(shard.used, bytes) <= capacity ==> r == shard
        invariant r == shard || LastHadToGo(shard, r, bytes)
        decreases |r.entries|
      {
        var key :| key in r.entries;
        WithoutPathAccounted(capacity, r, key);
        ghost var kept := r;
        r := WithoutPath(r, key);
        assert kept.entries == r.entries[key := shard.entries[key]];
        assert MustGo(shard, r, bytes, key, kept.used);
      }
    }

    /** With entry `key` still in, the shard had no room for `bytes` more. */
    ghost predicate MustGo(shard: Shard, r: Shard, bytes: nat, key: PathId, used: nat) {
      && key in shard.entries && key !in r.entries
      && SaturatingAdd(used, bytes) > capacity
      && Accounted(capacity, Shard(r.entries[key := shard.entries[key]], used))
    }

    ghost predicate LastHadToGo(shard: Shard, r: Shard, bytes: nat) {
      exists key, used: nat :: MustGo(shard, r, bytes, key, used)
    }

    /** Insert or replace; a snapshot larger than the capacity is not stored. */
    method Insert(p: PathId, snapshot: Resident)
      requires Valid()
      modifies this`shards
      ensures Valid()
      ensures |snapshot.bytes| > capacity ==> shards == old(shards)
      ensures |snapshot.bytes| <= capacity ==>
        Lookup(p) == Some(Entry(snapshot, |snapshot.bytes|, snapshot.stamp))
      ensures forall q :: q != p ==> Lookup(q) == old(Lookup(q)) || (Index(q) == Index(p) && Lookup(q) == None)
      ensures SaturatingAdd(WithoutPath(old(shards)[Index(p)], p).used, |snapshot.bytes|) <= capacity ==>
        forall q :: q != p ==> Lookup(q) == old(Lookup(q))
    {
      var bytes := |snapshot.bytes|;
      if bytes > capacity {
        return;
      }
      var shard := shards[Index(p)];
      assert Accounted(capacity, shard);
      WithoutPathAccounted(capacity, shard, p);
      var kept := Evict(WithoutPath(shard, p), bytes);
      var entry := Entry(snapshot, bytes, snapshot.stamp);
      TotalAdd(kept.entries, p, entry);
      var grown := Shard(kept.entries[p := entry], SaturatingAdd(kept.used, bytes));
      if SaturatingAdd(WithoutPath(shard, p).used, bytes) <= capacity {
        assert forall q :: q in shard.entries && q != p ==> q in WithoutPath(shard, p).entries;
        assert forall q :: q in shards[Index(p)].entries && q != p ==> q in grown.entries;
      }
      PutShard(p, grown);
    }

    /** Refresh the stamp of a resident entry. */
    method Refresh(p: PathId, stamp: FileStamp)
      requires Valid() && Lookup(p).Some?
      modifies this`shards
      ensures Valid() && Lookup(p) == Some(old(Lookup(p)).value.(stamp := Some(stamp)))
      ensures forall q :: q != p ==> Lookup(q) == old(Lookup(q))
    {
      var shard := shards[Index(p)];
      assert Accounted(capacity, shard);
      var entry := shard.entries[p].(stamp := Some(stamp));
      TotalRemove(shard.entries, p);
      TotalAdd(shard.entries - {p}, p, entry);
      assert (shard.entries - {p})[p := entry] == shard.entries[p := entry];
      shards := shards[Index(p) := shard.(entries := shard.entries[p := entry])];
      forall i | 0 <= i < SHARD_COUNT
        ensures Accounted(capacity, shards[i])
      {
        assert Accounted(capacity, old(shards)[i]);
      }
    }

    // -------------------------------------------------------------- lookups against the disk

    /** Time passes on the disk: what the entries say stays true. */
    lemma TruthfulOnward(timing: Timing, trail: Trail, start: nat, late: bool, late': bool)
      requires |shards| == SHARD_COUNT
      requires TrailOk(timing, trail) && start < |trail| && (late ==> late')
      requires TruthfulFor(timing, trail[start], late)
      ensures TruthfulFor(timing, trail[|trail| - 1], late')
    {
      assert FilesEvolve(trail[start], trail[|trail| - 1]);
      forall p
        ensures EntryFits(contentId, timing, trail[|trail| - 1], late', p, Lookup(p))
      {
        assert EntryFits(contentId, timing, trail[start], late, p, Lookup(p));
        EntryFitsOnward(contentId, timing, trail[start], late, trail[|trail| - 1], late', p, Lookup(p));
      }
    }

    /** The proof that a racy resident entry is still what the path holds: its stamp taken anew. */
    method VerifyEntry(disk: Device, p: PathId) returns (verified: Option<FileStamp>)
      requires Valid() && disk.Valid() && p in disk.files && disk.temp == None && Sound(disk.timing)
      requires Truthful(disk)
      modifies disk
      ensures Valid() && disk.Valid() && disk.Undisturbed() && disk.temp == None && Truthful(disk)
      ensures verified.Some? ==>
        && Lookup(p).Some? && Lookup(p).value.stamp.Some? && verified.value.Same(Lookup(p).value.stamp.value)
        && old(disk.files)[p].now <= verified.value.takenAt
      ensures verified.Some? && !disk.late ==>
        && ShownSince(disk.trail, p, Lookup(p).value.snapshot.bytes, |old(disk.trail)| - 1)
        && Describes(disk.timing, disk.files[p], verified.value, Lookup(p).value.snapshot.bytes)
      ensures Calm(disk.trail, p, |old(disk.trail)| - 1) ==>
        (verified.Some? <==> RacyHit(Lookup(p), old(disk.files)[p]))
    {
      var entry := Lookup(p);
      if entry.None? || entry.value.stamp.None? || !entry.value.stamp.value.racy {
        return None;
      }
      assert EntryFits(contentId, disk.timing, disk.files, disk.late, p, Lookup(p));
      verified := VerifyBytes(disk, p, entry.value.snapshot.bytes, entry.value.stamp.value);
      TruthfulOnward(disk.timing, disk.trail, |old(disk.trail)| - 1, old(disk.late), disk.late);
    }

    /**
     * Serve a racy resident entry only after reading the file again, and refresh its stamp. On a calm path it is
     * served exactly when the file still has the stamp and the bytes.
     */
    method VerifyRacyResident(disk: Device, p: PathId) returns (r: Option<Resident>)
      requires Valid() && disk.Valid() && p in disk.files && disk.temp == None && Sound(disk.timing)
      requires Truthful(disk)
      modifies disk, this`shards
      ensures Valid() && disk.Valid() && disk.Undisturbed() && disk.temp == None && Truthful(disk)
      ensures r.Some? && !disk.late ==> ShownSince(disk.trail, p, r.value.bytes, |old(disk.trail)| - 1)
      ensures r.Some? ==> old(Lookup(p)).Some? && r.value == old(Lookup(p)).value.snapshot && GenuineHit(r.value)
      ensures r.None? ==> shards == old(shards)
      ensures r.Some? ==>
        && Lookup(p).Some? && Lookup(p).value.snapshot == r.value
        && Lookup(p).value.stamp.Some? && old(disk.files)[p].now <= Lookup(p).value.stamp.value.takenAt
      ensures r.Some? && RacyHit(old(Lookup(p)), old(disk.files)[p]) ==> ResidentHit(Lookup(p), old(disk.files)[p])
      ensures Calm(disk.trail, p, |old(disk.trail)| - 1) ==>
        (r.Some? <==> RacyHit(old(Lookup(p)), old(disk.files)[p]))
    {
      var verified := VerifyEntry(disk, p);
      if verified.None? {
        return None;
      }
      assert EntryFits(contentId, disk.timing, disk.files, disk.late, p, Lookup(p));
      r := Some(Lookup(p).value.snapshot);
      RefreshTruthfully(disk, p, verified.value);
    }

    /** Legal text under its own identity. */
    predicate GenuineHit(r: Resident) {
      IsText(r.bytes) && r.id == contentId(r.bytes)
    }

    /** A refresh with a stamp that describes the resident bytes keeps the cache truthful. */
    method RefreshTruthfully(disk: Device, p: PathId, stamp: FileStamp)
      requires Valid() && Truthful(disk) && Lookup(p).Some? && p in disk.files
      requires !disk.late ==> Describes(disk.timing, disk.files[p], stamp, Lookup(p).value.snapshot.bytes)
      modifies this`shards
      ensures Valid() && Truthful(disk)
      ensures Lookup(p) == Some(old(Lookup(p)).value.(stamp := Some(stamp)))
      ensures forall q :: q != p ==> Lookup(q) == old(Lookup(q))
    {
      Refresh(p, stamp);
      forall q
        ensures EntryFits(contentId, disk.timing, disk.files, disk.late, q, Lookup(q))
      {
        assert old(EntryFits(contentId, disk.timing, disk.files, disk.late, q, Lookup(q)));
      }
    }

    /** So does an insertion, whatever it evicts. */
    method InsertTruthfully(disk: Device, p: PathId, snapshot: Resident)
      requires Valid() && Truthful(disk) && p in disk.files && snapshot.stamp.Some? && GenuineHit(snapshot)
      requires !disk.late ==> Describes(disk.timing, disk.files[p], snapshot.stamp.value, snapshot.bytes)
      modifies this`shards
      ensures Valid() && Truthful(disk)
      ensures |snapshot.bytes| <= capacity ==> Lookup(p) == Some(Entry(snapshot, |snapshot.bytes|, snapshot.stamp))
    {
      Insert(p, snapshot);
      forall q
        ensures EntryFits(contentId, disk.timing, disk.files, disk.late, q, Lookup(q))
      {
        assert old(EntryFits(contentId, disk.timing, disk.files, disk.late, q, Lookup(q)));
      }
    }

    method RemoveTruthfully(disk: Device, p: PathId)
      requires Valid() && Truthful(disk)
      modifies this`shards
      ensures Valid() && Truthful(disk) && Lookup(p) == None
      ensures forall q :: q != p ==> Lookup(q) == old(Lookup(q))
    {
      Remove(p);
      forall q
        ensures EntryFits(contentId, disk.timing, disk.files, disk.late, q, Lookup(q))
      {
        assert old(EntryFits(contentId, disk.timing, disk.files, disk.late, q, Lookup(q)));
      }
    }

    /** `stat` on the path, with the file system at that instant; the cache stays truthful. */
    method StatTruthfully(disk: Device, p: PathId) returns (stamp: Option<FileStamp>, ghost atStat: Fs)
      requires Valid() && disk.Valid() && p in disk.files && disk.temp == None
      requires Truthful(disk)
      modifies disk
      ensures Valid() && disk.Valid() && disk.Undisturbed() && disk.temp == None && Truthful(disk)
      ensures FsOk(disk.timing, atStat) && Evolves(old(disk.files)[p], atStat)
      ensures stamp.Some? <==> atStat.View().Some?
      ensures stamp.Some? ==>
        && stamp == CapturePath(atStat, stamp.value.capturedAt)
        && ShownSince(disk.trail, p, stamp.value.seen, |old(disk.trail)| - 1)
      ensures Calm(disk.trail, p, |old(disk.trail)| - 1) ==>
        && (stamp.None? ==> StampNow(old(disk.files)[p]).None?)
        && (stamp.Some? ==> StampedAs(old(disk.files)[p], stamp.value))
    {
      ghost var start := |disk.trail| - 1;
      stamp, atStat := disk.StatPath(p);
      TruthfulOnward(disk.timing, disk.trail, start, old(disk.late), disk.late);
      if Calm(disk.trail, p, start) {
        CalmOnTrail(disk.trail, p, start, atStat);
      }
    }

    /** An entry with an equal stamp, outside the window, holds what the path showed when it was stamped. */
    lemma MatchIsFresh(timing: Timing, fs: Fs, atStat: Fs, entry: Entry, stamp: FileStamp)
      requires Sound(timing) && FsOk(timing, atStat) && Evolves(fs, atStat) && MatchesStamp(Some(entry), stamp)
      requires Describes(timing, fs, entry.stamp.value, entry.snapshot.bytes)
      requires CapturePath(atStat, stamp.capturedAt) == Some(stamp)
      ensures stamp.seen == entry.snapshot.bytes
    {
      DescribesEvolves(timing, fs, atStat, entry.stamp.value, entry.snapshot.bytes);
      NonRacyStampProves(timing, atStat, entry.stamp.value, stamp.capturedAt);
    }

    /** The path's stamp now: an entry with that stamp, outside the window, holds what the path showed. */
    method StatAgainst(disk: Device, p: PathId) returns (stamp: Option<FileStamp>)
      requires Valid() && disk.Valid() && p in disk.files && disk.temp == None && Sound(disk.timing)
      requires Truthful(disk)
      modifies disk
      ensures Valid() && disk.Valid() && disk.Undisturbed() && disk.temp == None && Truthful(disk)
      ensures stamp.Some? && MatchesStamp(Lookup(p), stamp.value) && !disk.late ==>
        ShownSince(disk.trail, p, Lookup(p).value.snapshot.bytes, |old(disk.trail)| - 1)
      ensures Calm(disk.trail, p, |old(disk.trail)| - 1) ==>
        && (stamp.None? ==> StampNow(old(disk.files)[p]).None?)
        && (stamp.Some? ==> StampedAs(old(disk.files)[p], stamp.value))
    {
      ghost var fs := disk.files[p];
      assert EntryFits(contentId, disk.timing, disk.files, disk.late, p, Lookup(p));
      ghost var atStat;
      stamp, atStat := StatTruthfully(disk, p);
      if stamp.Some? && MatchesStamp(Lookup(p), stamp.value) && !disk.late {
        MatchIsFresh(disk.timing, fs, atStat, Lookup(p).value, stamp.value);
      }
    }

    /** The first lookup: a metadata-only hit, on a calm path exactly when the file still has the stamp. */
    method HitByStamp(disk: Device, p: PathId) returns (r: Option<Resident>)
      requires Valid() && disk.Valid() && p in disk.files && disk.temp == None && Sound(disk.timing)
      requires Truthful(disk)
      modifies disk
      ensures Valid() && disk.Valid() && disk.Undisturbed() && disk.temp == None && Truthful(disk)
      ensures r.Some? && !disk.late ==> ShownSince(disk.trail, p, r.value.bytes, |old(disk.trail)| - 1)
      ensures r.Some? ==> Lookup(p).Some? && r.value == Lookup(p).value.snapshot && GenuineHit(r.value)
      ensures Calm(disk.trail, p, |old(disk.trail)| - 1) ==>
        (r.Some? <==> StampHit(Lookup(p), old(disk.files)[p]))
    {
      var stamp := StatAgainst(disk, p);
      if stamp.None? {
        return None;
      }
      assert EntryFits(contentId, disk.timing, disk.files, disk.late, p, Lookup(p));
      r := Get(p, stamp);
    }

    /** The second look under the shard lock: serve, or drop a resident that no longer matches. */
    method HitOrDrop(disk: Device, p: PathId) returns (r: Option<Resident>)
      requires Valid() && disk.Valid() && p in disk.files && disk.temp == None && Sound(disk.timing)
      requires Truthful(disk)
      modifies disk, this`shards
      ensures Valid() && disk.Valid() && disk.Undisturbed() && disk.temp == None && Truthful(disk)
      ensures r.Some? && !disk.late ==> ShownSince(disk.trail, p, r.value.bytes, |old(disk.trail)| - 1)
      ensures r.Some? ==> old(Lookup(p)).Some? && r.value == old(Lookup(p)).value.snapshot && GenuineHit(r.value)
      ensures r.Some? ==> shards == old(shards)
      ensures r.None? ==> Lookup(p) == None && forall q :: q != p ==> Lookup(q) == old(Lookup(q))
      ensures Calm(disk.trail, p, |old(disk.trail)| - 1) ==>
        (r.Some? <==> StampHit(old(Lookup(p)), old(disk.files)[p]))
    {
      var current := StatAgainst(disk, p);
      var entry := Lookup(p);
      if entry.None? {
        return None;
      }
      assert EntryFits(contentId, disk.timing, disk.files, disk.late, p, Lookup(p));
      var stampOk := match current
        case Some(stamp) =>
          entry.value.stamp.Some? && entry.value.stamp.value.Same(stamp) && !entry.value.stamp.value.racy
        case None => entry.value.stamp.None?;
      if stampOk {
        return Some(entry.value.snapshot);
      }
      RemoveTruthfully(disk, p);
      return None;
    }

    /** Serve what is resident: by its stamp, or by verifying its bytes when that stamp is racy. */
    method ServeResident(disk: Device, p: PathId) returns (r: Option<Resident>)
      requires Valid() && disk.Valid() && p in disk.files && disk.temp == None && Sound(disk.timing)
      requires Truthful(disk)
      modifies disk, this`shards
      ensures Valid() && disk.Valid() && disk.Undisturbed() && disk.temp == None && Truthful(disk)
      ensures r.Some? && !disk.late ==> ShownSince(disk.trail, p, r.value.bytes, |old(disk.trail)| - 1)
      ensures r.Some? ==> old(Lookup(p)).Some? && r.value == old(Lookup(p)).value.snapshot && GenuineHit(r.value)
      ensures r.Some? ==> Lookup(p).Some? && Lookup(p).value.snapshot == r.value
      ensures Calm(disk.trail, p, |old(disk.trail)| - 1) ==>
        && (r.Some? <==> ResidentHit(old(Lookup(p)), old(disk.files)[p]))
        && (r.Some? ==> ResidentHit(Lookup(p), old(disk.files)[p]))
    {
      ghost var start := |disk.trail| - 1;
      r := HitByStamp(disk, p);
      if r.None? {
        ghost var soFar: Trail := disk.trail;
        r := VerifyRacyResident(disk, p);
        AllHeldKeptTransitive(old(disk.trail), soFar, disk.trail);
        if Calm(disk.trail, p, start) {
          CalmParts(soFar, disk.trail, p, start);
          RacyHitSameFile(old(Lookup(p)), old(disk.files)[p], soFar[|soFar| - 1][p]);
          HitSameFile(Lookup(p), old(disk.files)[p], soFar[|soFar| - 1][p]);
        }
        if r.Some? && !disk.late {
          ShownEarlier(disk.trail, p, r.value.bytes, start, |soFar| - 1);
        }
      }
    }

    /** Look once more under the shard lock, drop what is stale, and load. */
    method ClaimAndLoad(disk: Device, p: PathId) returns (r: Result<Resident, LoadError>)
      requires Valid() && disk.Valid() && p in disk.files && disk.temp == None && Sound(disk.timing)
      requires Truthful(disk)
      modifies disk, this`shards
      ensures Valid() && disk.Valid() && disk.Undisturbed() && disk.temp == None && Truthful(disk)
      ensures r.Ok? && !disk.late ==> ShownSince(disk.trail, p, r.value.bytes, |old(disk.trail)| - 1)
      ensures r.Ok? ==> GenuineHit(r.value)
      ensures r == Err(Missing) ==> AbsentSince(disk.trail, p, |old(disk.trail)| - 1)
      ensures r.Ok? && |r.value.bytes| <= capacity ==> Lookup(p).Some? && Lookup(p).value.snapshot == r.value
      ensures Calm(disk.trail, p, |old(disk.trail)| - 1) && !disk.late ==> ServedAs(old(disk.files)[p], r)
      ensures Calm(disk.trail, p, |old(disk.trail)| - 1) && r.Ok? && |r.value.bytes| <= capacity ==>
        ResidentHit(Lookup(p), old(disk.files)[p])
    {
      ghost var start := |disk.trail| - 1;
      var hit := HitOrDrop(disk, p);
      if hit.Some? {
        if Calm(disk.trail, p, start) && !disk.late {
          CalmShown(disk.trail, p, start, hit.value.bytes);
          TextIsServed(old(disk.files)[p], hit.value);
        }
        return Ok(hit.value);
      }
      ghost var soFar: Trail := disk.trail;
      r := LoadAndInsert(disk, p);
      AllHeldKeptTransitive(old(disk.trail), soFar, disk.trail);
      if Calm(disk.trail, p, start) {
        CalmParts(soFar, disk.trail, p, start);
        ServedSameFile(old(disk.files)[p], soFar[|soFar| - 1][p], r);
        HitSameFile(Lookup(p), old(disk.files)[p], soFar[|soFar| - 1][p]);
      }
      if r.Ok? && !disk.late {
        ShownEarlier(disk.trail, p, r.value.bytes, start, |soFar| - 1);
      }
      if r == Err(Missing) {
        AbsentStays(disk.trail, disk.trail, p, |soFar| - 1, start);
      }
    }

    /**
     * Freshness: whatever is served was the file's exact content at one instant of this very call, over
     * every script of an external writer; and the cache stays truthful. If the path stays calm during the call,
     * it is answered with the file's text, or with the reason why it has none, and a valid resident is served.
     * What was served stays resident, unless it is too large, and on a calm path the next call is a hit again.
     */
    method GetOrLoad(disk: Device, p: PathId) returns (r: Result<Resident, LoadError>)
      requires Valid() && disk.Valid() && p in disk.files && disk.temp == None && Sound(disk.timing)
      requires Truthful(disk)
      modifies disk, this`shards
      ensures Valid() && disk.Valid() && disk.Undisturbed() && disk.temp == None && Truthful(disk)
      ensures r.Ok? && (!disk.late || disk.InTime()) ==>
        ShownSince(disk.trail, p, r.value.bytes, |old(disk.trail)| - 1)
      ensures r.Ok? ==> GenuineHit(r.value)
      ensures r == Err(Missing) ==> AbsentSince(disk.trail, p, |old(disk.trail)| - 1)
      ensures
        (Calm(disk.trail, p, |old(disk.trail)| - 1) && !disk.late) || (|old(disk.script)| == 0 && !old(disk.late)) ==>
          ServedAs(old(disk.files)[p], r)
      ensures Calm(disk.trail, p, |old(disk.trail)| - 1) && ResidentHit(old(Lookup(p)), old(disk.files)[p]) ==>
        r == Ok(old(Lookup(p)).value.snapshot)
      ensures r.Ok? && |r.value.bytes| <= capacity ==> Lookup(p).Some? && Lookup(p).value.snapshot == r.value
      ensures Calm(disk.trail, p, |old(disk.trail)| - 1) && r.Ok? && |r.value.bytes| <= capacity ==>
        ResidentHit(Lookup(p), old(disk.files)[p])
    {
      ghost var start := |disk.trail| - 1;
      CalmNow(disk.timing, disk.trail, p);
      var hit := ServeResident(disk, p);
      if hit.Some? {
        if Calm(disk.trail, p, start) && !disk.late {
          CalmShown(disk.trail, p, start, hit.value.bytes);
          TextIsServed(old(disk.files)[p], hit.value);
        }
        return Ok(hit.value);
      }
      ghost var soFar: Trail := disk.trail;
      r := ClaimAndLoad(disk, p);
      PrefixOn(old(disk.trail), soFar, disk.trail);
      AllHeldKeptTransitive(old(disk.trail), soFar, disk.trail);
      if Calm(disk.trail, p, start) {
        CalmParts(soFar, disk.trail, p, start);
        ServedSameFile(old(disk.files)[p], soFar[|soFar| - 1][p], r);
        HitSameFile(Lookup(p), old(disk.files)[p], soFar[|soFar| - 1][p]);
      }
      if r.Ok? && !disk.late {
        ShownEarlier(disk.trail, p, r.value.bytes, start, |soFar| - 1);
      }
      if r == Err(Missing) {
        AbsentStays(disk.trail, disk.trail, p, |soFar| - 1, start);
      }
    }

    method LoadAndInsert(disk: Device, p: PathId) returns (r: Result<Resident, LoadError>)
      requires Valid() && disk.Valid() && p in disk.files && disk.temp == None && Sound(disk.timing)
      requires Truthful(disk)
      modifies disk, this`shards
      ensures Valid() && disk.Valid() && disk.Undisturbed() && disk.temp == None && Truthful(disk)
      ensures r.Ok? ==> GenuineHit(r.value)
      ensures r == Err(Missing) ==> AbsentSince(disk.trail, p, |old(disk.trail)| - 1)
      ensures r.Ok? && |r.value.bytes| <= capacity ==> Lookup(p).Some? && Lookup(p).value.snapshot == r.value
      ensures r.Ok? && !disk.late ==> ShownSince(disk.trail, p, r.value.bytes, |old(disk.trail)| - 1)
      ensures Calm(disk.trail, p, |old(disk.trail)| - 1) ==> ServedAs(old(disk.files)[p], r)
      ensures Calm(disk.trail, p, |old(disk.trail)| - 1) && r.Ok? && |r.value.bytes| <= capacity ==>
        ResidentHit(Lookup(p), old(disk.files)[p])
    {
      ghost var late, start := disk.late, |disk.trail| - 1;
      var loaded := Load(disk, p);
      TruthfulOnward(disk.timing, disk.trail, start, late, disk.late);
      match loaded {
        case Err(error) => return Err(error);
        case Ok((bytes, stamp)) =>
          var snapshot := Resident(bytes, contentId(bytes), Some(stamp));
          if Calm(disk.trail, p, start) {
            LoadedIsServed(old(disk.files)[p], loaded.value, snapshot);
          }
          InsertTruthfully(disk, p, snapshot);
          return Ok(snapshot);
      }
    }

    /** Publish persisted bytes under the stamp confirmed after the rename, when there is one. */
    method Publish(disk: Device, p: PathId, bytes: Bytes, stamp: Option<FileStamp>)
      requires Valid() && disk.Valid() && p in disk.files && Truthful(disk) && IsText(bytes)
      requires stamp.Some? && !disk.late ==> Describes(disk.timing, disk.files[p], stamp.value, bytes)
      modifies this`shards
      ensures Valid() && Truthful(disk)
      ensures stamp.None? ==> shards == old(shards)
      ensures stamp.Some? && |bytes| <= capacity ==>
        Lookup(p) == Some(Entry(Resident(bytes, contentId(bytes), stamp), |bytes|, stamp))
    {
      if stamp.Some? {
        InsertTruthfully(disk, p, Resident(bytes, contentId(bytes), stamp));
      }
    }
  }

  // ---------------------------------------------------------------- when an entry is a hit

  /** A non-racy entry under this stamp. */
  predicate MatchesStamp(entry: Option<Entry>, stamp: FileStamp) {
    entry.Some? && entry.value.stamp.Some? && !entry.value.stamp.value.racy && entry.value.stamp.value.Same(stamp)
  }

  /** A non-racy entry whose stamp the file still has. */
  predicate StampHit(entry: Option<Entry>, fs: Fs) {
    entry.Some? && entry.value.stamp.Some? && !entry.value.stamp.value.racy && StampedAs(fs, entry.value.stamp.value)
  }

  /** A racy entry whose stamp and bytes the file still has. */
  predicate RacyHit(entry: Option<Entry>, fs: Fs) {
    && entry.Some? && entry.value.stamp.Some? && entry.value.stamp.value.racy
    && StampedAs(fs, entry.value.stamp.value) && fs.View() == Some(entry.value.snapshot.bytes)
  }

  predicate ResidentHit(entry: Option<Entry>, fs: Fs) {
    StampHit(entry, fs) || RacyHit(entry, fs)
  }

  lemma HitSameFile(entry: Option<Entry>, a: Fs, b: Fs)
    requires SameFile(a, b)
    ensures ResidentHit(entry, a) <==> ResidentHit(entry, b)
  {
  }

  lemma RacyHitSameFile(entry: Option<Entry>, a: Fs, b: Fs)
    requires SameFile(a, b)
    ensures RacyHit(entry, a) <==> RacyHit(entry, b)
  {
  }

  /** Served with the file's text, or refused for the reason that it has none. */
  predicate ServedAs(fs: Fs, r: Result<Resident, LoadError>) {
    match LoadOf(fs)
    case Err(e) => r == Err(e)
    case Ok(content) => r.Ok? && r.value.bytes == content
  }

  lemma ServedSameFile(a: Fs, b: Fs, r: Result<Resident, LoadError>)
    requires SameFile(a, b)
    ensures ServedAs(a, r) <==> ServedAs(b, r)
  {
  }

  lemma LoadedIsServed(fs: Fs, loaded: (Bytes, FileStamp), r: Resident)
    requires LoadedAs(fs, Ok(loaded)) && r.bytes == loaded.0
    ensures ServedAs(fs, Ok(r))
  {
  }

  lemma TextIsServed(fs: Fs, r: Resident)
    requires IsText(r.bytes) && fs.View() == Some(r.bytes)
    ensures ServedAs(fs, Ok(r))
  {
    ValidateTextDecides(r.bytes);
  }

  /** On a calm path a bounded read of the file that was opened yields what the path holds. */
  lemma CalmReadFd(soFar: Trail, trail: Trail, p: PathId, start: nat, before: FileStamp, stamp: FileStamp)
    requires |soFar| <= |trail| && soFar == trail[..|soFar|] && start < |soFar| && Calm(trail, p, start)
    ensures Calm(soFar, p, start) && p in trail[start] && p in trail[|trail| - 1]
    ensures
      var fs, now := trail[start][p], trail[|trail| - 1][p];
      fs.path == Some(before.identity) && StampedAs(fs, before) && before.Same(stamp) ==>
        && StampedAs(fs, stamp) && before.identity in now.inodes
        && Some(Bounded(now.inodes[before.identity].content, stamp.len)) == fs.View()
  {
    CalmParts(soFar, trail, p, start);
    CalmAt(trail, p, start, |trail| - 1);
  }

  /** Open the path and stamp the descriptor, if that stamp is the one looked for. */
  method OpenMatching(disk: Device, p: PathId, stamp: FileStamp) returns (r: Option<FileStamp>)
    requires disk.Valid() && p in disk.files && disk.temp == None
    modifies disk
    ensures disk.Valid() && disk.Undisturbed() && disk.temp == None
    ensures r.Some? ==>
      && r.value.Same(stamp) && r.value.identity in disk.files[p].inodes
      && old(disk.files)[p].now <= r.value.takenAt <= disk.files[p].now
      && Held(disk.trail, p, r.value.identity, |old(disk.trail)| - 1)
      && (!disk.late ==> StampOk(disk.timing, disk.files[p], r.value))
    ensures Calm(disk.trail, p, |old(disk.trail)| - 1) ==>
      && (r.Some? <==> StampedAs(old(disk.files)[p], stamp))
      && (r.Some? ==> StampedAs(old(disk.files)[p], r.value) && old(disk.files)[p].path == Some(r.value.identity))
  {
    r := OpenAndStat(disk, p);
    if r.Some? && !r.value.Same(stamp) {
      r := None;
    }
  }

  /** The verification read under one stamp: what an open file holds, and that the path showed it. */
  method VerifyRead(disk: Device, p: PathId, stamp: FileStamp) returns (r: Option<(FileStamp, Bytes)>)
    requires disk.Valid() && p in disk.files && disk.temp == None
    modifies disk
    ensures disk.Valid() && disk.Undisturbed() && disk.temp == None
    ensures r.Some? ==>
      && r.value.0.Same(stamp) && r.value.0.identity in disk.files[p].inodes
      && old(disk.files)[p].now <= r.value.0.takenAt <= disk.files[p].now
      && r.value.1 == Bounded(disk.files[p].inodes[r.value.0.identity].content, stamp.len)
      && Held(disk.trail, p, r.value.0.identity, |old(disk.trail)| - 1)
      && (!disk.late ==> StampOk(disk.timing, disk.files[p], r.value.0))
    ensures Calm(disk.trail, p, |old(disk.trail)| - 1) ==>
      && (r.Some? <==> StampedAs(old(disk.files)[p], stamp))
      && (r.Some? ==> Some(r.value.1) == old(disk.files)[p].View())
  {
    ghost var start := |disk.trail| - 1;
    var before := OpenMatching(disk, p, stamp);
    ghost var atStat, soFar: Trail := disk.files[p], disk.trail;
    if before.None? {
      return None;
    }
    var read := disk.ReadBounded(p, before.value.identity, stamp.len);
    AllHeldKeptTransitive(old(disk.trail), soFar, disk.trail);
    assert Held(disk.trail, p, before.value.identity, start);
    if Calm(disk.trail, p, start) {
      CalmReadFd(soFar, disk.trail, p, start, before.value, stamp);
    }
    if !disk.late {
      StampOkEvolves(disk.timing, atStat, disk.files[p], before.value);
    }
    return Some((before.value, read));
  }

  /** A bounded read of as many bytes as the stamp says, between two stamps equal to it, is the whole file. */
  lemma BoundedIsDescribed(
    timing: Timing, done: Fs, second: Fs, fs: Fs, before: FileStamp, bytes: Bytes, after: FileStamp, stamp: FileStamp)
    requires Sound(timing) && FsOk(timing, second) && Evolves(done, second) && Evolves(second, fs)
    requires StampOk(timing, done, before) && before.Same(stamp) && after.Same(stamp) && |bytes| == stamp.len
    requires bytes == Bounded(done.inodes[before.identity].content, stamp.len)
    requires before.identity in second.inodes && after == Capture(second, before.identity, after.capturedAt)
    requires after.takenAt <= after.capturedAt <= before.takenAt + timing.bracket
    ensures done.inodes[before.identity].content == bytes && Describes(timing, fs, after, bytes)
  {
    assert done.inodes[before.identity].content == bytes;
    CompleteRead(timing, done, second, before, bytes, after);
    StampOkEvolves(timing, second, fs, after);
  }

  /** On a calm path the stamp taken again is the one the path has. */
  lemma CalmRestat(
    atRead: Trail, trail: Trail, p: PathId, start: nat, second: Fs, before: FileStamp, after: FileStamp,
    stamp: FileStamp)
    requires |atRead| <= |trail| && atRead == trail[..|atRead|] && start < |atRead| && Calm(trail, p, start)
    requires OnTrail(trail, p, second, |atRead| - 1) && before.identity in second.inodes
    requires after == Capture(second, before.identity, after.capturedAt) && before.Same(stamp)
    ensures Calm(atRead, p, start) && p in trail[start]
    ensures StampedAs(trail[start][p], stamp) ==> after.Same(stamp)
  {
    CalmParts(atRead, trail, p, start);
    CalmOnTrail(trail, p, |atRead| - 1, second);
  }

  /** The verification read: equal stamps around one bounded read that yields exactly the resident bytes. */
  method VerifyBytes(disk: Device, p: PathId, bytes: Bytes, stamp: FileStamp) returns (r: Option<FileStamp>)
    requires disk.Valid() && p in disk.files && disk.temp == None && Sound(disk.timing)
    requires !disk.late ==> |bytes| == stamp.len
    modifies disk
    ensures disk.Valid() && disk.Undisturbed() && disk.temp == None
    ensures r.Some? && !disk.late ==>
      && Describes(disk.timing, disk.files[p], r.value, bytes)
      && ShownSince(disk.trail, p, bytes, |old(disk.trail)| - 1)
    ensures r.Some? ==> r.value.Same(stamp) && old(disk.files)[p].now <= r.value.takenAt
    ensures Calm(disk.trail, p, |old(disk.trail)| - 1) ==>
      (r.Some? <==> StampedAs(old(disk.files)[p], stamp) && old(disk.files)[p].View() == Some(bytes))
  {
    ghost var start := |disk.trail| - 1;
    var verified := VerifyRead(disk, p, stamp);
    if verified.None? {
      return None;
    }
    var (before, read) := verified.value;
    ghost var done, atRead: Trail := disk.files[p], disk.trail;
    var after, second := disk.StatFd(p, before.identity);
    AllHeldKeptTransitive(old(disk.trail), atRead, disk.trail);
    BracketWithin(
      old(disk.trail), old(disk.elapsed), disk.trail, disk.elapsed, p, before.takenAt, after.capturedAt);
    disk.NoteBracket(before.takenAt, after.capturedAt);
    if Calm(disk.trail, p, start) {
      CalmRestat(atRead, disk.trail, p, start, second, before, after, stamp);
    }
    if !after.Same(stamp) || read != bytes {
      return None;
    }
    if !disk.late {
      BoundedIsDescribed(disk.timing, done, second, disk.files[p], before, bytes, after, stamp);
      ShownStays(atRead, disk.trail, p, bytes, start);
    }
    return Some(after);
  }
}
