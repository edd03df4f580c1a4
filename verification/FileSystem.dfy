/** Files, kernel timestamps, and the metadata stamps the server trusts outside the racy window. */
module FileSystem {
  import opened Numbers

  /** Nanoseconds of real time. */
  type Time = nat

  type InodeId = nat

  /** `changedAt` is the real time of the last change; the kernel only exposes the coarse `ctime`. */
  datatype Inode = Inode(content: Bytes, mtime: int, ctime: int, changedAt: Time)

  /** Inodes by number, and the inode the one modelled path names. */
  datatype Fs = Fs(now: Time, inodes: map<InodeId, Inode>, path: Option<InodeId>)
  {
    /** What a reader of the path would find. */
    function View(): Option<Bytes> {
      if path.Some? && path.value in inodes then Some(inodes[path.value].content) else None
    }
  }

  /** Two seconds: `RACY_WINDOW`. */
  const RACY_WINDOW: nat := 2_000_000_000

  /** How a file is loaded: bytes per read at most, and attempts until it is given up as unstable. */
  const READ_BUFFER_BYTES: nat := 65536
  const MAX_READ_ATTEMPTS: nat := 2

  /** Timestamp granularity, and the longest stat-to-stat or stat-to-clock bracket of a run. */
  datatype Timing = Timing(granularity: nat, bracket: nat)

  predicate Sound(timing: Timing) {
    timing.granularity + timing.bracket <= RACY_WINDOW
  }

  /** A timestamp the kernel may write at time `now`: at most one granule old, never in the future. */
  predicate Ticks(timing: Timing, now: Time, timestamp: int) {
    timestamp <= now <= timestamp + timing.granularity
  }

  /** Every change time is a legal tick for the moment of the change. */
  ghost predicate FsOk(timing: Timing, fs: Fs) {
    && (forall k :: k in fs.inodes ==>
          fs.inodes[k].changedAt <= fs.now && Ticks(timing, fs.inodes[k].changedAt, fs.inodes[k].ctime))
    && (fs.path.Some? ==> fs.path.value in fs.inodes)
  }

  /** Time moves on; an inode that differs was changed at or after `fs.now`. */
  ghost predicate Evolves(fs: Fs, fs': Fs) {
    && fs.now <= fs'.now
    && forall k :: k in fs.inodes ==>
         k in fs'.inodes && (fs'.inodes[k] == fs.inodes[k] || fs'.inodes[k].changedAt >= fs.now)
  }

  lemma EvolvesTransitive(a: Fs, b: Fs, c: Fs)
    requires Evolves(a, b) && Evolves(b, c)
    ensures Evolves(a, c)
  {
  }

  /** Pre-epoch timestamps saturate to the epoch. */
  function ToSystemTime(timestamp: int): nat {
    if timestamp < 0 then 0 else timestamp
  }

  /** Unknown ages do not occur on this platform; future timestamps are racy. */
  predicate WithinRacyWindow(capturedAt: Time, timestamp: nat) {
    if capturedAt >= timestamp then capturedAt - timestamp <= RACY_WINDOW else true
  }

  /**
   * Identity, length, modification and change time, and whether they were captured inside the racy
   * window. `takenAt`, `capturedAt` and `seen` record when the metadata was taken, when the clock was
   * read, and the exact content at the first of these instants; no operation reads them.
   */
  datatype FileStamp = FileStamp(
    identity: InodeId, len: nat, mtime: int, ctime: int, racy: bool,
    takenAt: Time, capturedAt: Time, seen: Bytes)
  {
    /** The equality of the source: exactly the four metadata fields. */
    predicate Same(other: FileStamp) {
      identity == other.identity && len == other.len && mtime == other.mtime && ctime == other.ctime
    }

    /** The fields a rename keeps. */
    predicate RenameKeeps(other: FileStamp) {
      identity == other.identity && len == other.len && mtime == other.mtime
    }
  }

  /** Metadata taken now, clock read at `clock`. */
  function Capture(fs: Fs, k: InodeId, clock: Time): FileStamp
    requires k in fs.inodes
  {
    var inode := fs.inodes[k];
    FileStamp(
      k, |inode.content|, inode.mtime, inode.ctime,
      WithinRacyWindow(clock, ToSystemTime(inode.mtime)) || WithinRacyWindow(clock, ToSystemTime(inode.ctime)),
      fs.now, clock, inode.content)
  }

  /** A stamp is racy exactly when its clock reading is at most two seconds after the later of the file's two times. */
  lemma RacyExactly(fs: Fs, k: InodeId, clock: Time)
    requires k in fs.inodes
    ensures Capture(fs, k, clock).racy <==>
      clock <= Max(0, Max(fs.inodes[k].mtime, fs.inodes[k].ctime)) + 2_000_000_000
  {
  }

  /** The path's stamp, or none when the path names nothing. */
  function CapturePath(fs: Fs, clock: Time): Option<FileStamp> {
    if fs.path.Some? && fs.path.value in fs.inodes then Some(Capture(fs, fs.path.value, clock)) else None
  }

  /** `k` was not changed at or after `since`. */
  predicate Unchanged(fs: Fs, k: InodeId, since: Time) {
    k in fs.inodes && fs.inodes[k].changedAt < since
  }

  /** What a stamp taken earlier still says about the present. */
  ghost predicate StampOk(timing: Timing, fs: Fs, stamp: FileStamp) {
    && stamp.takenAt <= fs.now
    && stamp.takenAt <= stamp.capturedAt <= stamp.takenAt + timing.bracket
    && stamp.len == |stamp.seen|
    && stamp.identity in fs.inodes
    && (!stamp.racy ==> stamp.capturedAt - ToSystemTime(stamp.ctime) > RACY_WINDOW)
    && (Unchanged(fs, stamp.identity, stamp.takenAt) ==> fs.inodes[stamp.identity].content == stamp.seen)
  }

  lemma CaptureOk(timing: Timing, fs: Fs, k: InodeId, clock: Time)
    requires k in fs.inodes && fs.now <= clock <= fs.now + timing.bracket
    ensures StampOk(timing, fs, Capture(fs, k, clock))
  {
  }

  lemma StampOkEvolves(timing: Timing, fs: Fs, fs': Fs, stamp: FileStamp)
    requires StampOk(timing, fs, stamp) && Evolves(fs, fs')
    ensures StampOk(timing, fs', stamp)
  {
  }

  /**
   * Outside the window metadata equality is proof: an inode that still shows a non-racy change time was
   * last changed before `since`, for every `since` within one bracket of the clock reading.
   */
  lemma NonRacyMeansUnchanged(timing: Timing, fs: Fs, k: InodeId, stamp: FileStamp, since: Time)
    requires Sound(timing) && FsOk(timing, fs)
    requires !stamp.racy && stamp.capturedAt - ToSystemTime(stamp.ctime) > RACY_WINDOW
    requires stamp.capturedAt <= since + timing.bracket
    requires k in fs.inodes && fs.inodes[k].ctime == stamp.ctime
    ensures Unchanged(fs, k, since)
  {
  }

  /** A path whose metadata still equals a trusted, non-racy stamp still holds the stamped bytes. */
  lemma NonRacyStampProves(timing: Timing, fs: Fs, stamp: FileStamp, clock: Time)
    requires Sound(timing) && FsOk(timing, fs) && StampOk(timing, fs, stamp) && !stamp.racy
    requires CapturePath(fs, clock).Some? && stamp.Same(CapturePath(fs, clock).value)
    ensures fs.View() == Some(stamp.seen)
  {
    NonRacyMeansUnchanged(timing, fs, stamp.identity, stamp, stamp.takenAt);
  }

  /** A complete read between two equal, non-racy stamps within one bracket is the stamped content. */
  lemma ReadBetweenStamps(timing: Timing, fs: Fs, before: FileStamp, bytes: Bytes, clock: Time)
    requires Sound(timing) && FsOk(timing, fs) && StampOk(timing, fs, before)
    requires Unchanged(fs, before.identity, before.takenAt) ==> bytes == fs.inodes[before.identity].content
    requires fs.now <= clock <= before.takenAt + timing.bracket
    ensures StampOk(timing, fs, Capture(fs, before.identity, clock))
    ensures var after := Capture(fs, before.identity, clock);
      before.Same(after) && !after.racy ==> bytes == after.seen
  {
    var after := Capture(fs, before.identity, clock);
    CaptureOk(timing, fs, before.identity, clock);
    if !after.racy {
      NonRacyMeansUnchanged(timing, fs, before.identity, after, before.takenAt);
    }
  }

  /**
   * The bound is exact: once granularity and bracket together exceed the window, a rewrite inside one
   * tick can leave a non-racy stamp equal on an inode whose bytes it no longer describes.
   */
  lemma WindowMustCoverGranularityAndBracket(timing: Timing)
    returns (before: Fs, stamp: FileStamp, after: Fs)
    requires !Sound(timing)
    ensures FsOk(timing, before) && StampOk(timing, before, stamp) && !stamp.racy
    ensures before.View() == Some(stamp.seen)
    ensures FsOk(timing, after) && Evolves(before, after) && StampOk(timing, after, stamp)
    ensures CapturePath(after, after.now).Some? && stamp.Same(CapturePath(after, after.now).value)
    ensures after.View() != Some(stamp.seen)
  {
    // The file changed at time zero; the stamp is taken inside that tick, its clock read a bracket later.
    var taken := Max(0, RACY_WINDOW + 1 - timing.bracket);
    before := Fs(taken, map[0 := Inode([1], 0, 0, 0)], Some(0));
    stamp := Capture(before, 0, RACY_WINDOW + 1);
    after := Fs(taken, map[0 := Inode([2], 0, 0, taken)], Some(0));
  }

  /** Bytes read from a file for a content tiebreak: at most one more than expected. */
  function Bounded(content: Bytes, len: nat): Bytes {
    if |content| <= len + 1 then content else content[..len + 1]
  }
}
