/** The edit and write tools, call by call: load, decide, persist, publish. */
module Tools {
  import opened Numbers
  import opened Protocol
  import opened EditTheorems
  import opened Snapshots
  import opened Engine
  import opened FileSystem
  import opened Disk
  import opened Cache
  import opened Persist
  import opened Pipeline
  import opened Requests

  /** `Changed`, `Vanished` and `Resolved` are I/O errors of the source that ask for another try. */
  datatype ToolError =
    | Rejected(error: ProtocolError)
    | Unreadable(reason: LoadError)
    | Changed
    | Vanished
    | Resolved

  datatype EditSuccess = EditSuccess(filePath: Str, previous: SnapshotId, applied: nat, published: Published)

  datatype WriteSuccess = WriteSuccess(filePath: Str, published: Published, created: bool)

  // ---------------------------------------------------------------- what a request comes to

  function Rejecting<T>(r: Result<T, ProtocolError>): Result<T, ToolError> {
    match r
    case Ok(value) => Ok(value)
    case Err(e) => Err(Rejected(e))
  }

  /** The bytes an edit puts in place, decided on what loading the path gave. */
  ghost function EditOutcome(contentId: Bytes -> SnapshotId, loaded: Result<Bytes, LoadError>, request: EditRequest)
    : Result<Bytes, ToolError>
  {
    match (ValidateRequest(request), loaded)
    case (Err(e), _) => Err(Rejected(Contract(e)))
    case (Ok(_), Ok(base)) => Rejecting(VersionedEdits(base, contentId(base), request))
    case (Ok(_), Err(Missing)) => Rejecting(VersionedEdits([], contentId([]), request))
    case (Ok(_), Err(e)) => Err(Unreadable(e))
  }

  /** An edit comes to something exactly when it names what was loaded and is legal on it. */
  lemma EditSucceedsExactly(contentId: Bytes -> SnapshotId, loaded: Result<Bytes, LoadError>, request: EditRequest)
    ensures EditOutcome(contentId, loaded, request).Ok? <==>
      match loaded
      case Ok(base) => request.snapshot == contentId(base) && Accepted(base, request.edits)
      case Err(e) => e == Missing && request.snapshot == contentId([]) && Accepted([], request.edits)
    ensures EditOutcome(contentId, loaded, request).Ok? ==> IsText(EditOutcome(contentId, loaded, request).value)
  {
    var base := if loaded.Ok? then loaded.value else [];
    VersionedExactly(base, contentId(base), request);
    if VersionedEdits(base, contentId(base), request).Ok? {
      OutputIsText(base, request.edits);
    }
  }

  /** Whether a write creates the path or replaces what it holds, decided on what loading the path gave. */
  function WriteOutcome(contentId: Bytes -> SnapshotId, loaded: Result<Bytes, LoadError>, request: WriteRequest)
    : Result<bool, ToolError>
  {
    match (ValidateWriteRequest(request), loaded)
    case (Err(e), _) => Err(Rejected(Contract(e)))
    case (Ok(_), Ok(base)) => Rejecting(ReferenceWrite(Some((base, contentId(base))), request))
    case (Ok(_), Err(Missing)) => Rejecting(ReferenceWrite(None, request))
    case (Ok(_), Err(e)) => Err(Unreadable(e))
  }

  /** A write creates what is missing and was to be absent, and replaces what it names. */
  lemma WriteSucceedsExactly(contentId: Bytes -> SnapshotId, loaded: Result<Bytes, LoadError>, request: WriteRequest)
    ensures WriteOutcome(contentId, loaded, request) == Ok(true) <==>
      IsText(request.content) && request.expected == Absent && loaded == Err(Missing)
    ensures WriteOutcome(contentId, loaded, request) == Ok(false) <==>
      IsText(request.content) && loaded.Ok? && request.expected == Named(contentId(loaded.value))
  {
  }

  /** The tools decide by the rule that the machine of module Pipeline runs, on whatever was loaded. */
  lemma DecidesAsPipeline(
    contentId: Bytes -> SnapshotId, loaded: Result<Bytes, LoadError>, edit: EditRequest, write: WriteRequest)
    requires if loaded.Ok? then IsText(loaded.value) else loaded.error == Missing
    ensures var bytes := if loaded.Ok? then Some(loaded.value) else None;
      && (match EditOutcome(contentId, loaded, edit)
          case Err(_) => DecideRequest(contentId, Edit(edit), bytes) == Refused
          case Ok(output) =>
            DecideRequest(contentId, Edit(edit), bytes) == if loaded.Ok? then Replacing(output) else Putting(output))
      && (match WriteOutcome(contentId, loaded, write)
          case Err(_) => DecideRequest(contentId, Write(write), bytes) == Refused
          case Ok(created) =>
            DecideRequest(contentId, Write(write), bytes) ==
            if created then Creating(write.content) else Replacing(write.content))
  {
  }

  /** What a create that found the path occupied reports, decided on what loading it again gave. */
  function RaceReport(contentId: Bytes -> SnapshotId, found: Result<Bytes, LoadError>, request: WriteRequest)
    : ToolError
  {
    match found
    case Ok(winner) =>
      (match ReferenceWrite(Some((winner, contentId(winner))), request)
       case Ok(_) => Resolved
       case Err(e) => Rejected(e))
    case Err(Missing) => Vanished
    case Err(e) => Unreadable(e)
  }

  /** Only creates lose that race, so the report names what was found and never claims the conflict is gone. */
  lemma RaceReportNamesTheWinner(
    contentId: Bytes -> SnapshotId, found: Result<Bytes, LoadError>, request: WriteRequest)
    requires ReferenceWrite(None, request) == Ok(true)
    ensures RaceReport(contentId, found, request) != Resolved
    ensures found.Ok? && IsText(found.value) ==>
      var report := RaceReport(contentId, found, request);
      && report.Rejected? && report.error.AlreadyExists?
      && report.error.existing ==
           SnapshotHeader(request.filePath, contentId(found.value), LineCount(found.value), |found.value|)
      && 1 <= |report.error.existingContext| <= 5
  {
    if found.Ok? && IsText(found.value) {
      ContextIsBounded(found.value, 1);
    }
  }

  // ---------------------------------------------------------------- what a call saw and did

  /**
   * How an answer came about: what loading gave, the instant at which it was done, what a guarded replacement
   * then wanted to find, and the instant of the rename or link.
   */
  datatype Account = Account(
    loaded: Result<Bytes, LoadError>, since: nat, wanted: Option<ExpectedDestination>, at: nat)

  /** In the stretch, text was shown and a missing path was missing. */
  ghost predicate Seen(trail: Trail, p: PathId, loaded: Result<Bytes, LoadError>, from: nat, until: nat, late: bool) {
    match loaded
    case Ok(bytes) => IsText(bytes) && (!late ==> ShownBetween(trail, p, bytes, from, until))
    case Err(e) => e == Missing ==> AbsentBetween(trail, p, from, until)
  }

  /** The guard held after loading: the wanted stamp and content were found, and so was the base. */
  ghost predicate Guarded(trail: Trail, p: PathId, contentId: Bytes -> SnapshotId, how: Account, late: bool) {
    && how.loaded.Ok? && how.wanted.Some? && how.wanted.value.contentId == contentId(how.loaded.value)
    && Confirmed(trail, p, how.wanted.value, contentId, how.since, how.at)
    && (Unmistakable(contentId, how.loaded.value) && !late ==>
          ShownBetween(trail, p, how.loaded.value, how.since, how.at))
  }

  /** After loading, the path was found to be something else than what was loaded. */
  ghost predicate GuardFailed(trail: Trail, p: PathId, contentId: Bytes -> SnapshotId, how: Account) {
    && how.loaded.Ok? && how.wanted.Some? && how.wanted.value.contentId == contentId(how.loaded.value)
    && Refuted(trail, p, how.wanted.value, contentId, how.since)
  }

  lemma SeenBefore(
    soFar: Trail, trail: Trail, p: PathId, loaded: Result<Bytes, LoadError>, from: nat, late: bool, late': bool)
    requires |soFar| <= |trail| && soFar == trail[..|soFar|] && (late ==> late')
    requires Seen(soFar, p, loaded, from, |soFar|, late)
    ensures Seen(trail, p, loaded, from, |soFar|, late')
  {
    if loaded.Ok? && !late' {
      ShownBefore(soFar, trail, p, loaded.value, from, |soFar|);
    }
    if loaded == Err(Missing) {
      AbsentBefore(soFar, trail, p, from, |soFar|);
    }
  }

  /** What was loaded from a file is what its guard wants to find there. */
  lemma LoadedIsWanted(fs: Fs, later: Fs, stamp: FileStamp, contentId: Bytes -> SnapshotId, base: Bytes)
    requires SameFile(fs, later) && StampedAs(fs, stamp) && fs.View() == Some(base)
    ensures AsWanted(later, ExpectedDestination(stamp, contentId(base)), contentId)
  {
    StampOfSameFile(fs, later, stamp);
    assert Bounded(base, stamp.len) == base;
  }

  /** What loading had to find if nobody interfered. */
  ghost predicate FoundCalmly(trail: Trail, p: PathId, from: nat, how: Account) {
    CalmBetween(trail, p, from, how.since + 1) ==>
      && p in trail[from] && how.loaded == LoadOf(trail[from][p])
      && (how.wanted.Some? ==> StampedAs(trail[from][p], how.wanted.value.stamp))
  }

  /**
   * A call that loaded until `soFar` and went on: what it loaded was seen in time, and if nobody interfered before
   * its rename, the guard finds what was loaded.
   */
  lemma CallTraced(
    soFar: Trail, trail: Trail, p: PathId, from: nat, how: Account, until: nat, late: bool, late': bool,
    contentId: Bytes -> SnapshotId)
    requires |soFar| <= |trail| && soFar == trail[..|soFar|] && from < |soFar|
    requires how.since == |soFar| - 1 < until <= |trail| && (late ==> late')
    requires Seen(soFar, p, how.loaded, from, |soFar|, late) && FoundCalmly(soFar, p, from, how)
    requires how.wanted.Some? ==> how.loaded.Ok? && how.wanted.value.contentId == contentId(how.loaded.value)
    ensures Seen(trail, p, how.loaded, from, how.since + 1, late')
    ensures from == how.since && CalmBetween(trail, p, how.since, until) ==> CalmBetween(trail, p, from, until)
    ensures CalmBetween(trail, p, from, until) ==>
      && CalmBetween(trail, p, how.since, until)
      && p in soFar[from] && how.loaded == LoadOf(soFar[from][p])
      && p in soFar[how.since] && soFar[how.since][p].View() == soFar[from][p].View()
      && (how.wanted.Some? ==> AsWanted(soFar[how.since][p], how.wanted.value, contentId))
  {
    SeenBefore(soFar, trail, p, how.loaded, from, late, late');
    if CalmBetween(trail, p, from, until) {
      CalmWithin(trail, p, from, how.since, until);
      CalmBefore(soFar, trail, p, from);
      assert soFar[from] == trail[from] && soFar[how.since] == trail[how.since];
      assert forall i :: from <= i < |soFar| ==> SameAt(soFar, p, from, i);
      if how.wanted.Some? {
        LoadedIsWanted(soFar[from][p], soFar[how.since][p], how.wanted.value.stamp, contentId, how.loaded.value);
      }
    }
  }

  /**
   * The path holds the bytes, and so does its resident entry, from which the next read will be served, unless they
   * are too many for the cache.
   */
  ghost predicate Installed(cache: SnapshotCache, disk: Device, p: PathId, bytes: Bytes)
    reads cache, disk
    requires cache.Valid()
  {
    && p in disk.files && disk.files[p].View() == Some(bytes)
    && (|bytes| <= cache.capacity && !disk.late ==>
          && RacyHit(cache.Lookup(p), disk.files[p])
          && cache.Lookup(p).value.snapshot.bytes == bytes)
  }

  /** `Snapshot::load` with the cache at hand. */
  method LoadForTool(cache: SnapshotCache, disk: Device, p: PathId)
    returns (r: Result<(Bytes, FileStamp), LoadError>, ghost loaded: Result<Bytes, LoadError>)
    requires cache.Valid() && disk.Valid() && p in disk.files && disk.temp == None && Sound(disk.timing)
    requires cache.Truthful(disk)
    modifies disk
    ensures cache.Valid() && disk.Valid() && disk.Undisturbed() && disk.temp == None && cache.Truthful(disk)
    ensures loaded == match r case Ok(found) => Ok(found.0) case Err(e) => Err(e)
    ensures Seen(disk.trail, p, loaded, |old(disk.trail)| - 1, |disk.trail|, disk.late)
    ensures r.Ok? && !disk.late ==> Describes(disk.timing, disk.files[p], r.value.1, r.value.0)
    ensures Calm(disk.trail, p, |old(disk.trail)| - 1) ==>
      && loaded == LoadOf(old(disk.files)[p])
      && (r.Ok? ==> StampedAs(old(disk.files)[p], r.value.1))
  {
    r := Load(disk, p);
    loaded := match r case Ok(found) => Ok(found.0) case Err(e) => Err(e);
    cache.TruthfulOnward(disk.timing, disk.trail, |old(disk.trail)| - 1, old(disk.late), disk.late);
  }

  // ---------------------------------------------------------------- publishing

  /** Publish persisted bytes: nothing without a confirmed stamp, otherwise an entry that serves the next read. */
  method PublishPersisted(
    cache: SnapshotCache, disk: Device, p: PathId, bytes: Bytes, stamp: Option<FileStamp>, ghost at: nat)
    requires cache.Valid() && disk.Valid() && p in disk.files && cache.Truthful(disk) && IsText(bytes)
    requires Adoptable(disk, p, bytes, stamp) && HeldAt(disk.trail, p, at, bytes)
    requires Calm(disk.trail, p, at) ==> StillStamped(disk, p, stamp)
    modifies cache`shards
    ensures cache.Valid() && cache.Truthful(disk)
    ensures Calm(disk.trail, p, at) ==> Installed(cache, disk, p, bytes)
  {
    if Calm(disk.trail, p, at) {
      CalmAt(disk.trail, p, at, |disk.trail| - 1);
    }
    cache.Publish(disk, p, bytes, stamp);
  }

  /** Write over what is wanted and publish. */
  method ReplaceAndPublish(
    cache: SnapshotCache, disk: Device, p: PathId, bytes: Bytes, wanted: Option<ExpectedDestination>,
    ghost base: Bytes)
    returns (done: bool, ghost at: nat)
    requires cache.Valid() && disk.Valid() && p in disk.files && disk.temp == None && Sound(disk.timing)
    requires cache.Truthful(disk) && IsText(bytes)
    requires wanted.Some? ==>
      && wanted.value.contentId == cache.contentId(base)
      && (!disk.late ==> Describes(disk.timing, disk.files[p], wanted.value.stamp, base))
    modifies disk, cache`shards
    ensures cache.Valid() && disk.Valid() && disk.Onward() && disk.temp == None && cache.Truthful(disk)
    ensures done ==>
      && SwappedIn(disk, p, bytes, at)
      && (Calm(disk.trail, p, at) ==> Installed(cache, disk, p, bytes))
    ensures done && wanted.Some? ==>
      && Confirmed(disk.trail, p, wanted.value, cache.contentId, |old(disk.trail)| - 1, at)
      && (Unmistakable(cache.contentId, base) && !disk.late ==>
            ShownBetween(disk.trail, p, base, |old(disk.trail)| - 1, at))
    ensures !done ==>
      && wanted.Some? && disk.swaps == old(disk.swaps)
      && Refuted(disk.trail, p, wanted.value, cache.contentId, |old(disk.trail)| - 1)
    ensures CalmBetween(disk.trail, p, |old(disk.trail)| - 1, Until(disk.trail, at, done)) ==>
      (done <==> wanted.None? || AsWanted(old(disk.files)[p], wanted.value, cache.contentId))
    ensures |old(disk.script)| == 0 ==>
      && CalmBetween(disk.trail, p, |old(disk.trail)| - 1, Until(disk.trail, at, done))
      && (done ==> Calm(disk.trail, p, at))
  {
    ghost var start := |disk.trail| - 1;
    var written;
    written, at := AtomicWrite(disk, p, bytes, wanted, cache.contentId, base);
    assert written.Ok? ==> Adoptable(disk, p, bytes, written.value);
    cache.TruthfulOnward(disk.timing, disk.trail, start, old(disk.late), disk.late);
    done := written.Ok?;
    if done {
      PublishPersisted(cache, disk, p, bytes, written.value, at);
    }
  }

  /**
   * Persist what was decided on what was loaded since `from`. If nobody interferes before the rename, the guard
   * finds what was loaded, and the bytes are put in place.
   */
  method CarryOut(
    cache: SnapshotCache, disk: Device, p: PathId, bytes: Bytes, wanted: Option<ExpectedDestination>,
    ghost from: nat, ghost loaded: Result<Bytes, LoadError>)
    returns (done: bool, ghost how: Account)
    requires cache.Valid() && disk.Valid() && p in disk.files && disk.temp == None && Sound(disk.timing)
    requires cache.Truthful(disk) && IsText(bytes) && from < |disk.trail|
    requires Seen(disk.trail, p, loaded, from, |disk.trail|, disk.late)
    requires FoundCalmly(disk.trail, p, from, Account(loaded, |disk.trail| - 1, wanted, 0))
    requires wanted.Some? ==>
      && loaded.Ok? && wanted.value.contentId == cache.contentId(loaded.value)
      && (!disk.late ==> Describes(disk.timing, disk.files[p], wanted.value.stamp, loaded.value))
    modifies disk, cache`shards
    ensures cache.Valid() && disk.Valid() && disk.Onward() && disk.temp == None && cache.Truthful(disk)
    ensures how.loaded == loaded && how.since == |old(disk.trail)| - 1 < |disk.trail| && how.wanted == wanted
    ensures Seen(disk.trail, p, loaded, from, how.since + 1, disk.late)
    ensures done ==>
      && how.since < how.at && SwappedIn(disk, p, bytes, how.at)
      && (wanted.Some? ==> Guarded(disk.trail, p, cache.contentId, how, disk.late))
      && (Calm(disk.trail, p, how.at) ==> Installed(cache, disk, p, bytes))
    ensures !done ==> disk.swaps == old(disk.swaps) && GuardFailed(disk.trail, p, cache.contentId, how)
    ensures CalmBetween(disk.trail, p, from, Until(disk.trail, how.at, done)) ==>
      && done && p in old(disk.trail)[from] && loaded == LoadOf(old(disk.trail)[from][p])
    ensures |old(disk.script)| == 0 && from == |old(disk.trail)| - 1 ==>
      && CalmBetween(disk.trail, p, from, Until(disk.trail, how.at, done))
      && (done ==> Calm(disk.trail, p, how.at))
  {
    ghost var soFar: Trail, late := disk.trail, disk.late;
    ghost var at;
    done, at := ReplaceAndPublish(cache, disk, p, bytes, wanted, if loaded.Ok? then loaded.value else []);
    how := Account(loaded, |soFar| - 1, wanted, at);
    CallTraced(soFar, disk.trail, p, from, how, Until(disk.trail, at, done), late, disk.late, cache.contentId);
  }

  // ---------------------------------------------------------------- the edit tool

  /** The engine on a snapshot of the loaded bytes. */
  method ApplyTo(base: Bytes, contentId: Bytes -> SnapshotId, request: EditRequest)
    returns (r: Result<Bytes, ProtocolError>)
    requires IsText(base)
    ensures r == VersionedEdits(base, contentId(base), request)
  {
    var snapshot := new Snapshot.FromValidated(base, contentId);
    r := ApplyEditsFast(snapshot, request);
  }

  /** An edit of a missing file: it must name the empty content. */
  method ApplyToMissing(contentId: Bytes -> SnapshotId, request: EditRequest) returns (r: Result<Bytes, ProtocolError>)
    requires ValidateRequest(request).Ok?
    ensures r == VersionedEdits([], contentId([]), request)
  {
    if request.snapshot != contentId([]) {
      assert LineCount([]) == 1;
      return Err(ConflictError(request.filePath, request.snapshot, contentId([]), [], 1));
    }
    r := ApplyVersionedReferenceEdits([], contentId([]), request);
  }

  /** Load and decide, before anything is written. */
  method PlanEdit(cache: SnapshotCache, disk: Device, p: PathId, request: EditRequest)
    returns (r: Result<(Bytes, Option<ExpectedDestination>), ToolError>, ghost loaded: Result<Bytes, LoadError>)
    requires cache.Valid() && disk.Valid() && p in disk.files && disk.temp == None && Sound(disk.timing)
    requires cache.Truthful(disk)
    modifies disk
    ensures cache.Valid() && disk.Valid() && disk.Undisturbed() && disk.temp == None && cache.Truthful(disk)
    ensures Seen(disk.trail, p, loaded, |old(disk.trail)| - 1, |disk.trail|, disk.late)
    ensures r.Err? ==> EditOutcome(cache.contentId, loaded, request) == Err(r.error)
    ensures r.Ok? ==> EditOutcome(cache.contentId, loaded, request) == Ok(r.value.0) && IsText(r.value.0)
    ensures r.Ok? ==> (loaded.Ok? <==> r.value.1.Some?)
    ensures r.Ok? && loaded.Ok? ==>
      && r.value.1.value.contentId == request.snapshot == cache.contentId(loaded.value)
      && (!disk.late ==> Describes(disk.timing, disk.files[p], r.value.1.value.stamp, loaded.value))
    ensures Calm(disk.trail, p, |old(disk.trail)| - 1) ==>
      && loaded == LoadOf(old(disk.files)[p])
      && (r.Ok? && loaded.Ok? ==> StampedAs(old(disk.files)[p], r.value.1.value.stamp))
  {
    var valid := ValidateRequest(request);
    if valid.Err? {
      loaded := LoadOf(disk.files[p]);
      return Err(Rejected(Contract(valid.error))), loaded;
    }
    var found;
    found, loaded := LoadForTool(cache, disk, p);
    EditSucceedsExactly(cache.contentId, loaded, request);
    match found {
      case Ok((base, stamp)) =>
        var applied := ApplyTo(base, cache.contentId, request);
        if applied.Err? {
          return Err(Rejected(applied.error)), loaded;
        }
        return Ok((applied.value, Some(ExpectedDestination(stamp, cache.contentId(base))))), loaded;
      case Err(Missing) =>
        var applied := ApplyToMissing(cache.contentId, request);
        if applied.Err? {
          return Err(Rejected(applied.error)), loaded;
        }
        return Ok((applied.value, None)), loaded;
      case Err(e) => return Err(Unreadable(e)), loaded;
    }
  }

  /** The response for persisted bytes. */
  method Respond(request: EditRequest, previous: SnapshotId, bytes: Bytes, contentId: Bytes -> SnapshotId)
    returns (r: EditSuccess)
    requires IsText(bytes)
    ensures r == EditSuccess(request.filePath, previous, |request.edits|, Publish(contentId, bytes))
  {
    var published := new Snapshot.FromValidated(bytes, contentId);
    return EditSuccess(request.filePath, previous, |request.edits|,
      Published(published.id, published.byteLen, published.lineCount));
  }

  /**
   * The edit tool. It answers as decided on what it saw the path hold, or hold not, during the call. On success
   * the server changed the path once, from there to exactly the decided bytes; an edit of an existing file found
   * its base again after loading. On error the server changed no path. If nobody interferes before the rename,
   * it succeeds exactly when the request names what the path holds and is legal on it.
   */
  method EditFile(cache: SnapshotCache, disk: Device, p: PathId, request: EditRequest)
    returns (r: Result<EditSuccess, ToolError>, ghost how: Account)
    requires cache.Valid() && disk.Valid() && p in disk.files && disk.temp == None && Sound(disk.timing)
    requires cache.Truthful(disk)
    modifies disk, cache`shards
    ensures cache.Valid() && disk.Valid() && disk.Onward() && disk.temp == None && cache.Truthful(disk)
    ensures |old(disk.trail)| - 1 <= how.since < |disk.trail|
    ensures Seen(disk.trail, p, how.loaded, |old(disk.trail)| - 1, how.since + 1, disk.late)
    ensures r.Ok? ==>
      var output := EditOutcome(cache.contentId, how.loaded, request);
      && output.Ok? && how.since < how.at && SwappedIn(disk, p, output.value, how.at)
      && (how.loaded.Ok? ==> Guarded(disk.trail, p, cache.contentId, how, disk.late))
      && r.value == EditSuccess(
           request.filePath, request.snapshot, |request.edits|, Publish(cache.contentId, output.value))
      && (Calm(disk.trail, p, how.at) ==> Installed(cache, disk, p, output.value))
    ensures r.Err? ==>
      && disk.swaps == old(disk.swaps)
      && (EditOutcome(cache.contentId, how.loaded, request) == Err(r.error) ||
          (EditOutcome(cache.contentId, how.loaded, request).Ok? && r.error == Changed &&
           GuardFailed(disk.trail, p, cache.contentId, how)))
    ensures CalmBetween(disk.trail, p, |old(disk.trail)| - 1, Until(disk.trail, how.at, r.Ok?)) ==>
      && how.loaded == LoadOf(old(disk.files)[p])
      && match EditOutcome(cache.contentId, how.loaded, request)
         case Ok(_) => r.Ok?
         case Err(e) => r == Err(e)
    ensures |old(disk.script)| == 0 ==>
      && CalmBetween(disk.trail, p, |old(disk.trail)| - 1, Until(disk.trail, how.at, r.Ok?))
      && (r.Ok? ==> Calm(disk.trail, p, how.at))
  {
    ghost var start := |disk.trail| - 1;
    var plan, loaded := PlanEdit(cache, disk, p, request);
    if plan.Err? {
      how := Account(loaded, |disk.trail| - 1, None, 0);
      CalmNow(disk.timing, disk.trail, p);
      return Err(plan.error), how;
    }
    ghost var soFar: Trail := disk.trail;
    var (bytes, wanted) := plan.value;
    var done;
    assert |old(disk.script)| == 0 ==> start == |soFar| - 1;
    done, how := CarryOut(cache, disk, p, bytes, wanted, start, loaded);
    PrefixOn(old(disk.trail), soFar, disk.trail);
    if !done {
      return Err(Changed), how;
    }
    EditSucceedsExactly(cache.contentId, loaded, request);
    var response := Respond(
      request, if wanted.Some? then wanted.value.contentId else cache.contentId([]), bytes, cache.contentId);
    return Ok(response), how;
  }

  // ---------------------------------------------------------------- the write tool

  /** Load and decide. Nothing to guard means that the path is to be created. */
  method PlanWrite(cache: SnapshotCache, disk: Device, p: PathId, request: WriteRequest)
    returns (r: Result<Option<ExpectedDestination>, ToolError>, ghost loaded: Result<Bytes, LoadError>)
    requires cache.Valid() && disk.Valid() && p in disk.files && disk.temp == None && Sound(disk.timing)
    requires cache.Truthful(disk)
    modifies disk
    ensures cache.Valid() && disk.Valid() && disk.Undisturbed() && disk.temp == None && cache.Truthful(disk)
    ensures Seen(disk.trail, p, loaded, |old(disk.trail)| - 1, |disk.trail|, disk.late)
    ensures r.Err? ==> WriteOutcome(cache.contentId, loaded, request) == Err(r.error)
    ensures r.Ok? ==> WriteOutcome(cache.contentId, loaded, request) == Ok(r.value.None?)
    ensures r.Ok? && r.value.Some? ==>
      && loaded.Ok? && r.value.value.contentId == cache.contentId(loaded.value)
      && (!disk.late ==> Describes(disk.timing, disk.files[p], r.value.value.stamp, loaded.value))
    ensures Calm(disk.trail, p, |old(disk.trail)| - 1) ==>
      && loaded == LoadOf(old(disk.files)[p])
      && (r.Ok? && r.value.Some? ==> StampedAs(old(disk.files)[p], r.value.value.stamp))
  {
    var valid := ValidateWriteRequest(request);
    if valid.Err? {
      loaded := LoadOf(disk.files[p]);
      return Err(Rejected(Contract(valid.error))), loaded;
    }
    var found;
    found, loaded := LoadForTool(cache, disk, p);
    WriteSucceedsExactly(cache.contentId, loaded, request);
    if found.Err? && found.error != Missing {
      return Err(Unreadable(found.error)), loaded;
    }
    var current := if found.Ok? then Some((found.value.0, cache.contentId(found.value.0))) else None;
    var decided := ReferenceWrite(current, request);
    match decided {
      case Err(e) => return Err(Rejected(e)), loaded;
      case Ok(created) =>
        if created {
          return Ok(None), loaded;
        }
        return Ok(Some(ExpectedDestination(found.value.1, cache.contentId(found.value.0)))), loaded;
    }
  }

  /** After a lost race: load what is there now and decide on it. */
  method LoseCreateRace(cache: SnapshotCache, disk: Device, p: PathId, request: WriteRequest)
    returns (e: ToolError, ghost found: Result<Bytes, LoadError>)
    requires cache.Valid() && disk.Valid() && p in disk.files && disk.temp == None && Sound(disk.timing)
    requires cache.Truthful(disk)
    modifies disk
    ensures cache.Valid() && disk.Valid() && disk.Undisturbed() && disk.temp == None && cache.Truthful(disk)
    ensures Seen(disk.trail, p, found, |old(disk.trail)| - 1, |disk.trail|, disk.late)
    ensures e == RaceReport(cache.contentId, found, request)
    ensures Calm(disk.trail, p, |old(disk.trail)| - 1) ==> found == LoadOf(old(disk.files)[p])
  {
    var loaded;
    loaded, found := LoadForTool(cache, disk, p);
    match loaded {
      case Ok((winner, _)) =>
        match ReferenceWrite(Some((winner, cache.contentId(winner))), request) {
          case Ok(_) => return ToolError.Resolved, found;
          case Err(error) => return Rejected(error), found;
        }
      case Err(Missing) => return ToolError.Vanished, found;
      case Err(error) => return Unreadable(error), found;
    }
  }

  /** The path was occupied at instant `at`, and the answer reports what was found there from then on. */
  ghost predicate LostRace(
    trail: Trail, p: PathId, contentId: Bytes -> SnapshotId, request: WriteRequest, error: ToolError, at: nat,
    found: Result<Bytes, LoadError>, late: bool)
  {
    && at < |trail| && p in trail[at] && trail[at][p].View().Some?
    && error == RaceReport(contentId, found, request)
    && Seen(trail, p, found, at, |trail|, late)
    && (Calm(trail, p, at) ==> found == LoadOf(trail[at][p]))
  }

  /** The path is occupied: report what is found there. */
  method ReportLostRace(cache: SnapshotCache, disk: Device, p: PathId, request: WriteRequest, ghost from: nat)
    returns (e: ToolError, ghost found: Result<Bytes, LoadError>)
    requires cache.Valid() && disk.Valid() && p in disk.files && disk.temp == None && Sound(disk.timing)
    requires cache.Truthful(disk) && disk.files[p].View().Some? && from < |disk.trail|
    modifies disk
    ensures cache.Valid() && disk.Valid() && disk.Undisturbed() && disk.temp == None && cache.Truthful(disk)
    ensures LostRace(disk.trail, p, cache.contentId, request, e, |old(disk.trail)| - 1, found, disk.late)
    ensures Calm(disk.trail, p, from) ==>
      Calm(old(disk.trail), p, from)
  {
    ghost var atLink: Trail := disk.trail;
    e, found := LoseCreateRace(cache, disk, p, request);
    assert disk.trail[|atLink| - 1] == atLink[|atLink| - 1];
    if Calm(disk.trail, p, from) {
      CalmWithin(disk.trail, p, from, |atLink| - 1, |disk.trail|);
      CalmBefore(atLink, disk.trail, p, from);
      CalmBefore(atLink, atLink, p, from);
    }
  }

  /** Link a new file to the path and publish it. */
  method PutNewAndPublish(cache: SnapshotCache, disk: Device, p: PathId, bytes: Bytes)
    returns (done: bool, ghost at: nat)
    requires cache.Valid() && disk.Valid() && p in disk.files && disk.temp == None && Sound(disk.timing)
    requires cache.Truthful(disk) && IsText(bytes)
    modifies disk, cache`shards
    ensures cache.Valid() && disk.Valid() && disk.Onward() && disk.temp == None && cache.Truthful(disk)
    ensures done ==>
      && SwappedIn(disk, p, bytes, at) && MissingBefore(disk.trail, p, at)
      && (Calm(disk.trail, p, at) ==> Installed(cache, disk, p, bytes))
    ensures !done ==> disk.swaps == old(disk.swaps) && disk.files[p].View().Some?
    ensures CalmBetween(disk.trail, p, |old(disk.trail)| - 1, Until(disk.trail, at, done)) ==>
      (done <==> old(disk.files)[p].path == None)
    ensures |old(disk.script)| == 0 ==>
      && CalmBetween(disk.trail, p, |old(disk.trail)| - 1, Until(disk.trail, at, done))
      && (done ==> Calm(disk.trail, p, at))
  {
    ghost var start := |disk.trail| - 1;
    var written;
    written, at := AtomicCreate(disk, p, bytes);
    assert written.Ok? ==> Adoptable(disk, p, bytes, written.value);
    cache.TruthfulOnward(disk.timing, disk.trail, start, old(disk.late), disk.late);
    done := written.Ok?;
    if done {
      PublishPersisted(cache, disk, p, bytes, written.value, at);
    }
  }

  /** Create the path and publish, or report what is there instead. */
  method CreateAndPublish(cache: SnapshotCache, disk: Device, p: PathId, request: WriteRequest)
    returns (r: Result<(), ToolError>, ghost at: nat, ghost found: Result<Bytes, LoadError>)
    requires cache.Valid() && disk.Valid() && p in disk.files && disk.temp == None && Sound(disk.timing)
    requires cache.Truthful(disk) && IsText(request.content)
    modifies disk, cache`shards
    ensures cache.Valid() && disk.Valid() && disk.Onward() && disk.temp == None && cache.Truthful(disk)
    ensures |old(disk.trail)| - 1 <= at
    ensures r.Ok? ==>
      && SwappedIn(disk, p, request.content, at) && MissingBefore(disk.trail, p, at)
      && (Calm(disk.trail, p, at) ==> Installed(cache, disk, p, request.content))
    ensures r.Err? ==>
      && disk.swaps == old(disk.swaps)
      && LostRace(disk.trail, p, cache.contentId, request, r.error, at, found, disk.late)
    ensures CalmBetween(disk.trail, p, |old(disk.trail)| - 1, Until(disk.trail, at, r.Ok?)) ==>
      (r.Ok? <==> old(disk.files)[p].path == None)
    ensures |old(disk.script)| == 0 ==>
      && CalmBetween(disk.trail, p, |old(disk.trail)| - 1, Until(disk.trail, at, r.Ok?))
      && (r.Ok? ==> Calm(disk.trail, p, at))
  {
    ghost var start := |disk.trail| - 1;
    var done;
    done, at := PutNewAndPublish(cache, disk, p, request.content);
    if done {
      return Ok(()), at, Err(Missing);
    }
    ghost var atLink: Trail := disk.trail;
    var report;
    report, found := ReportLostRace(cache, disk, p, request, start);
    PrefixOn(old(disk.trail), atLink, disk.trail);
    return Err(report), |atLink| - 1, found;
  }

  /** Create a path that was missing. If nobody interferes before the link, it still is. */
  method CarryOutCreate(
    cache: SnapshotCache, disk: Device, p: PathId, request: WriteRequest, ghost from: nat)
    returns (r: Result<(), ToolError>, ghost how: Account, ghost found: Result<Bytes, LoadError>)
    requires cache.Valid() && disk.Valid() && p in disk.files && disk.temp == None && Sound(disk.timing)
    requires cache.Truthful(disk) && IsText(request.content) && from < |disk.trail|
    requires Seen(disk.trail, p, Err(Missing), from, |disk.trail|, disk.late)
    requires FoundCalmly(disk.trail, p, from, Account(Err(Missing), |disk.trail| - 1, None, 0))
    modifies disk, cache`shards
    ensures cache.Valid() && disk.Valid() && disk.Onward() && disk.temp == None && cache.Truthful(disk)
    ensures how.loaded == Err(Missing) && how.since == |old(disk.trail)| - 1 < |disk.trail| && how.since <= how.at
    ensures Seen(disk.trail, p, how.loaded, from, how.since + 1, disk.late)
    ensures r.Ok? ==>
      && how.since < how.at && SwappedIn(disk, p, request.content, how.at) && MissingBefore(disk.trail, p, how.at)
      && (Calm(disk.trail, p, how.at) ==> Installed(cache, disk, p, request.content))
    ensures r.Err? ==>
      && disk.swaps == old(disk.swaps)
      && LostRace(disk.trail, p, cache.contentId, request, r.error, how.at, found, disk.late)
    ensures CalmBetween(disk.trail, p, from, Until(disk.trail, how.at, r.Ok?)) ==>
      && r.Ok? && p in old(disk.trail)[from] && LoadOf(old(disk.trail)[from][p]) == Err(Missing)
    ensures |old(disk.script)| == 0 && from == |old(disk.trail)| - 1 ==>
      && CalmBetween(disk.trail, p, from, Until(disk.trail, how.at, r.Ok?))
      && (r.Ok? ==> Calm(disk.trail, p, how.at))
  {
    ghost var soFar: Trail, late := disk.trail, disk.late;
    Instant(disk.timing, disk.trail, |soFar| - 1, p);
    ghost var at;
    r, at, found := CreateAndPublish(cache, disk, p, request);
    how := Account(Err(Missing), |soFar| - 1, None, at);
    CallTraced(soFar, disk.trail, p, from, how, Until(disk.trail, at, r.Ok?), late, disk.late, cache.contentId);
  }

  method RespondToWrite(request: WriteRequest, created: bool, contentId: Bytes -> SnapshotId) returns (r: WriteSuccess)
    requires IsText(request.content)
    ensures r == WriteSuccess(request.filePath, Publish(contentId, request.content), created)
  {
    var persisted := new Snapshot.FromValidated(request.content, contentId);
    var published := Published(persisted.id, persisted.byteLen, persisted.lineCount);
    return WriteSuccess(request.filePath, published, created);
  }

  /** The write as decided: create what was missing, or replace what was loaded. */
  method CarryOutWrite(
    cache: SnapshotCache, disk: Device, p: PathId, request: WriteRequest, wanted: Option<ExpectedDestination>,
    ghost from: nat, ghost loaded: Result<Bytes, LoadError>)
    returns (r: Result<WriteSuccess, ToolError>, ghost how: Account, ghost found: Result<Bytes, LoadError>)
    requires cache.Valid() && disk.Valid() && p in disk.files && disk.temp == None && Sound(disk.timing)
    requires cache.Truthful(disk) && IsText(request.content) && from < |disk.trail|
    requires Seen(disk.trail, p, loaded, from, |disk.trail|, disk.late)
    requires FoundCalmly(disk.trail, p, from, Account(loaded, |disk.trail| - 1, wanted, 0))
    requires wanted.None? ==> loaded == Err(Missing)
    requires wanted.Some? ==>
      && loaded.Ok? && wanted.value.contentId == cache.contentId(loaded.value)
      && (!disk.late ==> Describes(disk.timing, disk.files[p], wanted.value.stamp, loaded.value))
    modifies disk, cache`shards
    ensures cache.Valid() && disk.Valid() && disk.Onward() && disk.temp == None && cache.Truthful(disk)
    ensures how.loaded == loaded && how.since == |old(disk.trail)| - 1 < |disk.trail|
    ensures Seen(disk.trail, p, how.loaded, from, how.since + 1, disk.late)
    ensures r.Ok? ==>
      && r.value == WriteSuccess(request.filePath, Publish(cache.contentId, request.content), wanted.None?)
      && how.since < how.at && SwappedIn(disk, p, request.content, how.at)
      && (if wanted.None? then MissingBefore(disk.trail, p, how.at)
          else Guarded(disk.trail, p, cache.contentId, how, disk.late))
      && (Calm(disk.trail, p, how.at) ==> Installed(cache, disk, p, request.content))
    ensures r.Err? ==>
      && disk.swaps == old(disk.swaps)
      && match wanted
         case Some(_) => r.error == Changed && GuardFailed(disk.trail, p, cache.contentId, how)
         case None =>
           how.since <= how.at && LostRace(disk.trail, p, cache.contentId, request, r.error, how.at, found, disk.late)
    ensures CalmBetween(disk.trail, p, from, Until(disk.trail, how.at, r.Ok?)) ==>
      && r.Ok? && p in old(disk.trail)[from] && loaded == LoadOf(old(disk.trail)[from][p])
    ensures |old(disk.script)| == 0 && from == |old(disk.trail)| - 1 ==>
      && CalmBetween(disk.trail, p, from, Until(disk.trail, how.at, r.Ok?))
      && (r.Ok? ==> Calm(disk.trail, p, how.at))
  {
    if wanted.None? {
      var put;
      put, how, found := CarryOutCreate(cache, disk, p, request, from);
      if put.Err? {
        return Err(put.error), how, found;
      }
    } else {
      var done;
      done, how := CarryOut(cache, disk, p, request.content, wanted, from, loaded);
      found := loaded;
      if !done {
        return Err(Changed), how, found;
      }
    }
    var response := RespondToWrite(request, wanted.None?, cache.contentId);
    return Ok(response), how, found;
  }

  /**
   * The write tool. It creates what is missing and replaces what it names, as decided on what it saw; on success
   * the server changed the path once, to exactly the content. On error it changed no path, and a create that came
   * too late reports what it then found. If nobody interferes before the rename or link, it succeeds exactly when
   * the path is as the request expects.
   */
  method WriteFile(cache: SnapshotCache, disk: Device, p: PathId, request: WriteRequest)
    returns (r: Result<WriteSuccess, ToolError>, ghost how: Account, ghost found: Result<Bytes, LoadError>)
    requires cache.Valid() && disk.Valid() && p in disk.files && disk.temp == None && Sound(disk.timing)
    requires cache.Truthful(disk)
    modifies disk, cache`shards
    ensures cache.Valid() && disk.Valid() && disk.Onward() && disk.temp == None && cache.Truthful(disk)
    ensures |old(disk.trail)| - 1 <= how.since < |disk.trail|
    ensures Seen(disk.trail, p, how.loaded, |old(disk.trail)| - 1, how.since + 1, disk.late)
    ensures r.Ok? ==>
      && WriteOutcome(cache.contentId, how.loaded, request) == Ok(r.value.created)
      && how.since < how.at && SwappedIn(disk, p, request.content, how.at)
      && (if r.value.created then MissingBefore(disk.trail, p, how.at)
          else Guarded(disk.trail, p, cache.contentId, how, disk.late))
      && r.value == WriteSuccess(request.filePath, Publish(cache.contentId, request.content), r.value.created)
      && (Calm(disk.trail, p, how.at) ==> Installed(cache, disk, p, request.content))
    ensures r.Err? ==>
      && disk.swaps == old(disk.swaps)
      && match WriteOutcome(cache.contentId, how.loaded, request)
         case Err(e) => r.error == e
         case Ok(false) => r.error == Changed && GuardFailed(disk.trail, p, cache.contentId, how)
         case Ok(true) =>
           how.since <= how.at && LostRace(disk.trail, p, cache.contentId, request, r.error, how.at, found, disk.late)
    ensures CalmBetween(disk.trail, p, |old(disk.trail)| - 1, Until(disk.trail, how.at, r.Ok?)) ==>
      && how.loaded == LoadOf(old(disk.files)[p])
      && match WriteOutcome(cache.contentId, how.loaded, request)
         case Ok(_) => r.Ok?
         case Err(e) => r == Err(e)
    ensures |old(disk.script)| == 0 ==>
      && CalmBetween(disk.trail, p, |old(disk.trail)| - 1, Until(disk.trail, how.at, r.Ok?))
      && (r.Ok? ==> Calm(disk.trail, p, how.at))
  {
    ghost var start := |disk.trail| - 1;
    var plan, loaded := PlanWrite(cache, disk, p, request);
    if plan.Err? {
      how := Account(loaded, |disk.trail| - 1, None, 0);
      CalmNow(disk.timing, disk.trail, p);
      return Err(plan.error), how, loaded;
    }
    WriteSucceedsExactly(cache.contentId, loaded, request);
    ghost var soFar: Trail := disk.trail;
    assert |old(disk.script)| == 0 ==> start == |soFar| - 1;
    r, how, found := CarryOutWrite(cache, disk, p, request, plan.value, start, loaded);
    PrefixOn(old(disk.trail), soFar, disk.trail);
  }

  // ---------------------------------------------------------------- reading what was edited

  /** An edit with nobody interfering. */
  method EditQuietly(cache: SnapshotCache, disk: Device, p: PathId, request: EditRequest)
    returns (r: Result<EditSuccess, ToolError>)
    requires cache.Valid() && disk.Valid() && p in disk.files && disk.temp == None && Sound(disk.timing)
    requires cache.Truthful(disk) && |disk.script| == 0
    modifies disk, cache`shards
    ensures cache.Valid() && disk.Valid() && disk.Onward() && disk.temp == None && cache.Truthful(disk)
    ensures
      var output := EditOutcome(cache.contentId, LoadOf(old(disk.files)[p]), request);
      && (r.Ok? <==> output.Ok?)
      && (r.Ok? ==>
            && IsText(output.value) && Installed(cache, disk, p, output.value)
            && r.value.published.snapshot == cache.contentId(output.value))
  {
    ghost var loaded := LoadOf(disk.files[p]);
    ghost var how;
    r, how := EditFile(cache, disk, p, request);
    assert how.loaded == loaded;
    EditSucceedsExactly(cache.contentId, loaded, request);
  }

  lemma ServedText(fs: Fs, read: Result<Resident, LoadError>)
    requires ServedAs(fs, read) && fs.View().Some? && IsText(fs.View().value)
    ensures read.Ok? && Some(read.value.bytes) == fs.View()
  {
    ValidateTextDecides(fs.View().value);
  }

  /** A read with nobody interfering: what the path holds, from a valid resident if there is one. */
  method ReadQuietly(cache: SnapshotCache, disk: Device, p: PathId) returns (r: Result<Resident, LoadError>)
    requires cache.Valid() && disk.Valid() && p in disk.files && disk.temp == None && Sound(disk.timing)
    requires cache.Truthful(disk) && |disk.script| == 0
    modifies disk, cache`shards
    ensures cache.Valid() && disk.Valid()
    ensures !old(disk.late) ==> ServedAs(old(disk.files)[p], r)
    ensures r.Ok? ==> cache.GenuineHit(r.value)
    ensures ResidentHit(old(cache.Lookup(p)), old(disk.files)[p]) ==> r == Ok(old(cache.Lookup(p)).value.snapshot)
    ensures disk.temp == None && cache.Truthful(disk) && |disk.script| == 0 && p in disk.files
    ensures r.Ok? && |r.value.bytes| <= cache.capacity ==>
      && cache.Lookup(p).Some? && cache.Lookup(p).value.snapshot == r.value
      && ResidentHit(cache.Lookup(p), disk.files[p])
  {
    ghost var start := |disk.trail| - 1;
    CalmNow(disk.timing, disk.trail, p);
    r := cache.GetOrLoad(disk, p);
    CalmAt(disk.trail, p, start, |disk.trail| - 1);
    HitSameFile(cache.Lookup(p), old(disk.files)[p], disk.files[p]);
  }

  /** With nobody interfering a file is loaded once: the second read gives the very snapshot the first one left. */
  method ReadTwice(cache: SnapshotCache, disk: Device, p: PathId)
    returns (first: Result<Resident, LoadError>, second: Result<Resident, LoadError>)
    requires cache.Valid() && disk.Valid() && p in disk.files && disk.temp == None && Sound(disk.timing)
    requires cache.Truthful(disk) && |disk.script| == 0
    modifies disk, cache`shards
    ensures first.Ok? && |first.value.bytes| <= cache.capacity ==> second == first
    ensures !old(disk.late) ==> ServedAs(old(disk.files)[p], first)
  {
    first := ReadQuietly(cache, disk, p);
    second := ReadQuietly(cache, disk, p);
  }

  /**
   * Read after edit, with nobody interfering: an edit that names what the path holds succeeds, and the next read
   * gives its output, from the very entry the edit published unless that is too large for the cache.
   */
  method EditThenRead(cache: SnapshotCache, disk: Device, p: PathId, request: EditRequest)
    returns (edited: Result<EditSuccess, ToolError>, read: Result<Resident, LoadError>, ghost resident: Option<Entry>)
    requires cache.Valid() && disk.Valid() && p in disk.files && disk.temp == None && Sound(disk.timing)
    requires cache.Truthful(disk) && |disk.script| == 0
    modifies disk, cache`shards
    ensures
      var output := EditOutcome(cache.contentId, LoadOf(old(disk.files)[p]), request);
      && (edited.Ok? <==> output.Ok?)
      && (edited.Ok? && !old(disk.late) ==>
            && read.Ok? && read.value.bytes == output.value && read.value.id == edited.value.published.snapshot
            && (|output.value| <= cache.capacity ==> resident.Some? && read.value == resident.value.snapshot))
  {
    edited := EditQuietly(cache, disk, p, request);
    resident := cache.Lookup(p);
    ghost var fs := disk.files[p];
    read := ReadQuietly(cache, disk, p);
    if edited.Ok? && !old(disk.late) {
      ServedText(fs, read);
    }
  }
}
