/** The `read` request against a loaded snapshot: validation, cursor check and choice of the first line. */
module Read {
  import opened Numbers
  import opened Text
  import opened Protocol
  import opened Snapshots
  import opened Render

  datatype ReadRequest = ReadRequest(path: Str, limit: u16, cursor: Option<PageCursor>, startLine: Option<u64>)

  function ValidateReadRequest(request: ReadRequest): Result<(), ContractError> {
    if request.limit == 0 || request.limit > MAX_PAGE_LINES then Err(InvalidReadLimit(request.limit))
    else if request.startLine == Some(0) then Err(ZeroStartLine)
    else if request.startLine.Some? && request.cursor.Some? then Err(StartLineWithCursor)
    else Ok(())
  }

  /** The line a request starts at, by the reference rule for cursors. */
  function FirstLine(text: Bytes, id: SnapshotId, request: ReadRequest): Result<u64, ProtocolError> {
    match request.cursor
    case None => Ok(if request.startLine.Some? then request.startLine.value else 1)
    case Some(cursor) =>
      match ReferenceCursor(request.path, text, id, cursor)
      case Err(e) => Err(e)
      case Ok(position) => Ok(position.line)
  }

  /** The page a request gets, or its error; `path` is the request's path as JSON text. */
  function ReadOf(text: Bytes, id: SnapshotId, path: Bytes, request: ReadRequest): Result<Page, ProtocolError>
    requires IsText(text)
  {
    match ValidateReadRequest(request)
    case Err(e) => Err(Contract(e))
    case Ok(_) =>
      match FirstLine(text, id, request)
      case Err(e) => Err(e)
      case Ok(first) =>
        if first > LineCount(text) && request.cursor.Some? then
          Err(Contract(InvalidPosition(request.cursor.value.next)))
        else
          Ok(PageAt(text, id, path, first, request.limit))
  }

  /** Identity and an indexed boundary lookup first; the reference rule only to say why not. */
  method ValidateCursorOnSnapshot(snapshot: Snapshot, path: Str, cursor: PageCursor)
    returns (r: Result<u64, ProtocolError>)
    requires snapshot.Valid()
    modifies snapshot`offsets
    ensures snapshot.Valid()
    ensures r == match ReferenceCursor(path, snapshot.text, snapshot.id, cursor)
                 case Err(e) => Err(e)
                 case Ok(position) => Ok(position.line)
  {
    if cursor.snapshot == snapshot.id {
      var boundary := snapshot.OrdinalOf(cursor.next);
      if boundary.Ok? {
        return Ok(cursor.next.line);
      }
    }
    match ReferenceCursor(path, snapshot.text, snapshot.id, cursor) {
      case Err(e) => return Err(e);
      case Ok(position) => return Ok(position.line);
    }
  }

  method ReadPage(snapshot: Snapshot, path: Bytes, request: ReadRequest) returns (r: Result<Bytes, ProtocolError>)
    requires snapshot.Valid()
    modifies snapshot`offsets
    ensures snapshot.Valid()
    ensures match ReadOf(snapshot.text, snapshot.id, path, request)
            case Err(e) => r == Err(e)
            case Ok(page) => r == Ok(RenderPage(page))
  {
    var valid := ValidateReadRequest(request);
    if valid.Err? {
      return Err(Contract(valid.error));
    }
    var first: u64 := if request.startLine.Some? then request.startLine.value else 1;
    if request.cursor.Some? {
      var line := ValidateCursorOnSnapshot(snapshot, request.path, request.cursor.value);
      if line.Err? {
        return Err(line.error);
      }
      first := line.value;
    }
    if first > snapshot.lineCount {
      if request.cursor.Some? {
        return Err(Contract(InvalidPosition(request.cursor.value.next)));
      }
      HeadingBounds(snapshot.text);
      ghost var page := PageAt(snapshot.text, snapshot.id, path, first, request.limit);
      assert Rows(page) == [RenderHeading(page.heading)];
      return Ok(RenderHeading(Heading(snapshot.id, snapshot.lineCount, snapshot.byteLen, path)));
    }
    var out := RenderSnapshotPage(snapshot, path, first, request.limit);
    return Ok(out);
  }

  /** Lines `from..` with `limits[0]`, then on from the footer with `limits[1]`, until a page has none. */
  function Follow(text: Bytes, id: SnapshotId, path: Bytes, first: ReadRequest, limits: seq<u16>)
    : Result<seq<Page>, ProtocolError>
    requires IsText(text)
    decreases |limits|
  {
    match ReadOf(text, id, path, first)
    case Err(e) => Err(e)
    case Ok(page) =>
      if page.next.None? || |limits| == 0 then
        Ok([page])
      else
        match Follow(text, id, path, ReadRequest(first.path, limits[0], page.next, None), limits[1..])
        case Err(e) => Err(e)
        case Ok(rest) => Ok([page] + rest)
  }

  /** The request names line `line` as its first. */
  ghost predicate StartsAt(text: Bytes, id: SnapshotId, request: ReadRequest, line: nat)
    requires IsText(text)
  {
    && 1 <= line <= LineCount(text)
    && match request.cursor
       case None => line == if request.startLine.Some? then request.startLine.value else 1
       case Some(cursor) => request.startLine.None? && cursor == PageCursor(id, PositionOf(text, line - 1))
  }

  predicate LegalLimit(limit: u16) {
    1 <= limit <= MAX_PAGE_LINES
  }

  function Sum(limits: seq<u16>): nat {
    if |limits| == 0 then 0 else limits[0] + Sum(limits[1..])
  }

  function AllLines(pages: seq<Page>): seq<ContextLine> {
    if |pages| == 0 then [] else pages[0].lines + AllLines(pages[1..])
  }

  lemma FirstLineFound(text: Bytes, id: SnapshotId, request: ReadRequest, line: nat)
    requires IsText(text) && StartsAt(text, id, request, line)
    ensures FirstLine(text, id, request) == Ok(line)
  {
    PositionsBijective(text, At(1, 0), line - 1);
  }

  lemma {:induction false} ContextLinesJoin(text: Bytes, first: nat, middle: nat, last: nat)
    requires 1 <= first <= middle + 1 <= last + 1 && last <= LineCount(text)
    ensures ContextLines(text, first, last) ==
      ContextLines(text, first, middle) + ContextLines(text, middle + 1, last)
    decreases middle + 1 - first
  {
    if first <= middle {
      ContextLinesJoin(text, first + 1, middle, last);
    }
  }

  /**
   * A cursor is served exactly when it names this snapshot and the start of one of its lines, with the page from
   * that line on. A bad limit or a start line beside the cursor is refused first. Under another snapshot it conflicts,
   * with the identities and the header as they are; a position that starts no line is refused as such.
   */
  lemma CursorAccepted(text: Bytes, id: SnapshotId, path: Bytes, request: ReadRequest)
    requires IsText(text) && request.cursor.Some?
    ensures ReadOf(text, id, path, request).Ok? <==>
      && 1 <= request.limit <= 2000 && request.startLine.None?
      && exists line: nat :: StartsAt(text, id, request, line)
    ensures ReadOf(text, id, path, request).Ok? ==>
      ReadOf(text, id, path, request) == Ok(PageAt(text, id, path, request.cursor.value.next.line, request.limit))
    ensures
      match ReadOf(text, id, path, request)
      case Ok(_) => request.cursor.value.snapshot == id
      case Err(error) =>
        if !(1 <= request.limit <= 2000) then
          error == Contract(InvalidReadLimit(request.limit))
        else if request.startLine.Some? then
          error == Contract(if request.startLine == Some(0) then ZeroStartLine else StartLineWithCursor)
        else if request.cursor.value.snapshot != id then
          && error.SnapshotConflict? && error.requested == request.cursor.value.snapshot
          && error.header == SnapshotHeader(request.path, id, CountLf(text) + 1, |text|)
          && ReferenceContext(text, request.cursor.value.next.line) == Ok(error.context)
        else
          error == Contract(InvalidPosition(request.cursor.value.next))
  {
    var next := request.cursor.value.next;
    LineStartsExact(text);
    PositionsBijective(text, next, 0);
    if ReadOf(text, id, path, request).Ok? {
      var ordinal := BoundaryOrdinal(text, next).value;
      assert StartsAt(text, id, request, ordinal + 1);
    }
    if line: nat :| StartsAt(text, id, request, line) {
      FirstLineFound(text, id, request, line);
    }
  }

  /** Lines `first..=last` are that part of all lines. */
  lemma ContextIsPart(text: Bytes, first: nat, last: nat)
    requires 1 <= first <= last + 1 && last <= LineCount(text)
    ensures |ContextLines(text, 1, LineCount(text))| == LineCount(text)
    ensures ContextLines(text, first, last) == ContextLines(text, 1, LineCount(text))[first - 1..last]
  {
    var all := ContextLines(text, 1, LineCount(text));
    LineStartsExact(text);
    ContextLinesLength(text, 1, LineCount(text));
    ContextLinesLength(text, 1, first - 1);
    ContextLinesLength(text, first, last);
    ContextLinesJoin(text, 1, first - 1, LineCount(text));
    ContextLinesJoin(text, first, last, LineCount(text));
  }

  /**
   * The page has the header and at most `limit` of all lines from `first` on, or none beyond the end. Its footer
   * names the line after them, and is there exactly while lines remain.
   */
  ghost predicate Shows(page: Page, text: Bytes, id: SnapshotId, path: Bytes, first: nat, limit: nat)
    requires IsText(text) && first >= 1 && limit >= 1
  {
    var count, last := CountLf(text) + 1, Min(first + limit - 1, CountLf(text) + 1);
    && LineCount(text) == count == |ContextLines(text, 1, count)|
    && page.heading.snapshot == id && page.heading.path == path
    && page.heading.lines == count && page.heading.bytes == |text|
    && page.lines == (if first > count then [] else ContextLines(text, 1, count)[first - 1..last])
    && (page.next.Some? <==> last < count)
    && (page.next.Some? ==> page.next.value.snapshot == id && page.next.value.next == PositionOf(text, last))
  }

  lemma PagePart(text: Bytes, id: SnapshotId, path: Bytes, first: nat, limit: nat)
    requires IsText(text) && 1 <= first <= LineCount(text) && limit >= 1
    ensures |ContextLines(text, 1, LineCount(text))| == LineCount(text)
    ensures PageAt(text, id, path, first, limit).lines ==
      ContextLines(text, 1, LineCount(text))[first - 1..Min(first + limit - 1, LineCount(text))]
  {
    ContextIsPart(text, first, Min(first + limit - 1, LineCount(text)));
  }

  lemma PageShows(text: Bytes, id: SnapshotId, path: Bytes, first: nat, limit: nat)
    requires IsText(text) && first >= 1 && limit >= 1
    ensures Shows(PageAt(text, id, path, first, limit), text, id, path, first, limit)
  {
    LineStartsExact(text);
    ContextLinesLength(text, 1, LineCount(text));
    if first <= LineCount(text) {
      PagePart(text, id, path, first, limit);
    }
  }

  /** Without a cursor a legal request is always answered, from the line it names or from the first one on. */
  lemma StartLineAnswers(text: Bytes, id: SnapshotId, path: Bytes, request: ReadRequest)
    requires IsText(text) && request.cursor.None?
    ensures ReadOf(text, id, path, request).Ok? <==> 1 <= request.limit <= 2000 && request.startLine != Some(0)
    ensures ReadOf(text, id, path, request).Ok? ==>
      Shows(ReadOf(text, id, path, request).value, text, id, path,
        if request.startLine.Some? then request.startLine.value else 1, request.limit)
    ensures ReadOf(text, id, path, request).Err? ==>
      ReadOf(text, id, path, request).error ==
        Contract(if 1 <= request.limit <= 2000 then ZeroStartLine else InvalidReadLimit(request.limit))
  {
    if ReadOf(text, id, path, request).Ok? {
      PageShows(text, id, path, if request.startLine.Some? then request.startLine.value else 1, request.limit);
    }
  }

  /** A page and the page after it are one larger page. */
  lemma PagesJoin(text: Bytes, id: SnapshotId, path: Bytes, line: nat, limit: nat, more: nat)
    requires IsText(text) && 1 <= line && limit >= 1 && more >= 1 && line + limit - 1 < LineCount(text)
    ensures var whole, page, rest := PageAt(text, id, path, line, limit + more),
        PageAt(text, id, path, line, limit), PageAt(text, id, path, line + limit, more);
      && whole.lines == page.lines + rest.lines && whole.next == rest.next
      && page.next == Some(PageCursor(id, PositionOf(text, line + limit - 1)))
      && whole.heading == page.heading == rest.heading
  {
    ContextLinesJoin(text, line, line + limit - 1, Min(line + limit + more - 1, LineCount(text)));
  }

  lemma ServedPage(text: Bytes, id: SnapshotId, path: Bytes, request: ReadRequest, line: nat)
    requires IsText(text) && StartsAt(text, id, request, line) && LegalLimit(request.limit)
    ensures ReadOf(text, id, path, request) == Ok(PageAt(text, id, path, line, request.limit))
  {
    FirstLineFound(text, id, request, line);
  }

  predicate AllLegal(limits: seq<u16>) {
    forall i :: 0 <= i < |limits| ==> LegalLimit(limits[i])
  }

  ghost predicate AllHeaded(pages: seq<Page>, heading: Heading) {
    forall i :: 0 <= i < |pages| ==> pages[i].heading == heading
  }

  /** The pages hold the lines of `window`, end where it ends and carry its header. */
  ghost predicate Splits(pages: seq<Page>, window: Page) {
    && AllLines(pages) == window.lines
    && |pages| > 0 && pages[|pages| - 1].next == window.next
    && AllHeaded(pages, window.heading)
  }

  lemma SplitsMore(page: Page, rest: seq<Page>, window: Page, remainder: Page)
    requires Splits(rest, remainder) && window.lines == page.lines + remainder.lines
    requires window.next == remainder.next && window.heading == page.heading == remainder.heading
    ensures Splits([page] + rest, window)
  {
    assert ([page] + rest)[1..] == rest;
  }

  lemma SplitsOnce(page: Page)
    ensures Splits([page], page)
  {
    assert AllLines([page][1..]) == [];
  }

  /** The windows a chain of limits cuts the lines into. */
  function Windows(text: Bytes, id: SnapshotId, path: Bytes, line: nat, limit: nat, limits: seq<u16>): seq<Page>
    requires IsText(text)
    decreases |limits|
  {
    var page := PageAt(text, id, path, line, limit);
    if page.next.None? || |limits| == 0 then
      [page]
    else
      [page] + Windows(text, id, path, line + limit, limits[0], limits[1..])
  }

  lemma {:induction false} WindowsSplit(
    text: Bytes, id: SnapshotId, path: Bytes, line: nat, limit: nat, limits: seq<u16>)
    requires IsText(text) && line >= 1 && limit >= 1 && AllLegal(limits)
    ensures Splits(Windows(text, id, path, line, limit, limits), PageAt(text, id, path, line, limit + Sum(limits)))
    decreases |limits|
  {
    var page := PageAt(text, id, path, line, limit);
    if page.next.None? || |limits| == 0 {
      SplitsOnce(page);
    } else {
      var more := limits[0] + Sum(limits[1..]);
      PagesJoin(text, id, path, line, limit, more);
      WindowsSplit(text, id, path, line + limit, limits[0], limits[1..]);
      SplitsMore(page, Windows(text, id, path, line + limit, limits[0], limits[1..]),
        PageAt(text, id, path, line, limit + Sum(limits)), PageAt(text, id, path, line + limit, more));
    }
  }

  /** A footer leads to the line after its page. */
  lemma FooterLeads(text: Bytes, id: SnapshotId, path: Bytes, line: nat, limit: nat, next: ReadRequest)
    requires IsText(text) && line >= 1 && limit >= 1 && PageAt(text, id, path, line, limit).next.Some?
    requires next.cursor == PageAt(text, id, path, line, limit).next && next.startLine.None?
    ensures StartsAt(text, id, next, line + limit)
  {
  }

  lemma FollowsOn(
    text: Bytes, id: SnapshotId, path: Bytes, first: ReadRequest, limits: seq<u16>, page: Page, rest: seq<Page>)
    requires IsText(text) && ReadOf(text, id, path, first) == Ok(page) && page.next.Some? && |limits| > 0
    requires Follow(text, id, path, ReadRequest(first.path, limits[0], page.next, None), limits[1..]) == Ok(rest)
    ensures Follow(text, id, path, first, limits) == Ok([page] + rest)
  {
  }

  lemma WindowsOn(text: Bytes, id: SnapshotId, path: Bytes, line: nat, limit: nat, limits: seq<u16>)
    requires IsText(text) && PageAt(text, id, path, line, limit).next.Some? && |limits| > 0
    ensures Windows(text, id, path, line, limit, limits) ==
      [PageAt(text, id, path, line, limit)] + Windows(text, id, path, line + limit, limits[0], limits[1..])
  {
  }

  lemma {:induction false} FollowedWindows(
    text: Bytes, id: SnapshotId, path: Bytes, first: ReadRequest, limits: seq<u16>, line: nat)
    requires IsText(text) && StartsAt(text, id, first, line)
    requires LegalLimit(first.limit) && AllLegal(limits)
    ensures Follow(text, id, path, first, limits) == Ok(Windows(text, id, path, line, first.limit, limits))
    decreases |limits|
  {
    ServedPage(text, id, path, first, line);
    var page := PageAt(text, id, path, line, first.limit);
    if page.next.Some? && |limits| > 0 {
      var next, after := ReadRequest(first.path, limits[0], page.next, None), line + first.limit;
      FooterLeads(text, id, path, line, first.limit, next);
      FollowedWindows(text, id, path, next, limits[1..], after);
      FollowsOn(text, id, path, first, limits, page, Windows(text, id, path, after, limits[0], limits[1..]));
      WindowsOn(text, id, path, line, first.limit, limits);
    }
  }

  /**
   * Every footer leads to a page. The pages hold consecutive lines, each once and in order, exactly those
   * of one window as long as all limits together, and the last page has a footer only while lines remain.
   */
  lemma CursorChain(text: Bytes, id: SnapshotId, path: Bytes, first: ReadRequest, limits: seq<u16>, line: nat)
    requires IsText(text) && StartsAt(text, id, first, line)
    requires LegalLimit(first.limit) && AllLegal(limits)
    ensures Follow(text, id, path, first, limits).Ok?
    ensures Splits(Follow(text, id, path, first, limits).value,
                   PageAt(text, id, path, line, first.limit + Sum(limits)))
  {
    FollowedWindows(text, id, path, first, limits, line);
    WindowsSplit(text, id, path, line, first.limit, limits);
  }

  lemma {:induction false} LimitsAddUp(limits: seq<u16>)
    requires AllLegal(limits)
    ensures Sum(limits) >= |limits|
  {
    if |limits| > 0 {
      LimitsAddUp(limits[1..]);
    }
  }

  /**
   * A chain from line one on is complete, so that its last page has no footer, exactly when its limits together
   * reach the last line. A complete chain holds every line once and in order.
   */
  lemma ChainEnds(text: Bytes, id: SnapshotId, path: Bytes, first: ReadRequest, limits: seq<u16>)
    requires IsText(text) && StartsAt(text, id, first, 1)
    requires LegalLimit(first.limit) && AllLegal(limits)
    ensures Follow(text, id, path, first, limits).Ok?
    ensures var pages := Follow(text, id, path, first, limits).value;
      && |pages| > 0
      && (pages[|pages| - 1].next.None? <==> first.limit + Sum(limits) >= LineCount(text))
      && (pages[|pages| - 1].next.None? ==> AllLines(pages) == ContextLines(text, 1, LineCount(text)))
  {
    CursorChain(text, id, path, first, limits, 1);
  }

  /** As many requests as lines always make a complete chain, whatever their limits. */
  lemma EnoughRequests(text: Bytes, id: SnapshotId, path: Bytes, first: ReadRequest, limits: seq<u16>)
    requires IsText(text) && StartsAt(text, id, first, 1)
    requires LegalLimit(first.limit) && AllLegal(limits) && 1 + |limits| >= LineCount(text)
    ensures Follow(text, id, path, first, limits).Ok?
    ensures var pages := Follow(text, id, path, first, limits).value;
      |pages| > 0 && pages[|pages| - 1].next.None?
  {
    ChainEnds(text, id, path, first, limits);
    LimitsAddUp(limits);
  }
}
