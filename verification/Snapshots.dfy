/** Snapshots: validated text with an identity and a lazily built, compact table of line offsets. */
module Snapshots {
  import opened Numbers
  import opened Text
  import opened Batch
  import opened Protocol

  datatype OffsetKind = Four | Eight

  function KindFor(byteLen: nat): OffsetKind {
    if byteLen <= U32_MAX then Four else Eight
  }

  datatype OffsetError =
    | OffsetWidth(offset: nat, kind: OffsetKind)
    | LineCountMismatch(wanted: nat, actual: nat)

  /** Line starts in four or eight bytes each. */
  datatype LineOffsets = Narrow(narrow: seq<u32>) | Wide(wide: seq<u64>)
  {
    function Starts(): seq<nat> {
      match this
      case Narrow(offsets) => offsets
      case Wide(offsets) => offsets
    }

    function Get(index: nat): Option<nat> {
      match this
      case Narrow(offsets) => if index < |offsets| then Some(offsets[index]) else None
      case Wide(offsets) => if index < |offsets| then Some(offsets[index]) else None
    }

    function Kind(): OffsetKind {
      if Narrow? then Four else Eight
    }
  }

  ghost predicate FitsNarrow(text: Bytes) {
    forall at :: at in LineStarts(text) ==> at <= U32_MAX
  }

  /** The least line start that does not fit four bytes. */
  ghost predicate FirstTooWide(text: Bytes, at: nat) {
    && at in LineStarts(text) && at > U32_MAX
    && forall earlier :: earlier in LineStarts(text) && earlier < at ==> earlier <= U32_MAX
  }

  method BuildNarrow(text: Bytes, lineCount: nat) returns (r: Result<LineOffsets, OffsetError>)
    requires |text| <= MAX_FILE_BYTES
    ensures FitsNarrow(text) && lineCount == LineCount(text) ==>
      r.Ok? && r.value.Kind() == Four && r.value.Starts() == LineStarts(text)
    ensures FitsNarrow(text) && lineCount != LineCount(text) ==>
      r == Err(LineCountMismatch(lineCount, LineCount(text)))
    ensures !FitsNarrow(text) ==>
      exists at :: FirstTooWide(text, at) && r == Err(OffsetWidth(at, Four))
  {
    var offsets: seq<u32> := [0];
    assert text[..0] == [];
    for newline := 0 to |text|
      invariant offsets == LineStarts(text[..newline])
    {
      assert text[..newline + 1][..newline] == text[..newline];
      if text[newline] == LF {
        var start := newline + 1;
        if start > U32_MAX {
          ghost var seen := LineStarts(text[..newline]);
          assert forall earlier :: earlier in seen ==> earlier <= U32_MAX;
          LineStartsExact(text);
          LineStartsExact(text[..newline]);
          forall earlier | earlier in LineStarts(text) && earlier < start
            ensures earlier <= U32_MAX
          {
            assert IsLineStart(text, earlier);
            assert IsLineStart(text[..newline], earlier);
          }
          assert IsLineStart(text, start);
          assert FirstTooWide(text, start);
          return Err(OffsetWidth(start, Four));
        }
        offsets := offsets + [start];
      }
    }
    assert text[..|text|] == text;
    if |offsets| != lineCount {
      return Err(LineCountMismatch(lineCount, |offsets|));
    }
    return Ok(Narrow(offsets));
  }

  method BuildWide(text: Bytes, lineCount: nat) returns (r: Result<LineOffsets, OffsetError>)
    requires |text| <= MAX_FILE_BYTES
    ensures lineCount == LineCount(text) ==>
      r.Ok? && r.value.Kind() == Eight && r.value.Starts() == LineStarts(text)
    ensures lineCount != LineCount(text) ==> r == Err(LineCountMismatch(lineCount, LineCount(text)))
  {
    var offsets: seq<u64> := [0];
    assert text[..0] == [];
    for newline := 0 to |text|
      invariant offsets == LineStarts(text[..newline])
    {
      assert text[..newline + 1][..newline] == text[..newline];
      if text[newline] == LF {
        offsets := offsets + [newline + 1];
      }
    }
    assert text[..|text|] == text;
    if |offsets| != lineCount {
      return Err(LineCountMismatch(lineCount, |offsets|));
    }
    return Ok(Wide(offsets));
  }

  method BuildOffsets(text: Bytes, lineCount: nat, byteLen: nat) returns (r: Result<LineOffsets, OffsetError>)
    requires |text| <= MAX_FILE_BYTES
    ensures lineCount == LineCount(text) && byteLen == |text| ==>
      r.Ok? && r.value.Kind() == KindFor(byteLen) && r.value.Starts() == LineStarts(text)
  {
    if KindFor(byteLen) == Four {
      r := BuildNarrow(text, lineCount);
      ShortTextFits(text);
    } else {
      r := BuildWide(text, lineCount);
    }
  }

  /** Text of at most `u32::MAX` bytes has no line start that overflows four bytes. */
  lemma ShortTextFits(text: Bytes)
    ensures |text| <= U32_MAX ==> FitsNarrow(text)
  {
    LineStartsExact(text);
  }

  /** Offsets take four bytes exactly when those of every text as long as this one fit. */
  lemma KindExactly(byteLen: nat)
    ensures KindFor(byteLen) == Four <==> forall text :: |text| == byteLen ==> FitsNarrow(text)
  {
    forall text | |text| == byteLen && byteLen <= U32_MAX
      ensures FitsNarrow(text)
    {
      ShortTextFits(text);
    }
    if byteLen > U32_MAX {
      var text: Bytes := seq(byteLen, i => LF);
      assert IsLineStart(text, U32_MAX + 1);
      LineStartsExact(text);
      assert !FitsNarrow(text);
    }
  }

  /** Immutable validated bytes and identity; the offset table is filled on first use. */
  class Snapshot {
    const text: Bytes
    const id: SnapshotId
    const byteLen: nat
    const lineCount: nat
    var offsets: Option<Result<LineOffsets, OffsetError>>

    ghost predicate Valid()
      reads this
    {
      && IsText(text)
      && byteLen == |text|
      && lineCount == LineCount(text)
      && (offsets.Some? ==>
            && offsets.value.Ok?
            && offsets.value.value.Starts() == LineStarts(text)
            && offsets.value.value.Kind() == KindFor(byteLen))
    }

    constructor FromValidated(text: Bytes, contentId: Bytes -> SnapshotId)
      requires IsText(text)
      ensures Valid() && this.text == text && id == contentId(text) && offsets == None
    {
      this.text := text;
      this.id := contentId(text);
      this.byteLen := |text|;
      this.lineCount := CountLf(text) + 1;
      this.offsets := None;
      LineStartsExact(text);
    }

    /** Builds the table once; neither of its two errors is reachable from a constructed snapshot. */
    method Offsets() returns (table: LineOffsets)
      requires Valid()
      modifies this`offsets
      ensures Valid() && offsets == Some(Ok(table))
      ensures old(offsets).Some? ==> offsets == old(offsets)
      ensures table.Starts() == LineStarts(text) && table.Kind() == KindFor(byteLen)
    {
      if offsets.None? {
        var built := BuildOffsets(text, lineCount, byteLen);
        offsets := Some(built);
      }
      table := offsets.value.value;
    }

    method LineStart(line: nat) returns (start: Option<nat>)
      requires Valid()
      modifies this`offsets
      ensures Valid()
      ensures start == if 1 <= line <= LineCount(text) then Some(LineStarts(text)[line - 1]) else None
    {
      if line == 0 {
        return None;
      }
      var table := Offsets();
      assert |table.Starts()| == LineCount(text);
      start := table.Get(line - 1);
    }

    /** Agrees with the reference rule on every position, errors included. */
    method OrdinalOf(position: Position) returns (r: Result<nat, ContractError>)
      requires Valid()
      modifies this`offsets
      ensures Valid()
      ensures r == BoundaryOrdinal(text, position)
    {
      LineStartsExact(text);
      CountLfBound(text);
      var table := Offsets();
      assert |table.Starts()| == LineCount(text);
      if position.line <= lineCount {
        if table.Get(position.line - 1) == Some(position.byte) {
          return Ok(position.line - 1);
        }
      } else if CheckedAdd(lineCount, 1) == Some(position.line) && position.byte == byteLen {
        return Ok(lineCount);
      }
      return Err(InvalidPosition(position));
    }

    /** The exact bytes between two boundaries. */
    method Slice(start: Position, end: Position) returns (r: Result<Bytes, ContractError>)
      requires Valid()
      modifies this`offsets
      ensures Valid()
      ensures match (BoundaryOrdinal(text, start), BoundaryOrdinal(text, end))
              case (Err(e), _) => r == Err(e)
              case (Ok(_), Err(e)) => r == Err(e)
              case (Ok(a), Ok(b)) =>
                if a > b then r == Err(ReversedRange(start, end))
                else start.byte <= end.byte <= |text| && r == Ok(text[start.byte..end.byte])
    {
      var startOrdinal := OrdinalOf(start);
      if startOrdinal.Err? {
        return Err(startOrdinal.error);
      }
      var endOrdinal := OrdinalOf(end);
      if endOrdinal.Err? {
        return Err(endOrdinal.error);
      }
      if startOrdinal.value > endOrdinal.value {
        return Err(ReversedRange(start, end));
      }
      BoundariesAscend(text);
      assert Boundaries(text)[startOrdinal.value] == start.byte && Boundaries(text)[endOrdinal.value] == end.byte;
      r := Ok(text[start.byte..end.byte]);
    }
  }

  /** The slices from boundary `ordinal` to the terminal boundary, one line each, joined. */
  function JoinedSlices(text: Bytes, ordinal: nat): Bytes
    requires ordinal <= LineCount(text)
    decreases LineCount(text) - ordinal
  {
    if ordinal == LineCount(text) then
      []
    else
      BoundariesAscend(text);
      text[Boundaries(text)[ordinal]..Boundaries(text)[ordinal + 1]] + JoinedSlices(text, ordinal + 1)
  }

  lemma {:induction false} SlicesCoverRest(text: Bytes, ordinal: nat)
    requires ordinal <= LineCount(text)
    ensures Boundaries(text)[ordinal] <= |text|
    ensures JoinedSlices(text, ordinal) == text[Boundaries(text)[ordinal]..]
    decreases LineCount(text) - ordinal
  {
    BoundariesAscend(text);
    LineStartsExact(text);
    if ordinal < LineCount(text) {
      SlicesCoverRest(text, ordinal + 1);
      SliceOn(text, Boundaries(text)[ordinal], Boundaries(text)[ordinal + 1]);
    }
  }

  /** Slices between consecutive boundaries cover the text without gap or overlap. */
  lemma SlicesCoverText(text: Bytes)
    ensures JoinedSlices(text, 0) == text
  {
    LineStartsExact(text);
    SlicesCoverRest(text, 0);
  }
}
