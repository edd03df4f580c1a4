/** What a line shows: its content without the terminator it was written with, whatever else it holds. */
module LineDisplay {
  import opened Numbers
  import opened Text
  import opened Batch
  import opened Protocol
  import opened Paging

  /** A line as it was written, with the terminator after it. */
  datatype Line = Line(content: Bytes, crlf: bool)
  {
    function Written(): Bytes {
      content + (if crlf then [CR, LF] else [LF])
    }
  }

  /** LF-free, and without a final CR that a bare LF would turn into a CRLF. */
  predicate Proper(line: Line) {
    LF !in line.content && (!line.crlf && |line.content| > 0 ==> line.content[|line.content| - 1] != CR)
  }

  predicate AllProper(lines: seq<Line>) {
    forall i :: 0 <= i < |lines| ==> Proper(lines[i])
  }

  /** The lines one after the other, each with its terminator. */
  function Write(lines: seq<Line>): Bytes {
    if |lines| == 0 then [] else Write(lines[..|lines| - 1]) + lines[|lines| - 1].Written()
  }

  /** LF-free bytes at the end start no line. */
  lemma {:induction false} NoStartIn(text: Bytes, tail: Bytes)
    requires LF !in tail
    ensures LineStarts(text + tail) == LineStarts(text)
    decreases |tail|
  {
    if |tail| == 0 {
      assert text + tail == text;
    } else {
      var init := tail[..|tail| - 1];
      assert (text + tail)[..|text + tail| - 1] == text + init;
      NoStartIn(text, init);
    }
  }

  lemma {:induction false} StartAfterLf(text: Bytes)
    ensures LineStarts(text + [LF]) == LineStarts(text) + [|text| + 1]
  {
    assert (text + [LF])[..|text|] == text;
  }

  lemma {:induction false} StartAfterLine(text: Bytes, line: Line)
    requires Proper(line)
    ensures LineStarts(text + line.Written()) == LineStarts(text) + [|text| + |line.Written()|]
  {
    var body := if line.crlf then line.content + [CR] else line.content;
    assert text + line.Written() == text + body + [LF];
    NoStartIn(text, body);
    StartAfterLf(text + body);
  }

  /** Where line `i` starts. */
  function Offset(lines: seq<Line>, i: nat): nat
    requires i <= |lines|
  {
    |Write(lines[..i])|
  }

  lemma {:induction false} StartsWritten(lines: seq<Line>)
    requires AllProper(lines)
    ensures |LineStarts(Write(lines))| == |lines| + 1
    ensures forall i :: 0 <= i <= |lines| ==> LineStarts(Write(lines))[i] == Offset(lines, i)
  {
    var n := |lines|;
    if n == 0 {
      assert lines[..0] == [];
    } else {
      var init := lines[..n - 1];
      StartsWritten(init);
      StartAfterLine(Write(init), lines[n - 1]);
      assert lines[..n] == lines;
      forall i | 0 <= i <= n
        ensures LineStarts(Write(lines))[i] == Offset(lines, i)
      {
        if i < n {
          assert init[..i] == lines[..i];
        }
      }
    }
  }

  lemma {:induction false} WrittenPart(lines: seq<Line>, i: nat)
    requires i < |lines|
    ensures Offset(lines, i) <= Offset(lines, i + 1) == Offset(lines, i) + |lines[i].Written()| <= |Write(lines)|
    ensures Write(lines)[Offset(lines, i)..Offset(lines, i + 1)] == lines[i].Written()
  {
    var n := |lines|;
    assert lines[..i + 1][..i] == lines[..i] && lines[..n] == lines;
    if i + 1 < n {
      var init := lines[..n - 1];
      WrittenPart(init, i);
      assert init[..i] == lines[..i] && init[..i + 1] == lines[..i + 1];
      var a, b := Offset(lines, i), Offset(lines, i + 1);
      assert Write(lines)[a..b] == Write(init)[a..b];
    } else {
      var a := Offset(lines, i);
      assert Write(lines)[a..] == lines[i].Written();
    }
  }

  /** The display ends where the content does. */
  lemma {:induction false} EndsWritten(text: Bytes, start: nat, end: nat, line: Line)
    requires start <= end <= |text| && text[start..end] == line.Written() && Proper(line)
    ensures DisplayEnd(text, start, end) == start + |line.content|
  {
    var w := line.Written();
    assert text[end - 1] == text[start..end][|w| - 1] == LF;
    if |w| > 1 {
      assert text[end - 2] == text[start..end][|w| - 2];
    }
  }

  /** Between two boundaries only the one terminator at the end is left out. */
  lemma {:induction false} ShowsWritten(text: Bytes, start: nat, end: nat, line: Line)
    requires start <= end <= |text| && text[start..end] == line.Written() && Proper(line)
    ensures text[start..DisplayEnd(text, start, end)] == line.content
  {
    EndsWritten(text, start, end, line);
    assert text[start..start + |line.content|] == text[start..end][..|line.content|];
    assert line.Written()[..|line.content|] == line.content;
  }

  lemma {:induction false} ShowsUnended(text: Bytes, start: nat, tail: Bytes)
    requires start <= |text| && text[start..] == tail && LF !in tail
    ensures text[start..DisplayEnd(text, start, |text|)] == tail
  {
    if |tail| > 0 {
      assert text[|text| - 1] == tail[|tail| - 1];
    }
  }

  /** What is shown of line `i`: what was written, or the unended last line. */
  function ContentAt(lines: seq<Line>, tail: Bytes, i: nat): Bytes
    requires i <= |lines|
  {
    if i < |lines| then lines[i].content else tail
  }

  lemma {:induction false} BoundariesWritten(lines: seq<Line>, tail: Bytes)
    requires AllProper(lines) && LF !in tail
    ensures var text := Write(lines) + tail;
      && LineCount(text) == |lines| + 1
      && (forall i :: 0 <= i <= |lines| ==> Boundaries(text)[i] == Offset(lines, i))
      && Boundaries(text)[|lines| + 1] == |text|
  {
    NoStartIn(Write(lines), tail);
    StartsWritten(lines);
  }

  /** Line `i` of a text of `n` lines, given where it stands and what it shows. */
  lemma {:induction false} ContextLineIs(text: Bytes, n: nat, i: nat, start: nat, end: nat, content: Bytes)
    requires LineCount(text) == n && i < n
    requires Boundaries(text)[i] == start <= end == Boundaries(text)[i + 1] && end <= |text|
    requires text[start..DisplayEnd(text, start, end)] == content
    ensures |ContextLines(text, 1, n)| == n
    ensures ContextLines(text, 1, n)[i] == ContextLine(i + 1, start, content)
  {
    ContextLineAt(text, 1, n, i);
  }

  lemma {:induction false} PartOfText(written: Bytes, tail: Bytes, a: nat, b: nat)
    requires a <= b <= |written|
    ensures (written + tail)[a..b] == written[a..b]
    ensures (written + tail)[|written|..] == tail
  {
  }

  lemma {:induction false} LineShown(lines: seq<Line>, tail: Bytes, i: nat)
    requires AllProper(lines) && LF !in tail && i <= |lines|
    ensures var text := Write(lines) + tail;
      && LineCount(text) == |lines| + 1
      && |ContextLines(text, 1, |lines| + 1)| == |lines| + 1
      && ContextLines(text, 1, |lines| + 1)[i] == ContextLine(i + 1, Offset(lines, i), ContentAt(lines, tail, i))
  {
    var text, n, a := Write(lines) + tail, |lines|, Offset(lines, i);
    BoundariesWritten(lines, tail);
    if i < n {
      WrittenPart(lines, i);
      PartOfText(Write(lines), tail, a, Offset(lines, i + 1));
      ShowsWritten(text, a, Offset(lines, i + 1), lines[i]);
      ContextLineIs(text, n + 1, i, a, Offset(lines, i + 1), lines[i].content);
    } else {
      assert lines[..n] == lines;
      PartOfText(Write(lines), tail, 0, 0);
      ShowsUnended(text, a, tail);
      ContextLineIs(text, n + 1, i, a, |text|, tail);
    }
  }

  /**
   * Lines written with CRLF or LF, mixed at will, and an unended last line are shown exactly as they were written:
   * each with its own content and offset, bare CRs included, and nothing of a terminator.
   */
  lemma {:induction false} LinesShownAsWritten(lines: seq<Line>, tail: Bytes)
    requires AllProper(lines) && LF !in tail
    ensures var text := Write(lines) + tail;
      && LineCount(text) == |lines| + 1
      && |ContextLines(text, 1, LineCount(text))| == |lines| + 1
      && forall i :: 0 <= i <= |lines| ==>
           ContextLines(text, 1, LineCount(text))[i] == ContextLine(i + 1, Offset(lines, i), ContentAt(lines, tail, i))
  {
    var text, n := Write(lines) + tail, |lines|;
    LineShown(lines, tail, 0);
    forall i | 0 <= i <= n
      ensures ContextLines(text, 1, n + 1)[i] == ContextLine(i + 1, Offset(lines, i), ContentAt(lines, tail, i))
    {
      LineShown(lines, tail, i);
    }
  }

  lemma {:induction false} OneLineMore(lines: seq<Line>, line: Line, tail: Bytes)
    requires line.Written() == tail + [LF]
    ensures Write(lines + [line]) + [] == Write(lines) + tail + [LF]
  {
    assert (lines + [line])[..|lines|] == lines;
  }

  lemma {:induction false} EndedLine(tail: Bytes) returns (line: Line)
    requires LF !in tail
    ensures Proper(line) && line.Written() == tail + [LF]
  {
    line := if |tail| > 0 && tail[|tail| - 1] == CR then Line(tail[..|tail| - 1], true) else Line(tail, false);
  }

  /** Every text was written in such a way. */
  lemma {:induction false} EveryTextIsWritten(text: Bytes) returns (lines: seq<Line>, tail: Bytes)
    ensures AllProper(lines) && LF !in tail && text == Write(lines) + tail
    decreases |text|
  {
    if |text| == 0 {
      lines, tail := [], [];
    } else {
      var init, last := text[..|text| - 1], text[|text| - 1];
      lines, tail := EveryTextIsWritten(init);
      if last == LF {
        var line := EndedLine(tail);
        OneLineMore(lines, line, tail);
        lines, tail := lines + [line], [];
      } else {
        assert text == Write(lines) + (tail + [last]);
        tail := tail + [last];
      }
    }
  }
}
