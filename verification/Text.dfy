/** Line boundaries and the strict text policy on exact bytes. */
module Text {
  import opened Numbers

  const NUL: byte := 0
  const LF: byte := 10
  const CR: byte := 13

  // ---------------------------------------------------------------- lines

  function CountLf(text: Bytes): nat {
    if |text| == 0 then 0 else CountLf(text[..|text| - 1]) + (if text[|text| - 1] == LF then 1 else 0)
  }

  /** Byte zero and the byte after every LF, in order. */
  function LineStarts(text: Bytes): seq<nat> {
    if |text| == 0 then
      [0]
    else
      var init := LineStarts(text[..|text| - 1]);
      if text[|text| - 1] == LF then init + [|text|] else init
  }

  ghost predicate IsLineStart(text: Bytes, at: int) {
    at == 0 || (0 < at <= |text| && text[at - 1] == LF)
  }

  ghost predicate Ascending(xs: seq<nat>) {
    forall i, j :: 0 <= i < j < |xs| ==> xs[i] < xs[j]
  }

  /** The vector holds exactly the line starts, strictly ascending, one more than there are LFs. */
  lemma {:induction false} LineStartsExact(text: Bytes)
    ensures |LineStarts(text)| == CountLf(text) + 1
    ensures LineStarts(text)[0] == 0
    ensures Ascending(LineStarts(text))
    ensures forall at :: at in LineStarts(text) <==> IsLineStart(text, at)
  {
    if |text| == 0 {
    } else {
      var init := text[..|text| - 1];
      LineStartsExact(init);
      var starts := LineStarts(init);
      assert forall at :: at in starts ==> at <= |init|;
      forall at
        ensures at in LineStarts(text) <==> IsLineStart(text, at)
      {
        if 0 < at <= |init| {
          assert text[at - 1] == init[at - 1];
        }
        assert at in LineStarts(text) <==> at in starts || (text[|text| - 1] == LF && at == |text|);
        assert at in starts <==> IsLineStart(init, at);
      }
      assert forall i :: 0 <= i < |starts| ==> starts[i] in starts;
    }
  }

  /** Before the start with index `i` there are `i` LFs. */
  lemma {:induction false} LfsBeforeStart(text: Bytes, i: nat)
    requires i < |LineStarts(text)|
    ensures LineStarts(text)[i] <= |text| && CountLf(text[..LineStarts(text)[i]]) == i
  {
    LineStartsExact(text);
    if |text| > 0 {
      var init := text[..|text| - 1];
      LineStartsExact(init);
      if i < |LineStarts(init)| {
        LfsBeforeStart(init, i);
        assert text[..LineStarts(init)[i]] == init[..LineStarts(init)[i]];
      } else {
        assert text[..|text|] == text;
      }
    }
  }

  /** The slow loop of the reference model builds exactly that vector. */
  method ReferenceLineStarts(text: Bytes) returns (starts: seq<nat>)
    ensures starts == LineStarts(text)
  {
    starts := [0];
    assert text[..0] == [];
    for index := 0 to |text|
      invariant starts == LineStarts(text[..index])
    {
      assert text[..index + 1][..index] == text[..index];
      if text[index] == LF {
        starts := starts + [index + 1];
      }
    }
    assert text[..|text|] == text;
  }

  lemma {:induction false} CountLfConcat(a: Bytes, b: Bytes)
    ensures CountLf(a + b) == CountLf(a) + CountLf(b)
    decreases |b|
  {
    if |b| == 0 {
      assert a + b == a;
    } else {
      var init := b[..|b| - 1];
      assert (a + b)[..|a + b| - 1] == a + init;
      CountLfConcat(a, init);
    }
  }

  /** A suffix splits at any later place. */
  lemma SliceOn(text: Bytes, start: nat, middle: nat)
    requires start <= middle <= |text|
    ensures text[start..] == text[start..middle] + text[middle..]
  {
  }

  lemma {:induction false} CountLfBound(text: Bytes)
    ensures CountLf(text) <= |text|
  {
    if |text| != 0 {
      CountLfBound(text[..|text| - 1]);
    }
  }

  // ---------------------------------------------------------------- UTF-8

  predicate InRange(b: byte, lo: byte, hi: byte) {
    lo <= b <= hi
  }

  predicate Tail(s: Bytes, i: nat) {
    i < |s| && InRange(s[i], 0x80, 0xBF)
  }

  /** Length of the well-formed character that starts `s`, or 0: the grammar of section 4 of RFC 3629. */
  function CharLength(s: Bytes): (n: nat)
    ensures n <= 4 && n <= |s|
    ensures |s| > 0 && s[0] < 0x80 ==> n == 1
    ensures forall i :: 0 < i < n ==> s[i] >= 0x80
    ensures n > 1 ==> s[0] >= 0x80
  {
    if |s| == 0 then 0
    else if s[0] <= 0x7F then 1
    else if InRange(s[0], 0xC2, 0xDF) && Tail(s, 1) then 2
    else if s[0] == 0xE0 && |s| > 1 && InRange(s[1], 0xA0, 0xBF) && Tail(s, 2) then 3
    else if InRange(s[0], 0xE1, 0xEC) && Tail(s, 1) && Tail(s, 2) then 3
    else if s[0] == 0xED && |s| > 1 && InRange(s[1], 0x80, 0x9F) && Tail(s, 2) then 3
    else if InRange(s[0], 0xEE, 0xEF) && Tail(s, 1) && Tail(s, 2) then 3
    else if s[0] == 0xF0 && |s| > 1 && InRange(s[1], 0x90, 0xBF) && Tail(s, 2) && Tail(s, 3) then 4
    else if InRange(s[0], 0xF1, 0xF3) && Tail(s, 1) && Tail(s, 2) && Tail(s, 3) then 4
    else if s[0] == 0xF4 && |s| > 1 && InRange(s[1], 0x80, 0x8F) && Tail(s, 2) && Tail(s, 3) then 4
    else 0
  }

  /** Length of the longest prefix made of complete well-formed characters. */
  function ValidUpTo(s: Bytes): (n: nat)
    ensures n <= |s|
  {
    var n := CharLength(s);
    if n == 0 then 0 else n + ValidUpTo(s[n..])
  }

  predicate ValidUtf8(s: Bytes) {
    ValidUpTo(s) == |s|
  }

  predicate NulFree(s: Bytes) {
    NUL !in s
  }

  /** A character is decided by its own bytes: what follows it does not matter. */
  lemma CharLengthLocal(s: Bytes, rest: Bytes)
    requires CharLength(s) > 0
    ensures CharLength(s + rest) == CharLength(s)
  {
    assert forall i :: 0 <= i < |s| ==> (s + rest)[i] == s[i];
  }

  lemma {:induction false} Utf8Concat(a: Bytes, b: Bytes)
    requires ValidUtf8(a) && ValidUtf8(b)
    ensures ValidUtf8(a + b)
  {
    if |a| == 0 {
      assert a + b == b;
    } else {
      var n := CharLength(a);
      CharLengthLocal(a, b);
      assert (a + b)[n..] == a[n..] + b;
      Utf8Concat(a[n..], b);
    }
  }

  lemma FirstCharBeforeLine(s: Bytes, at: nat)
    requires 0 < at <= |s| && CharLength(s) > 0
    requires s[at - 1] == LF || at == |s|
    ensures CharLength(s) <= at
  {
  }

  lemma TakeDrop(s: Bytes, n: nat, at: nat)
    requires n <= at <= |s|
    ensures s[n..][at - n..] == s[at..]
    ensures s[..at] == s[..n] + s[n..][..at - n]
  {
  }

  /** LF is never part of a longer character, so valid text splits at every line start and at its end. */
  lemma {:induction false} Utf8SplitAtLine(s: Bytes, at: nat)
    requires ValidUtf8(s) && at <= |s|
    requires IsLineStart(s, at) || at == |s|
    ensures ValidUtf8(s[..at]) && ValidUtf8(s[at..])
  {
    if at == 0 {
      assert s[0..] == s;
    } else {
      var n := CharLength(s);
      FirstCharBeforeLine(s, at);
      var tail := s[n..];
      TakeDrop(s, n, at);
      assert at > n && at < |s| ==> tail[at - n - 1] == s[at - 1];
      Utf8SplitAtLine(tail, at - n);
      CharPrefixValid(s);
      Utf8Concat(s[..n], tail[..at - n]);
    }
  }

  lemma CharPrefixValid(s: Bytes)
    requires CharLength(s) > 0
    ensures ValidUtf8(s[..CharLength(s)])
  {
    var n := CharLength(s);
    var c := s[..n];
    assert forall i :: 0 <= i < n ==> c[i] == s[i];
    assert CharLength(c) == n;
    assert c[n..] == [];
  }
}
