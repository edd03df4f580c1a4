/** A bitmap of line starts with rank superblocks: select by superblock search, word scan and bit clearing. */
module RankSelect {
  import opened Numbers
  import opened Sequences
  import opened Text
  import opened Words

  /** The set bits of each word. */
  function OnesOf(words: seq<Word>): (r: seq<seq<nat>>)
    ensures |r| == |words| && forall i :: 0 <= i < |words| ==> r[i] == Ones(words[i])
  {
    seq(|words|, i requires 0 <= i < |words| => Ones(words[i]))
  }

  function Offset(xs: seq<nat>, delta: nat): (r: seq<nat>)
    ensures |r| == |xs| && forall i :: 0 <= i < |xs| ==> r[i] == xs[i] + delta
  {
    seq(|xs|, i requires 0 <= i < |xs| => xs[i] + delta)
  }

  /** Positions of all set bits, when the first word is word number `first`. */
  function Positions(ones: seq<seq<nat>>, first: nat): seq<nat> {
    if |ones| == 0 then [] else Offset(ones[0], 64 * first) + Positions(ones[1..], first + 1)
  }

  lemma {:induction false} PositionsConcat(a: seq<seq<nat>>, b: seq<seq<nat>>, first: nat)
    ensures Positions(a + b, first) == Positions(a, first) + Positions(b, first + |a|)
    decreases |a|
  {
    if |a| == 0 {
      assert a + b == b;
    } else {
      assert (a + b)[1..] == a[1..] + b;
      PositionsConcat(a[1..], b, first + 1);
    }
  }

  lemma {:induction false} PositionsFrom(ones: seq<seq<nat>>, first: nat)
    ensures forall x :: x in Positions(ones, first) ==> 64 * first <= x
    decreases |ones|
  {
    if |ones| != 0 {
      PositionsFrom(ones[1..], first + 1);
    }
  }

  lemma {:induction false} PositionsOfNone(ones: seq<seq<nat>>, first: nat)
    requires forall i :: 0 <= i < |ones| ==> ones[i] == []
    ensures Positions(ones, first) == []
    decreases |ones|
  {
    if |ones| != 0 {
      PositionsOfNone(ones[1..], first + 1);
    }
  }

  /** The words before `k`, word `k`, and those after it. */
  lemma PositionsAround(ones: seq<seq<nat>>, k: nat)
    requires k < |ones|
    ensures Positions(ones[..k + 1], 0) == Positions(ones[..k], 0) + Offset(ones[k], 64 * k)
    ensures Positions(ones, 0) == Positions(ones[..k + 1], 0) + Positions(ones[k + 1..], k + 1)
  {
    var word: seq<seq<nat>> := [ones[k]];
    assert ones[..k + 1] == ones[..k] + word;
    PositionsConcat(ones[..k], word, 0);
    assert |word[1..]| == 0;
    assert ones == ones[..k + 1] + ones[k + 1..];
    PositionsConcat(ones[..k + 1], ones[k + 1..], 0);
  }

  /** Appending a bit to word `k` appends a position, when nothing is set at or after it. */
  lemma AppendsPosition(ones: seq<seq<nat>>, k: nat, bit: nat)
    requires k < |ones| && bit < 64
    requires forall x :: x in Positions(ones, 0) ==> x < 64 * k + bit
    ensures Positions(ones[k := ones[k] + [bit]], 0) == Positions(ones, 0) + [64 * k + bit]
    ensures forall y :: y in ones[k] ==> y < bit
  {
    var grown := ones[k := ones[k] + [bit]];
    PositionsAround(ones, k);
    PositionsAround(grown, k);
    assert grown[..k] == ones[..k] && grown[k + 1..] == ones[k + 1..];
    var after := Positions(ones[k + 1..], k + 1);
    PositionsFrom(ones[k + 1..], k + 1);
    assert forall x :: x in after ==> x in Positions(ones, 0);
    ElementBetween(after, 64 * (k + 1), 64 * k + bit);
    assert Offset(ones[k] + [bit], 64 * k) == Offset(ones[k], 64 * k) + [64 * k + bit];
    forall y | y in ones[k]
      ensures y < bit
    {
      var i :| 0 <= i < |ones[k]| && ones[k][i] == y;
      assert Offset(ones[k], 64 * k)[i] in Positions(ones, 0);
    }
  }

  function BitOf(position: nat): bv6 {
    (position % 64) as bv6
  }

  lemma BitOfValue(position: nat)
    ensures BitOf(position) as int == position % 64
  {
  }

  function WithBit(words: seq<Word>, position: nat): seq<Word>
    requires position / 64 < |words|
  {
    words[position / 64 := SetBit(words[position / 64], BitOf(position))]
  }

  lemma OnesWithBit(words: seq<Word>, position: nat, bit: nat)
    requires position / 64 < |words| && bit == position % 64
    requires forall y :: y in Ones(words[position / 64]) ==> y < bit
    ensures OnesOf(WithBit(words, position)) ==
      OnesOf(words)[position / 64 := Ones(words[position / 64]) + [bit]]
  {
    BitOfValue(position);
    SetBitAppends(words[position / 64], BitOf(position));
  }

  /** `set` beyond every set bit appends its position to the whole bitmap. */
  lemma SetAppends(words: seq<Word>, position: nat)
    requires position / 64 < |words|
    requires forall x :: x in Positions(OnesOf(words), 0) ==> x < position
    ensures Positions(OnesOf(WithBit(words, position)), 0) == Positions(OnesOf(words), 0) + [position]
  {
    AppendsPosition(OnesOf(words), position / 64, position % 64);
    OnesWithBit(words, position, position % 64);
  }

  // ---------------------------------------------------------------- ranks

  function Rank(words: seq<Word>, count: nat): nat
    requires count <= |words|
  {
    |Positions(OnesOf(words)[..count], 0)|
  }

  lemma RankStep(words: seq<Word>, k: nat)
    requires k < |words|
    ensures Rank(words, k + 1) == Rank(words, k) + CountOnes(words[k])
  {
    PositionsAround(OnesOf(words), k);
  }

  lemma RankMonotone(words: seq<Word>, a: nat, b: nat)
    requires a <= b <= |words|
    ensures Rank(words, a) <= Rank(words, b) <= |Positions(OnesOf(words), 0)|
  {
    var ones := OnesOf(words);
    assert ones[..b] == ones[..a] + ones[a..b] && ones == ones[..b] + ones[b..];
    PositionsConcat(ones[..a], ones[a..b], 0);
    PositionsConcat(ones[..b], ones[b..], 0);
  }

  lemma RankOfAll(words: seq<Word>)
    ensures Rank(words, 0) == 0 && Rank(words, |words|) == |Positions(OnesOf(words), 0)|
  {
    assert OnesOf(words)[..|words|] == OnesOf(words);
  }

  /** One entry per eight words: the rank before the first of them. */
  ghost predicate Superblocks(words: seq<Word>, ranks: seq<nat>) {
    && |words| <= 8 * |ranks| < |words| + 8
    && forall j :: 0 <= j < |ranks| ==> 8 * j < |words| && ranks[j] == Rank(words, 8 * j)
  }

  lemma RanksAscend(words: seq<Word>, ranks: seq<nat>)
    requires Superblocks(words, ranks)
    ensures forall i, j :: 0 <= i <= j < |ranks| ==> ranks[i] <= ranks[j]
  {
    forall i, j | 0 <= i <= j < |ranks|
      ensures ranks[i] <= ranks[j]
    {
      RankMonotone(words, 8 * i, 8 * j);
    }
  }

  /** The library's partition point on an ascending vector: how many ranks are at most `line`. */
  method PartitionPoint(ranks: seq<nat>, line: nat) returns (n: nat)
    requires forall i, j :: 0 <= i <= j < |ranks| ==> ranks[i] <= ranks[j]
    ensures n <= |ranks|
    ensures forall i :: 0 <= i < n ==> ranks[i] <= line
    ensures forall i :: n <= i < |ranks| ==> line < ranks[i]
  {
    n := 0;
    var high := |ranks|;
    while n < high
      invariant n <= high <= |ranks|
      invariant forall i :: 0 <= i < n ==> ranks[i] <= line
      invariant forall i :: high <= i < |ranks| ==> line < ranks[i]
    {
      var mid := (n + high) / 2;
      if ranks[mid] <= line {
        n := mid + 1;
      } else {
        high := mid;
      }
    }
  }

  // ---------------------------------------------------------------- the bitmap

  method Set(words: array<Word>, position: nat)
    requires position / 64 < words.Length
    modifies words
    ensures words[..] == WithBit(old(words[..]), position)
  {
    var word, bit := position / 64, BitOf(position);
    words[word] := SetBit(words[word], bit);
  }

  /** The marked positions of a bitmap in memory. */
  ghost function Marked(words: array<Word>): seq<nat>
    reads words
  {
    Positions(OnesOf(words[..]), 0)
  }

  method Mark(words: array<Word>, position: nat)
    requires position / 64 < words.Length
    requires forall x :: x in Marked(words) ==> x < position
    modifies words
    ensures Marked(words) == old(Marked(words)) + [position]
  {
    assert Positions(OnesOf(words[..]), 0) == Marked(words);
    SetAppends(words[..], position);
    Set(words, position);
  }

  /** Mark byte zero and the byte after every LF. */
  method MarkLines(content: Bytes) returns (words: array<Word>, lineCount: nat)
    ensures fresh(words) && words.Length == |content| / 64 + 1
    ensures Marked(words) == LineStarts(content) && lineCount == |LineStarts(content)|
  {
    words := new Word[|content| / 64 + 1](_ => Word(0));
    OnesOfZero();
    PositionsOfNone(OnesOf(words[..]), 0);
    Mark(words, 0);
    lineCount := 1;
    assert content[..0] == [];
    for newline := 0 to |content|
      invariant fresh(words) && words.Length == |content| / 64 + 1
      invariant Marked(words) == LineStarts(content[..newline])
      invariant lineCount == |LineStarts(content[..newline])|
    {
      assert content[..newline + 1][..newline] == content[..newline];
      if content[newline] == LF {
        LineStartsExact(content[..newline]);
        Mark(words, newline + 1);
        lineCount := lineCount + 1;
      }
    }
    assert content[..|content|] == content;
  }

  /** One running rank per eight words; the source panics when it outgrows `u32`. */
  method BuildSuperblocks(words: array<Word>) returns (superblocks: seq<u32>)
    requires words.Length > 0 && |Marked(words)| <= U32_MAX
    ensures Superblocks(words[..], superblocks)
  {
    superblocks := [];
    var rank: u32 := 0;
    var start := 0;
    while start < words.Length
      invariant start == 8 * |superblocks| && start < words.Length + 8
      invariant rank == Rank(words[..], Min(start, words.Length))
      invariant forall j :: 0 <= j < |superblocks| ==>
        8 * j < words.Length && superblocks[j] == Rank(words[..], 8 * j)
    {
      superblocks := superblocks + [rank];
      var end := Min(start + 8, words.Length);
      for k := start to end
        invariant rank == Rank(words[..], k)
      {
        RankStep(words[..], k);
        RankMonotone(words[..], k + 1, words.Length);
        rank := rank + CountOnes(words[k]);
      }
      start := start + 8;
    }
  }

  /** The chosen superblock contains the line: the rank after its last word is beyond it. */
  lemma ChosenSuperblock(words: seq<Word>, ranks: seq<nat>, superblock: nat, line: nat)
    requires Superblocks(words, ranks) && superblock < |ranks|
    requires line < |Positions(OnesOf(words), 0)|
    requires superblock + 1 < |ranks| ==> line < ranks[superblock + 1]
    ensures 8 * superblock < |words| && line < Rank(words, Min(8 * superblock + 8, |words|))
  {
    RankOfAll(words);
  }

  /** The position sought is bit number `remaining` of a word that has so many. */
  lemma FoundInWord(words: seq<Word>, word: nat, remaining: nat, line: nat)
    requires word < |words| && remaining < CountOnes(words[word]) && line == Rank(words, word) + remaining
    ensures line < |Positions(OnesOf(words), 0)|
    ensures Positions(OnesOf(words), 0)[line] == 64 * word + Ones(words[word])[remaining]
  {
    var ones := OnesOf(words);
    PositionsAround(ones, word);
    IndexThrough(Positions(ones[..word], 0), Offset(ones[word], 64 * word), Positions(ones[word + 1..], word + 1),
      remaining);
  }

  lemma IndexThrough(before: seq<nat>, here: seq<nat>, after: seq<nat>, i: nat)
    requires i < |here|
    ensures (before + here + after)[|before| + i] == here[i]
  {
  }

  /** The word scan: subtract whole words, then pick the bit inside the word that reaches past the line. */
  method ScanWords(words: array<Word>, first: nat, last: nat, skip: nat, ghost line: nat) returns (r: Option<nat>)
    requires first <= last <= words.Length
    requires Rank(words[..], first) + skip == line < Rank(words[..], last)
    ensures line < |Marked(words)| && r == Some(Marked(words)[line])
  {
    ghost var ws := words[..];
    var remaining, word := skip, first;
    var ones := 0;
    while word < last
      invariant first <= word <= last
      invariant remaining == line - Rank(ws, word)
    {
      ones := CountOnes(words[word]);
      if remaining < ones {
        break;
      }
      RankStep(ws, word);
      remaining := remaining - ones;
      word := word + 1;
    }
    assert words[word] == ws[word];
    FoundInWord(ws, word, remaining, line);
    var bit := NthBit(words[word], remaining);
    return Some(64 * word + bit);
  }

  class RankSelectBitmap {
    var words: array<Word>
    var superblocks: seq<u32>
    var lineCount: nat

    /** The set bits are exactly the line starts, and each superblock holds the rank before it. */
    ghost predicate Describes(content: Bytes)
      reads this, words
    {
      && Marked(words) == LineStarts(content)
      && lineCount == |LineStarts(content)| <= U32_MAX
      && Superblocks(words[..], superblocks)
    }

    constructor New(content: Bytes)
      requires CountLf(content) + 1 <= U32_MAX
      ensures Describes(content) && fresh(words)
    {
      LineStartsExact(content);
      var marked, count := MarkLines(content);
      var ranks := BuildSuperblocks(marked);
      words := marked;
      lineCount := count;
      superblocks := ranks;
    }

    /** The byte offset of a zero-based line, exactly as the line-start vector has it. */
    method Select(line: nat, ghost content: Bytes) returns (r: Option<nat>)
      requires Describes(content)
      ensures r == if line < |LineStarts(content)| then Some(LineStarts(content)[line]) else None
    {
      if line >= lineCount {
        return None;
      }
      RankOfAll(words[..]);
      RanksAscend(words[..], superblocks);
      var after := PartitionPoint(superblocks, line);
      var superblock := SaturatingSub(after, 1);
      ChosenSuperblock(words[..], superblocks, superblock, line);
      var first := 8 * superblock;
      r := ScanWords(words, first, Min(first + 8, words.Length), line - superblocks[superblock], line);
    }

    /** The offsets of up to `count` lines from `start` on, cut at the last line. */
    method SelectWindow(start: nat, count: nat, ghost content: Bytes) returns (offsets: seq<nat>)
      requires Describes(content)
      ensures var starts := LineStarts(content);
        offsets == starts[Min(start, |starts|)..Min(start + count, |starts|)]
    {
      offsets := [];
      ghost var starts := LineStarts(content);
      ghost var from := Min(start, |starts|);
      for line := start to start + count
        invariant |offsets| == Min(line, |starts|) - from
        invariant forall i :: 0 <= i < |offsets| ==> offsets[i] == starts[from + i]
      {
        var offset := Select(line, content);
        if offset.Some? {
          offsets := offsets + [offset.value];
        }
      }
    }
  }
}
