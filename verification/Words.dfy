/** Single 64-bit words: which bits are set, setting a bit, clearing the lowest one. */
module Words {
  import opened Sequences

  /** A machine word; kept boxed so that facts about many words never look at bits. */
  datatype Word = Word(bits: bv64)

  /** Positions of the set bits from bit `i` on, ascending; `w` is the word shifted right by `i`. */
  function BitsFrom(w: bv64, i: nat): seq<nat>
    requires i <= 64
    decreases 64 - i, w
  {
    if i == 64 then [] else (if w & 1 == 1 then [i] else []) + BitsFrom(w >> 1, i + 1)
  }

  function Ones(w: Word): seq<nat> {
    BitsFrom(w.bits, 0)
  }

  /** `count_ones`. */
  function CountOnes(w: Word): nat {
    |Ones(w)|
  }

  /** `trailing_zeros`. */
  function TrailingZeros(w: Word): nat {
    if |Ones(w)| == 0 then 64 else Ones(w)[0]
  }

  /** `word | 1 << bit`. */
  function SetBit(w: Word, bit: bv6): Word {
    Word(w.bits | ((1 as bv64) << bit))
  }

  /** `selected & (selected - 1)`. */
  function ClearLowest(w: Word): Word {
    Word(w.bits & (w.bits - 1))
  }

  lemma {:induction false} BitsBounds(w: bv64, i: nat)
    requires i <= 64
    ensures forall x :: x in BitsFrom(w, i) ==> i <= x < 64
    decreases 64 - i
  {
    if i < 64 {
      BitsBounds(w >> 1, i + 1);
    }
  }

  lemma {:induction false} BitsOfZero(i: nat)
    requires i <= 64
    ensures BitsFrom(0, i) == []
    decreases 64 - i
  {
    if i < 64 {
      BitsOfZero(i + 1);
    }
  }

  /** From bit `i` on, `c` is `w` without its lowest set bit. */
  ghost predicate IsCleared(c: bv64, w: bv64, i: nat)
    requires i <= 64
    decreases 64 - i, c
  {
    i < 64 && c & 1 != 1 && (if w & 1 == 1 then c >> 1 == w >> 1 else IsCleared(c >> 1, w >> 1, i + 1))
  }

  lemma ClearedWord(w: bv64)
    ensures w & 1 == 1 ==> (w & (w - 1)) >> 1 == w >> 1
    ensures w & 1 == 0 && w != 0 ==> (w & (w - 1)) >> 1 == (w >> 1) & ((w >> 1) - 1)
    ensures w != 0 ==> (w & (w - 1)) & 1 == 0
  {
  }

  lemma LowBit(w: bv64)
    ensures w & 1 == 0 || w & 1 == 1
  {
  }

  lemma ClearedHere(c: bv64, w: bv64, i: nat)
    requires i < 64 && w & 1 == 1 && c & 1 != 1 && c >> 1 == w >> 1
    ensures IsCleared(c, w, i)
  {
  }

  lemma ClearedStep(c: bv64, w: bv64, i: nat)
    requires i < 64 && w & 1 != 1 && c & 1 != 1 && IsCleared(c >> 1, w >> 1, i + 1)
    ensures IsCleared(c, w, i)
  {
  }

  lemma SomeBit(w: bv64, i: nat)
    requires i <= 64 && BitsFrom(w, i) != []
    ensures i < 64 && w != 0
    ensures w & 1 != 1 ==> BitsFrom(w >> 1, i + 1) != []
  {
    BitsOfZero(i);
  }

  lemma DropStep(c: bv64, w: bv64)
    requires w != 0 && c == w & (w - 1)
    ensures c & 1 != 1
    ensures w & 1 == 1 ==> c >> 1 == w >> 1
    ensures w & 1 != 1 ==> c >> 1 == (w >> 1) & ((w >> 1) - 1)
  {
    ClearedWord(w);
    LowBit(w);
  }

  lemma {:induction false} ClearIsCleared(c: bv64, w: bv64, i: nat)
    requires i <= 64 && BitsFrom(w, i) != [] && c == w & (w - 1)
    ensures IsCleared(c, w, i)
    decreases 64 - i, 1
  {
    SomeBit(w, i);
    DropStep(c, w);
    if w & 1 == 1 {
      ClearedHere(c, w, i);
    } else {
      ClearRest(c, w, i);
      ClearedStep(c, w, i);
    }
  }

  /** An even word and its cleared form, shifted down together. */
  lemma Halve(c: bv64, w: bv64) returns (c': bv64, w': bv64)
    requires w != 0 && w & 1 != 1 && c == w & (w - 1)
    ensures c' == w' & (w' - 1) && c' == c >> 1 && w' == w >> 1
  {
    DropStep(c, w);
    c', w' := c >> 1, w >> 1;
  }

  lemma {:induction false} ClearRest(c: bv64, w: bv64, i: nat)
    requires i < 64 && BitsFrom(w >> 1, i + 1) != []
    requires w != 0 && w & 1 != 1 && c == w & (w - 1)
    ensures IsCleared(c >> 1, w >> 1, i + 1)
    decreases 64 - i, 0
  {
    var c', w' := Halve(c, w);
    ClearIsCleared(c', w', i + 1);
  }

  lemma {:induction false} ClearedBits(c: bv64, w: bv64, i: nat)
    requires i <= 64 && IsCleared(c, w, i)
    ensures |BitsFrom(w, i)| > 0 && BitsFrom(c, i) == BitsFrom(w, i)[1..]
    decreases 64 - i
  {
    if w & 1 != 1 {
      ClearedBits(c >> 1, w >> 1, i + 1);
    }
  }

  /** `w & (w - 1)` removes exactly the lowest set bit. */
  lemma ClearLowestDropsFirst(w: Word)
    requires CountOnes(w) > 0
    ensures Ones(ClearLowest(w)) == Ones(w)[1..]
  {
    var c := w.bits & (w.bits - 1);
    ClearIsCleared(c, w.bits, 0);
    ClearedBits(c, w.bits, 0);
  }

  /** From bit `i` on, `u` has exactly the bits of `w` and those of `m`. */
  ghost predicate IsUnion(u: bv64, w: bv64, m: bv64, i: nat)
    requires i <= 64
    decreases 64 - i, u
  {
    i == 64 || ((u & 1 == 1 <==> w & 1 == 1 || m & 1 == 1) && IsUnion(u >> 1, w >> 1, m >> 1, i + 1))
  }

  lemma UnionShift(w: bv64, m: bv64)
    ensures (w | m) >> 1 == (w >> 1) | (m >> 1)
    ensures (w | m) & 1 == 1 <==> w & 1 == 1 || m & 1 == 1
  {
  }

  lemma UnionStep(u: bv64, w: bv64, m: bv64, i: nat)
    requires i < 64 && (u & 1 == 1 <==> w & 1 == 1 || m & 1 == 1) && IsUnion(u >> 1, w >> 1, m >> 1, i + 1)
    ensures IsUnion(u, w, m, i)
  {
  }

  lemma {:induction false} OrIsUnion(u: bv64, w: bv64, m: bv64, i: nat)
    requires i <= 64 && u == w | m
    ensures IsUnion(u, w, m, i)
    decreases 64 - i
  {
    if i < 64 {
      UnionShift(w, m);
      OrIsUnion(u >> 1, w >> 1, m >> 1, i + 1);
      UnionStep(u, w, m, i);
    }
  }

  lemma {:induction false} EmptyUnion(u: bv64, w: bv64, m: bv64, i: nat)
    requires i <= 64 && IsUnion(u, w, m, i) && BitsFrom(m, i) == [] && BitsFrom(w, i) == []
    ensures BitsFrom(u, i) == []
    decreases 64 - i
  {
    if i < 64 {
      EmptyUnion(u >> 1, w >> 1, m >> 1, i + 1);
    }
  }

  ghost predicate Below(xs: seq<nat>, x: nat) {
    forall y :: y in xs ==> y < x
  }

  lemma NoneFrom(w: bv64, i: nat)
    requires i < 64 && Below(BitsFrom(w, i), i)
    ensures BitsFrom(w, i) == []
  {
    BitsBounds(w, i);
    ElementBetween(BitsFrom(w, i), i, i);
  }

  lemma FirstBit(m: bv64, i: nat, x: nat)
    requires i < 64 && m & 1 == 1 && BitsFrom(m, i) == [x]
    ensures x == i && BitsFrom(m >> 1, i + 1) == []
  {
    assert BitsFrom(m, i) == [i] + BitsFrom(m >> 1, i + 1);
    assert BitsFrom(m, i)[0] == i;
  }

  lemma LaterBits(w: bv64, m: bv64, i: nat, x: nat)
    requires i < 64 && m & 1 != 1
    requires BitsFrom(m, i) == [x] && Below(BitsFrom(w, i), x)
    ensures i + 1 < 64 && BitsFrom(m >> 1, i + 1) == [x] && Below(BitsFrom(w >> 1, i + 1), x)
  {
    assert BitsFrom(m, i) == BitsFrom(m >> 1, i + 1);
    var rest := BitsFrom(w >> 1, i + 1);
    assert BitsFrom(w, i) == (if w & 1 == 1 then [i] else []) + rest;
    assert forall y :: y in rest ==> y in BitsFrom(w, i);
  }

  /** One bit above all bits of `w`, united with it, is appended. */
  lemma {:induction false} UnionAbove(u: bv64, w: bv64, m: bv64, i: nat, x: nat)
    requires i < 64 && IsUnion(u, w, m, i) && BitsFrom(m, i) == [x] && Below(BitsFrom(w, i), x)
    ensures BitsFrom(u, i) == BitsFrom(w, i) + [x]
    decreases 64 - i
  {
    if m & 1 == 1 {
      FirstBit(m, i, x);
      NoneFrom(w, i);
      EmptyUnion(u >> 1, w >> 1, m >> 1, i + 1);
    } else {
      LaterBits(w, m, i, x);
      UnionAbove(u >> 1, w >> 1, m >> 1, i + 1, x);
    }
  }

  lemma ShiftDown(b: bv6)
    requires b != 0
    ensures ((1 as bv64) << b) >> 1 == (1 as bv64) << (b - 1)
    ensures ((1 as bv64) << b) & 1 == 0
  {
  }

  lemma Predecessor(b: bv6)
    requires b != 0
    ensures 0 < b as int && (b - 1) as int == b as int - 1
  {
  }

  lemma {:induction false} BitsOfShift(b: bv6, i: nat)
    requires i + b as int < 64
    ensures BitsFrom((1 as bv64) << b, i) == [i + b as int]
    decreases b as int
  {
    if b == 0 {
      BitsOfZero(i + 1);
    } else {
      ShiftDown(b);
      Predecessor(b);
      BitsOfShift(b - 1, i + 1);
    }
  }

  lemma BitRange(b: bv6)
    ensures 0 <= b as int < 64
  {
  }

  lemma OrAppends(w: bv64, m: bv64, x: nat)
    requires BitsFrom(m, 0) == [x] && Below(BitsFrom(w, 0), x)
    ensures BitsFrom(w | m, 0) == BitsFrom(w, 0) + [x]
  {
    OrIsUnion(w | m, w, m, 0);
    UnionAbove(w | m, w, m, 0, x);
  }

  /** Setting a bit above all set bits appends its position. */
  lemma SetBitAppends(w: Word, bit: bv6)
    requires Below(Ones(w), bit as int)
    ensures Ones(SetBit(w, bit)) == Ones(w) + [bit as int]
  {
    BitRange(bit);
    var x: nat := bit as int;
    var m := (1 as bv64) << bit;
    assert BitsFrom(m, 0) == [x] by {
      BitsOfShift(bit, 0);
    }
    OrAppends(w.bits, m, x);
  }

  lemma OnesOfZero()
    ensures Ones(Word(0)) == []
  {
    BitsOfZero(0);
  }

  /** Clear the lowest set bit `n` times, then count trailing zeros: the position of set bit number `n`. */
  method NthBit(word: Word, n: nat) returns (bit: nat)
    requires n < CountOnes(word)
    ensures bit == Ones(word)[n]
  {
    var selected := word;
    for k := 0 to n
      invariant Ones(selected) == Ones(word)[k..]
    {
      ClearLowestDropsFirst(selected);
      selected := ClearLowest(selected);
    }
    bit := TrailingZeros(selected);
  }
}
