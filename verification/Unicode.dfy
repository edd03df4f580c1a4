/** The UTF-8 check accepts exactly the encodings of Unicode text, and reports how far they reach. */
module Unicode {
  import opened Numbers
  import opened Text

  /** A Unicode scalar value: a code point that is no surrogate. */
  type Scalar = c: int | 0 <= c <= 0x10FFFF && !(0xD800 <= c <= 0xDFFF)

  /** A continuation byte with these six bits. */
  function Continuation(bits: int): byte
    requires 0 <= bits < 64
  {
    (0x80 + bits) as byte
  }

  /** The encoding of one character, by the table in section 3 of RFC 3629. */
  function EncodeChar(c: Scalar): Bytes {
    if c < 0x80 then
      [c as byte]
    else if c < 0x800 then
      [(0xC0 + c / 64) as byte, Continuation(c % 64)]
    else if c < 0x10000 then
      [(0xE0 + c / 64 / 64) as byte, Continuation(c / 64 % 64), Continuation(c % 64)]
    else
      [(0xF0 + c / 64 / 64 / 64) as byte,
       Continuation(c / 64 / 64 % 64), Continuation(c / 64 % 64), Continuation(c % 64)]
  }

  function Encode(text: seq<Scalar>): Bytes {
    if |text| == 0 then [] else EncodeChar(text[0]) + Encode(text[1..])
  }

  lemma {:induction false} EncodedLength(c: Scalar, rest: Bytes)
    ensures CharLength(EncodeChar(c) + rest) == |EncodeChar(c)|
  {
    var s, one := EncodeChar(c) + rest, EncodeChar(c);
    assert forall i :: 0 <= i < |one| ==> s[i] == one[i];
  }

  /** The six bits of a continuation byte. */
  function Bits(b: byte): int {
    b as int - 0x80
  }

  /** The character at the start of `s`. */
  function FirstChar(s: Bytes): (c: Scalar)
    requires CharLength(s) > 0
  {
    match CharLength(s)
    case 1 => s[0] as int
    case 2 => (s[0] as int - 0xC0) * 64 + Bits(s[1])
    case 3 => ((s[0] as int - 0xE0) * 64 + Bits(s[1])) * 64 + Bits(s[2])
    case _ => (((s[0] as int - 0xF0) * 64 + Bits(s[1])) * 64 + Bits(s[2])) * 64 + Bits(s[3])
  }

  lemma {:induction false} DivMod(high: int, low: int)
    requires 0 <= low < 64
    ensures (high * 64 + low) / 64 == high && (high * 64 + low) % 64 == low
  {
  }

  lemma {:induction false} FirstCharEncodes(s: Bytes)
    requires CharLength(s) > 0
    ensures EncodeChar(FirstChar(s)) == s[..CharLength(s)]
  {
    var n := CharLength(s);
    if n >= 2 {
      DivMod(s[0] as int - (if n == 2 then 0xC0 else if n == 3 then 0xE0 else 0xF0), Bits(s[1]));
    }
    if n >= 3 {
      var high := (s[0] as int - (if n == 3 then 0xE0 else 0xF0)) * 64 + Bits(s[1]);
      DivMod(high, Bits(s[2]));
      if n == 4 {
        DivMod(high * 64 + Bits(s[2]), Bits(s[3]));
      }
    }
  }

  lemma {:induction false} EncodingIsValid(text: seq<Scalar>)
    ensures ValidUtf8(Encode(text))
  {
    if |text| > 0 {
      EncodingIsValid(text[1..]);
      EncodedLength(text[0], Encode(text[1..]));
      assert Encode(text)[|EncodeChar(text[0])|..] == Encode(text[1..]);
    }
  }

  lemma {:induction false} Decodes(s: Bytes) returns (text: seq<Scalar>)
    requires ValidUtf8(s)
    ensures Encode(text) == s
  {
    if |s| == 0 {
      text := [];
    } else {
      var n := CharLength(s);
      FirstCharEncodes(s);
      var rest := Decodes(s[n..]);
      text := [FirstChar(s)] + rest;
      assert text[1..] == rest;
    }
  }

  /** Bytes are valid exactly when they are the encoding of some text. */
  lemma ValidExactlyEncodings(s: Bytes)
    ensures ValidUtf8(s) <==> exists text :: Encode(text) == s
  {
    if ValidUtf8(s) {
      var text := Decodes(s);
    }
    forall text | Encode(text) == s
      ensures ValidUtf8(s)
    {
      EncodingIsValid(text);
    }
  }

  lemma {:induction false} ValidUpToIsValid(s: Bytes)
    ensures ValidUtf8(s[..ValidUpTo(s)])
    decreases |s|
  {
    var m := CharLength(s);
    if m > 0 {
      var rest := s[m..];
      ValidUpToIsValid(rest);
      CharPrefixValid(s);
      Utf8Concat(s[..m], rest[..ValidUpTo(rest)]);
      TakeDrop(s, m, ValidUpTo(s));
    } else {
      assert s[..0] == [];
    }
  }

  /** A valid prefix starts with the character the whole starts with. */
  lemma {:induction false} PrefixChar(s: Bytes, n: nat)
    requires 0 < n <= |s| && ValidUtf8(s[..n])
    ensures 0 < CharLength(s) == CharLength(s[..n]) <= n
    ensures ValidUtf8(s[CharLength(s)..][..n - CharLength(s)])
  {
    CharLengthLocal(s[..n], s[n..]);
    assert s == s[..n] + s[n..];
    var m := CharLength(s);
    assert s[..n][m..] == s[m..][..n - m];
  }

  lemma {:induction false} NoLongerPrefix(s: Bytes, n: nat)
    requires n <= |s| && ValidUtf8(s[..n])
    ensures n <= ValidUpTo(s)
    decreases |s|
  {
    if n > 0 {
      PrefixChar(s, n);
      NoLongerPrefix(s[CharLength(s)..], n - CharLength(s));
    }
  }

  /** The position an error names is the end of the longest valid prefix. */
  lemma ValidUpToIsLongest(s: Bytes, n: nat)
    requires n <= |s|
    ensures ValidUtf8(s[..ValidUpTo(s)])
    ensures ValidUtf8(s[..n]) ==> n <= ValidUpTo(s)
  {
    ValidUpToIsValid(s);
    if ValidUtf8(s[..n]) {
      NoLongerPrefix(s, n);
    }
  }
}
