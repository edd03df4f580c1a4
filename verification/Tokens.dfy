/** The wire tokens: canonical decimals, `LINE@BYTE` positions and 32-digit snapshot identities. */
module Tokens {
  import opened Numbers
  import opened Protocol

  const AT_SIGN: byte := 64
  const ZERO: byte := 48

  // ---------------------------------------------------------------- canonical decimals

  predicate IsDigit(b: byte) {
    48 <= b <= 57
  }

  predicate AllDigits(s: Bytes) {
    forall i :: 0 <= i < |s| ==> IsDigit(s[i])
  }

  /** Not empty, digits only, and no leading zero except in `0` itself. */
  predicate Canonical(s: Bytes) {
    |s| > 0 && AllDigits(s) && (|s| > 1 ==> s[0] != ZERO)
  }

  function DigitValue(b: byte): nat
    requires IsDigit(b)
  {
    b as int - 48
  }

  function DecimalValue(s: Bytes): nat
    requires AllDigits(s)
  {
    if |s| == 0 then 0 else 10 * DecimalValue(s[..|s| - 1]) + DigitValue(s[|s| - 1])
  }

  /** Decimal display of a number. */
  function Decimal(n: nat): (s: Bytes)
    ensures |s| > 0 && AllDigits(s)
  {
    var digit := (48 + n % 10) as byte;
    if n < 10 then [digit] else Decimal(n / 10) + [digit]
  }

  lemma {:induction false} DecimalRoundTrip(n: nat)
    ensures Canonical(Decimal(n)) && DecimalValue(Decimal(n)) == n
    ensures n > 0 ==> Decimal(n)[0] != ZERO
  {
    var s := Decimal(n);
    assert s[..|s| - 1] == if n < 10 then [] else Decimal(n / 10);
    if n >= 10 {
      DecimalRoundTrip(n / 10);
    }
  }

  lemma {:induction false} DecimalPositive(s: Bytes)
    requires AllDigits(s) && |s| > 0 && s[0] != ZERO
    ensures DecimalValue(s) > 0
  {
    if |s| > 1 {
      DecimalPositive(s[..|s| - 1]);
    }
  }

  lemma {:induction false} DecimalOfValue(s: Bytes)
    requires Canonical(s)
    ensures Decimal(DecimalValue(s)) == s
  {
    var init := s[..|s| - 1];
    assert s == init + [s[|s| - 1]];
    if |s| > 1 {
      DecimalPositive(init);
      DecimalOfValue(init);
    } else {
      assert DecimalValue(init) == 0;
    }
  }

  lemma {:induction false} DecimalValueMonotone(s: Bytes, i: nat)
    requires AllDigits(s) && i <= |s|
    ensures DecimalValue(s[..i]) <= DecimalValue(s)
    decreases |s|
  {
    if i == |s| {
      assert s[..i] == s;
    } else {
      DecimalValueMonotone(s[..|s| - 1], i);
      assert s[..|s| - 1][..i] == s[..i];
    }
  }

  datatype Component = Line | Byte

  datatype PositionParseError =
    | MissingSeparator
    | ExtraSeparator
    | InvalidLine
    | ZeroLine
    | LineOverflow
    | InvalidByte
    | ByteOverflow

  function Invalid(component: Component): PositionParseError {
    if component.Line? then InvalidLine else InvalidByte
  }

  function Overflow(component: Component): PositionParseError {
    if component.Line? then LineOverflow else ByteOverflow
  }

  /** Overflow exactly when the decimal value exceeds a word; zero is refused for lines only. */
  function ParsedDecimal(input: Bytes, component: Component): Result<u64, PositionParseError> {
    if !Canonical(input) then Err(Invalid(component))
    else if DecimalValue(input) > U64_MAX then Err(Overflow(component))
    else if component.Line? && DecimalValue(input) == 0 then Err(ZeroLine)
    else Ok(DecimalValue(input))
  }

  /** The digit loop of the source, with its checked multiplication and addition. */
  method ParseCanonicalDecimal(input: Bytes, component: Component) returns (r: Result<u64, PositionParseError>)
    ensures r == ParsedDecimal(input, component)
  {
    if |input| == 0 || (|input| > 1 && input[0] == ZERO) || !AllDigits(input) {
      return Err(Invalid(component));
    }
    var value: u64 := 0;
    for i := 0 to |input|
      invariant value == DecimalValue(input[..i])
    {
      assert input[..i + 1][..i] == input[..i];
      DecimalValueMonotone(input, i + 1);
      if 10 * value > U64_MAX || 10 * value + DigitValue(input[i]) > U64_MAX {
        return Err(Overflow(component));
      }
      value := 10 * value + DigitValue(input[i]);
    }
    assert input[..|input|] == input;
    if component.Line? && value == 0 {
      return Err(ZeroLine);
    }
    return Ok(value);
  }

  // ---------------------------------------------------------------- positions

  /** Index of the first `b`. */
  function Find(s: Bytes, b: byte): (r: Option<nat>)
    ensures r.None? <==> b !in s
    ensures r.Some? ==> r.value < |s| && s[r.value] == b && b !in s[..r.value]
  {
    if |s| == 0 then
      None
    else if s[0] == b then
      Some(0)
    else
      match Find(s[1..], b)
      case None => None
      case Some(i) =>
        assert s[..i + 1] == [s[0]] + s[1..][..i];
        Some(i + 1)
  }

  lemma {:induction false} FindSplits(left: Bytes, b: byte, right: Bytes)
    requires b !in left
    ensures Find(left + [b] + right, b) == Some(|left|)
    ensures (left + [b] + right)[..|left|] == left && (left + [b] + right)[|left| + 1..] == right
  {
    if |left| > 0 {
      assert (left + [b] + right)[1..] == left[1..] + [b] + right;
      assert left[0] in left;
      FindSplits(left[1..], b, right);
    }
  }

  function PrintPosition(p: Position): Bytes {
    Decimal(p.line) + [AT_SIGN] + Decimal(p.byte)
  }

  function ParsedPosition(input: Bytes): Result<Position, PositionParseError> {
    match Find(input, AT_SIGN)
    case None => Err(MissingSeparator)
    case Some(at) =>
      var line, byte := input[..at], input[at + 1..];
      if AT_SIGN in byte then Err(ExtraSeparator) else
      match ParsedDecimal(line, Line)
      case Err(e) => Err(e)
      case Ok(l) =>
        match ParsedDecimal(byte, Byte)
        case Err(e) => Err(e)
        case Ok(b) => Ok(At(l, b))
  }

  method ParsePosition(input: Bytes) returns (r: Result<Position, PositionParseError>)
    ensures r == ParsedPosition(input)
  {
    var at := Find(input, AT_SIGN);
    if at.None? {
      return Err(MissingSeparator);
    }
    var line, byte := input[..at.value], input[at.value + 1..];
    if AT_SIGN in byte {
      return Err(ExtraSeparator);
    }
    var l := ParseCanonicalDecimal(line, Line);
    if l.Err? {
      return Err(l.error);
    }
    var b := ParseCanonicalDecimal(byte, Byte);
    if b.Err? {
      return Err(b.error);
    }
    return Ok(At(l.value, b.value));
  }

  lemma NotInDigits(s: Bytes, b: byte)
    requires AllDigits(s) && !IsDigit(b)
    ensures b !in s
  {
  }

  /** Printing then parsing is the identity on every position. */
  lemma PrintThenParsePosition(p: Position)
    ensures ParsedPosition(PrintPosition(p)) == Ok(p)
  {
    DecimalRoundTrip(p.line);
    DecimalRoundTrip(p.byte);
    NotInDigits(Decimal(p.line), AT_SIGN);
    NotInDigits(Decimal(p.byte), AT_SIGN);
    FindSplits(Decimal(p.line), AT_SIGN, Decimal(p.byte));
  }

  /** Every accepted token is the one that printing its position gives. */
  lemma ParseThenPrintPosition(input: Bytes)
    requires ParsedPosition(input).Ok?
    ensures PrintPosition(ParsedPosition(input).value) == input
  {
    var at := Find(input, AT_SIGN).value;
    DecimalOfValue(input[..at]);
    DecimalOfValue(input[at + 1..]);
    assert input == input[..at] + [AT_SIGN] + input[at + 1..];
  }

  /** Why one component is refused: its form first, then its size, then a zero line. */
  ghost predicate ComponentError(s: Bytes, component: Component, error: PositionParseError) {
    if !Canonical(s) then
      error == if component.Line? then InvalidLine else InvalidByte
    else if DecimalValue(s) > 0xFFFF_FFFF_FFFF_FFFF then
      error == if component.Line? then LineOverflow else ByteOverflow
    else
      component.Line? && DecimalValue(s) == 0 && error == ZeroLine
  }

  /** What is wrong with the line, or, if nothing is, with the byte. */
  ghost predicate PositionError(line: Bytes, byte: Bytes, error: PositionParseError) {
    if Canonical(line) && 0 < DecimalValue(line) <= 0xFFFF_FFFF_FFFF_FFFF then ComponentError(byte, Byte, error)
    else ComponentError(line, Line, error)
  }

  lemma ComponentAnswered(s: Bytes, component: Component)
    ensures ParsedDecimal(s, component).Err? ==> ComponentError(s, component, ParsedDecimal(s, component).error)
    ensures ParsedDecimal(s, component).Ok? ==> Canonical(s) && ParsedDecimal(s, component).value == DecimalValue(s)
  {
  }

  /**
   * What a token without exactly one separator, or with a bad component, is told: no separator, more than one, what
   * is wrong with its line, or, if nothing is, what is wrong with its byte.
   */
  lemma PositionErrors(left: Bytes, right: Bytes)
    requires AT_SIGN !in left
    ensures ParsedPosition(left) == Err(MissingSeparator)
    ensures AT_SIGN in right ==> ParsedPosition(left + [AT_SIGN] + right) == Err(ExtraSeparator)
    ensures AT_SIGN !in right && ParsedPosition(left + [AT_SIGN] + right).Err? ==>
      PositionError(left, right, ParsedPosition(left + [AT_SIGN] + right).error)
    ensures AT_SIGN !in right && ParsedPosition(left + [AT_SIGN] + right).Ok? ==>
      var p := ParsedPosition(left + [AT_SIGN] + right).value; Decimal(p.line) == left && Decimal(p.byte) == right
  {
    FindSplits(left, AT_SIGN, right);
    ComponentAnswered(left, Line);
    ComponentAnswered(right, Byte);
    if AT_SIGN !in right && ParsedPosition(left + [AT_SIGN] + right).Ok? {
      DecimalOfValue(left);
      DecimalOfValue(right);
    }
  }

  // ---------------------------------------------------------------- snapshot identities

  const SNAPSHOT_ID_HEX_LEN: nat := 32

  predicate IsHex(b: byte) {
    48 <= b <= 57 || 97 <= b <= 102
  }

  function HexDigit(v: nat): byte
    requires v < 16
  {
    if v < 10 then (48 + v) as byte else (87 + v) as byte
  }

  function HexDigitValue(b: byte): nat
    requires IsHex(b)
  {
    if b <= 57 then b as int - 48 else b as int - 87
  }

  predicate AllHex(s: Bytes) {
    forall i :: 0 <= i < |s| ==> IsHex(s[i])
  }

  function HexValue(s: Bytes): nat
    requires AllHex(s)
  {
    if |s| == 0 then 0 else 16 * HexValue(s[..|s| - 1]) + HexDigitValue(s[|s| - 1])
  }

  /** Zero-padded lower-case hexadecimal of fixed width. */
  function Hex(v: nat, width: nat): (s: Bytes)
    ensures |s| == width && AllHex(s)
  {
    if width == 0 then [] else Hex(v / 16, width - 1) + [HexDigit(v % 16)]
  }

  function Pow16(n: nat): nat {
    if n == 0 then 1 else 16 * Pow16(n - 1)
  }

  lemma {:induction false} HexRoundTrip(v: nat, width: nat)
    requires v < Pow16(width)
    ensures HexValue(Hex(v, width)) == v
  {
    if width > 0 {
      assert Hex(v, width)[..width - 1] == Hex(v / 16, width - 1);
      HexRoundTrip(v / 16, width - 1);
    }
  }

  lemma {:induction false} HexStep(high: nat, low: nat)
    requires low < 16
    ensures (16 * high + low) / 16 == high && (16 * high + low) % 16 == low
  {
  }

  lemma {:induction false} DigitOfValue(b: byte)
    requires IsHex(b)
    ensures HexDigitValue(b) < 16 && HexDigit(HexDigitValue(b)) == b
  {
  }

  lemma {:induction false} HexOfValue(s: Bytes)
    requires AllHex(s)
    ensures Hex(HexValue(s), |s|) == s && HexValue(s) < Pow16(|s|)
  {
    if |s| > 0 {
      var init := s[..|s| - 1];
      HexOfValue(init);
      DigitOfValue(s[|s| - 1]);
      HexStep(HexValue(init), HexDigitValue(s[|s| - 1]));
      assert s == init + [s[|s| - 1]];
    }
  }

  lemma {:induction false} Pow16Add(a: nat, b: nat)
    ensures Pow16(a + b) == Pow16(a) * Pow16(b)
  {
    if a > 0 {
      Pow16Add(a - 1, b);
    }
  }

  lemma WidthFitsU128()
    ensures Pow16(SNAPSHOT_ID_HEX_LEN) == U128_MAX + 1
  {
    assert Pow16(4) == 0x1_0000;
    Pow16Add(4, 4);
    Pow16Add(8, 8);
    Pow16Add(16, 16);
  }

  datatype SnapshotIdParseError = InvalidLength | InvalidCharacter

  function PrintSnapshotId(id: SnapshotId): Bytes {
    Hex(id, SNAPSHOT_ID_HEX_LEN)
  }

  function ParseSnapshotId(input: Bytes): (r: Result<SnapshotId, SnapshotIdParseError>)
    ensures r == Err(InvalidLength) <==> |input| != SNAPSHOT_ID_HEX_LEN
    ensures r == Err(InvalidCharacter) <==> |input| == SNAPSHOT_ID_HEX_LEN && !AllHex(input)
  {
    if |input| != SNAPSHOT_ID_HEX_LEN then Err(InvalidLength)
    else if !AllHex(input) then Err(InvalidCharacter)
    else
      HexOfValue(input);
      WidthFitsU128();
      Ok(HexValue(input))
  }

  /** Parsing and printing identities are mutually inverse. */
  lemma SnapshotIdRoundTrips(id: SnapshotId, input: Bytes)
    ensures ParseSnapshotId(PrintSnapshotId(id)) == Ok(id)
    ensures ParseSnapshotId(input).Ok? ==> PrintSnapshotId(ParseSnapshotId(input).value) == input
  {
    WidthFitsU128();
    HexRoundTrip(id, SNAPSHOT_ID_HEX_LEN);
    if ParseSnapshotId(input).Ok? {
      HexOfValue(input);
    }
  }

  // ---------------------------------------------------------------- write preconditions

  /** The literal `absent`. */
  const ABSENT: Bytes := [97, 98, 115, 101, 110, 116]

  function PrintExpect(e: WriteExpect): Bytes {
    match e
    case Absent => ABSENT
    case Named(snapshot) => PrintSnapshotId(snapshot)
  }

  function ParseExpect(input: Bytes): Option<WriteExpect> {
    if input == ABSENT then Some(Absent)
    else if ParseSnapshotId(input).Ok? then Some(Named(ParseSnapshotId(input).value))
    else None
  }

  /** The two forms of a precondition never drift into each other. */
  lemma ExpectRoundTrips(e: WriteExpect, input: Bytes)
    ensures ParseExpect(PrintExpect(e)) == Some(e)
    ensures ParseExpect(input).Some? ==> PrintExpect(ParseExpect(input).value) == input
  {
    match e
    case Absent => SnapshotIdRoundTrips(0, input);
    case Named(snapshot) => SnapshotIdRoundTrips(snapshot, input);
  }

  // ---------------------------------------------------------------- characters

  /** The bytes of the tokens are those of these ASCII characters. */
  lemma TokenCharacters(value: nat)
    ensures value < 16 ==>
      HexDigit(value) as int == "0123456789abcdef"[value] as int && HexDigitValue(HexDigit(value)) == value
    ensures value < 10 ==> Decimal(value) == [HexDigit(value)]
    ensures forall b :: IsHex(b) <==> exists v: nat :: v < 16 && b == HexDigit(v)
    ensures AT_SIGN as int == '@' as int
    ensures |ABSENT| == 6 && forall i :: 0 <= i < 6 ==> ABSENT[i] as int == "absent"[i] as int
  {
    forall b | IsHex(b)
      ensures exists v: nat :: v < 16 && b == HexDigit(v)
    {
      assert b == HexDigit(HexDigitValue(b));
    }
  }
}
