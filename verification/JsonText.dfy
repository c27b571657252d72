/** The lexical level of the JSON reader, as functions of the input that is left: white space,
    strings and numbers. */
module JsonText {
  import opened BigIntBytes
  import opened JsonTree

  datatype ParseError =
    | DocumentEmpty | DocumentRootNotSingular | ValueInvalid
    | ObjectMissName | ObjectMissColon | ObjectMissCommaOrCurlyBracket | ArrayMissCommaOrSquareBracket
    | StringUnicodeEscapeInvalidHex | StringUnicodeSurrogateInvalid | StringEscapeInvalid
    | StringMissQuotationMark | StringInvalidEncoding
    | NumberTooBig | NumberMissFraction | NumberMissExponent
    | Termination

  // Every error but the one that the handler causes.
  type LexicalError = e: ParseError | !e.Termination? witness DocumentEmpty

  const QUOTE: byte := 0x22
  const PLUS: byte := 0x2B
  const COMMA: byte := 0x2C
  const MINUS: byte := 0x2D
  const DOT: byte := 0x2E
  const SLASH: byte := 0x2F
  const ZERO: byte := 0x30
  const NINE: byte := 0x39
  const COLON: byte := 0x3A
  const LEFT_BRACKET: byte := 0x5B
  const BACKSLASH: byte := 0x5C
  const RIGHT_BRACKET: byte := 0x5D
  const LEFT_BRACE: byte := 0x7B
  const RIGHT_BRACE: byte := 0x7D
  const UPPER_E: byte := 0x45
  const LOWER_B: byte := 0x62
  const LOWER_E: byte := 0x65
  const LOWER_F: byte := 0x66
  const LOWER_N: byte := 0x6E
  const LOWER_R: byte := 0x72
  const LOWER_T: byte := 0x74
  const LOWER_U: byte := 0x75

  const NULL_TEXT: Bytes := [0x6E, 0x75, 0x6C, 0x6C]
  const TRUE_TEXT: Bytes := [0x74, 0x72, 0x75, 0x65]
  const FALSE_TEXT: Bytes := [0x66, 0x61, 0x6C, 0x73, 0x65]

  // The stream is terminated by a NUL.
  function Peek(r: Bytes): byte {
    if r == [] then 0 else r[0]
  }

  predicate IsSpace(c: byte) {
    c == 0x20 || c == 0x0A || c == 0x0D || c == 0x09
  }

  function SkipSpaces(r: Bytes): (rest: Bytes)
    ensures |rest| <= |r| && !IsSpace(Peek(rest))
  {
    if IsSpace(Peek(r)) then SkipSpaces(r[1..]) else r
  }

  // ---------------------------------------------------------------------------
  // Strings.

  function HexDigit(c: byte): (digit: int)
    ensures -1 <= digit < 16
  {
    if 0x30 <= c <= 0x39 then c as int - 0x30
    else if 0x41 <= c <= 0x46 then c as int - 0x41 + 10
    else if 0x61 <= c <= 0x66 then c as int - 0x61 + 10
    else -1
  }

  // Four hexadecimal digits at the front of r.
  function Hex4(r: Bytes): (codepoint: int)
    ensures -1 <= codepoint < 0x1_0000 && (codepoint >= 0 ==> |r| >= 4)
  {
    if |r| < 4 || exists i | 0 <= i < 4 :: HexDigit(r[i]) < 0 then -1
    else ((HexDigit(r[0]) * 16 + HexDigit(r[1])) * 16 + HexDigit(r[2])) * 16 + HexDigit(r[3])
  }

  // UTF8::Encode.
  function Utf8(codepoint: nat): (bytes: Bytes)
    requires codepoint <= 0x10_FFFF
    ensures 1 <= |bytes| <= 4
  {
    if codepoint <= 0x7F then [codepoint as byte]
    else if codepoint <= 0x7FF then [(0xC0 + codepoint / 64) as byte, (0x80 + codepoint % 64) as byte]
    else if codepoint <= 0xFFFF then
      [(0xE0 + codepoint / 4096) as byte, (0x80 + codepoint / 64 % 64) as byte, (0x80 + codepoint % 64) as byte]
    else
      [(0xF0 + codepoint / 0x4_0000) as byte, (0x80 + codepoint / 4096 % 64) as byte,
       (0x80 + codepoint / 64 % 64) as byte, (0x80 + codepoint % 64) as byte]
  }

  // The escape table: what the letter after a backslash stands for, 0 if nothing.
  function Unescaped(e: byte): byte {
    if e == QUOTE || e == SLASH || e == BACKSLASH then e
    else if e == LOWER_B then 0x08
    else if e == LOWER_F then 0x0C
    else if e == LOWER_N then 0x0A
    else if e == LOWER_R then 0x0D
    else if e == LOWER_T then 0x09
    else 0
  }

  // An error is placed by the number of bytes that were left there.
  datatype Scan = Scanned(text: Bytes, rest: Bytes) | Bad(code: LexicalError, left: nat)

  // One escape, r beginning with its backslash.
  function ScanEscape(r: Bytes): (scan: Scan)
    requires r != [] && r[0] == BACKSLASH
    ensures scan.Scanned? ==> |scan.rest| <= |r| - 2 && |scan.text| <= |r| - |scan.rest|
  {
    var e := Peek(r[1..]);
    if Unescaped(e) != 0 then Scanned([Unescaped(e)], r[2..])
    else if e != LOWER_U then Bad(StringEscapeInvalid, |r|)
    else ScanCodepoint(r)
  }

  function ScanCodepoint(r: Bytes): (scan: Scan)
    requires |r| >= 2
    ensures scan.Scanned? ==> |scan.rest| <= |r| - 6 && |scan.text| <= |r| - |scan.rest|
  {
    var high := Hex4(r[2..]);
    if high < 0 then Bad(StringUnicodeEscapeInvalidHex, |r|)
    else if high < 0xD800 || high > 0xDFFF then Scanned(Utf8(high), r[6..])
    else if high > 0xDBFF then Bad(StringUnicodeSurrogateInvalid, |r|)
    else if Peek(r[6..]) != BACKSLASH || Peek(r[7..]) != LOWER_U then Bad(StringUnicodeSurrogateInvalid, |r|)
    else
      var low := Hex4(r[8..]);
      if low < 0 then Bad(StringUnicodeEscapeInvalidHex, |r|)
      else if low < 0xDC00 || low > 0xDFFF then Bad(StringUnicodeSurrogateInvalid, |r|)
      else Scanned(Utf8((high - 0xD800) * 0x400 + (low - 0xDC00) + 0x1_0000), r[12..])
  }

  function Prepend(text: Bytes, scan: Scan): Scan {
    if scan.Scanned? then Scanned(text + scan.text, scan.rest) else scan
  }

  // ParseStringToStream: the text of a string whose opening quote is behind us.
  function ScanString(r: Bytes): (scan: Scan)
    ensures scan.Scanned? ==> |scan.rest| + |scan.text| < |r|
    decreases |r|
  {
    var c := Peek(r);
    if c == BACKSLASH then
      var escape := ScanEscape(r);
      if escape.Bad? then escape else Prepend(escape.text, ScanString(escape.rest))
    else if c == QUOTE then Scanned([], r[1..])
    else if c == 0 then Bad(StringMissQuotationMark, |r|)
    else if c < 0x20 then Bad(StringInvalidEncoding, |r|)
    else Prepend([c], ScanString(r[1..]))
  }

  // ---------------------------------------------------------------------------
  // Numbers.

  predicate IsDigit(c: byte) {
    ZERO <= c <= NINE
  }

  // The number of digits at the front of r.
  function DigitCount(r: Bytes): (n: nat)
    ensures n <= |r| && !IsDigit(Peek(r[n..]))
    ensures forall i | 0 <= i < n :: IsDigit(r[i])
  {
    if IsDigit(Peek(r)) then 1 + DigitCount(r[1..]) else 0
  }

  function DigitValue(c: byte): (n: nat)
    requires IsDigit(c)
    ensures n < 10
  {
    c as nat - 0x30
  }

  // The decimal value of digits.
  function Decimal(digits: Bytes): nat
    requires forall i | 0 <= i < |digits| :: IsDigit(digits[i])
  {
    if digits == [] then 0
    else Decimal(digits[..|digits| - 1]) * 10 + DigitValue(digits[|digits| - 1])
  }

  predicate IsNumber(e: Event) {
    e.Int? || e.Uint? || e.Int64? || e.Uint64? || e.Double?
  }

  datatype Numeral = Numeral(event: Event, rest: Bytes) | BadNumeral(code: LexicalError, left: nat)

  // The integer event of a literal, or none when its value is outside [-2^63, 2^64 - 1].
  function LiteralEvent(minus: bool, n: int): (event: seq<Event>)
    ensures |event| <= 1 && (event != [] ==> IsNumber(event[0]))
  {
    if minus then
      if -n >= INT32_MIN then [Int(-n)] else if -n >= INT64_MIN then [Int64(-n)] else []
    else
      if n <= UINT32_MAX then [Uint(n)] else if n <= UINT64_MAX then [Uint64(n)] else []
  }

  // Behind an optional fraction, or where its first digit is missing.
  function AfterFraction(r: Bytes): (scan: Scan)
    ensures scan.Scanned? ==> |scan.rest| <= |r|
  {
    if Peek(r) != DOT then Scanned([], r)
    else
      var n := DigitCount(r[1..]);
      if n == 0 then Bad(NumberMissFraction, |r| - 1) else Scanned(r[..1 + n], r[1 + n..])
  }

  function AfterSign(r: Bytes): (rest: Bytes)
    ensures |rest| <= |r|
  {
    if Peek(r) == PLUS || Peek(r) == MINUS then r[1..] else r
  }

  function AfterExponent(r: Bytes): (scan: Scan)
    ensures scan.Scanned? ==> |scan.rest| <= |r|
  {
    if Peek(r) != LOWER_E && Peek(r) != UPPER_E then Scanned([], r)
    else
      var digits := AfterSign(r[1..]);
      var n := DigitCount(digits);
      if n == 0 then Bad(NumberMissExponent, |digits|)
      else Scanned(r[..|r| - |digits| + n], digits[n..])
  }

  // What follows the integer part: its text is empty for an integer.
  function AfterTail(r: Bytes): (scan: Scan)
    ensures scan.Scanned? ==> |scan.rest| <= |r|
  {
    match AfterFraction(r)
    case Bad(code, left) => Bad(code, left)
    case Scanned(fraction, rest) => Prepend(fraction, AfterExponent(rest))
  }

  // The integer part is a zero or all the digits there are.
  function IntegerLength(r: Bytes): (n: nat)
    requires IsDigit(Peek(r))
    ensures 1 <= n <= |r| && forall i | 0 <= i < n :: IsDigit(r[i])
  {
    if Peek(r) == ZERO then 1 else DigitCount(r)
  }

  // A literal taken apart: the event of its integer part if it fits 64 bits, whether a fraction or
  // exponent follows, and what is left behind it.
  datatype Literal =
    | Literal(integer: seq<Event>, hasTail: bool, rest: Bytes)
    | BadLiteral(code: LexicalError, left: nat)

  // The literal behind its sign.
  function Unsigned(minus: bool, r: Bytes): (lit: Literal)
    ensures lit.Literal? ==> |lit.rest| < |r| && |lit.integer| <= 1 && (lit.integer != [] ==> IsNumber(lit.integer[0]))
  {
    if !IsDigit(Peek(r)) then BadLiteral(ValueInvalid, |r|)
    else
      var n := IntegerLength(r);
      match AfterTail(r[n..])
      case Bad(code, left) => BadLiteral(code, left)
      case Scanned(tail, rest) => Literal(LiteralEvent(minus, Decimal(r[..n])), tail != [], rest)
  }

  function SplitNumber(r: Bytes): (lit: Literal)
    ensures lit.Literal? ==> |lit.rest| < |r| && |lit.integer| <= 1 && (lit.integer != [] ==> IsNumber(lit.integer[0]))
  {
    if Peek(r) == MINUS then Unsigned(true, r[1..]) else Unsigned(false, r)
  }

  // The event for a literal at the front of r.
  function ChooseEvent(overflows: Bytes -> bool, r: Bytes, lit: Literal): (num: Numeral)
    requires lit.Literal? ==> |lit.rest| < |r| && |lit.integer| <= 1 && (lit.integer != [] ==> IsNumber(lit.integer[0]))
    ensures num.Numeral? ==> |num.rest| < |r| && IsNumber(num.event)
  {
    match lit
    case BadLiteral(code, left) => BadNumeral(code, left)
    case Literal(integer, hasTail, rest) =>
      if !hasTail && integer != [] then Numeral(integer[0], rest)
      else if overflows(r[..|r| - |rest|]) then BadNumeral(NumberTooBig, |r|)
      else Numeral(Double(r[..|r| - |rest|]), rest)
  }

  // ParseNumber. Whether a literal that is not an integer of at most 64 bits overflows a double is
  // the parameter's answer.
  function ScanNumber(overflows: Bytes -> bool, r: Bytes): (num: Numeral)
    ensures num.Numeral? ==> |num.rest| < |r| && IsNumber(num.event)
  {
    ChooseEvent(overflows, r, SplitNumber(r))
  }
}
