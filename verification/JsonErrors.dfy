/** Where and why a string or a number is refused: exactly the fault that stands behind what is well formed. */
module JsonErrors {
  import opened BigIntBytes
  import opened JsonTree
  import opened JsonText
  import opened JsonGrammar
  import opened JsonSpelling
  import opened JsonLanguage

  // ---------------------------------------------------------------------------
  // Strings.

  predicate Begins(r: Bytes, front: Bytes) {
    |front| <= |r| && r[..|front|] == front
  }

  predicate High(u: Unit) {
    0xD800 <= UnitValue(u) <= 0xDBFF
  }

  predicate Low(u: Unit) {
    0xDC00 <= UnitValue(u) <= 0xDFFF
  }

  // An escape of a code unit that lacks a hexadecimal digit.
  ghost predicate NoUnit(r: Bytes) {
    Begins(r, [0x5C, 0x75]) && forall u: Unit :: !Begins(r, SpelledUnit(u))
  }

  // A string cannot go on with r, and this is why.
  ghost predicate StringFault(r: Bytes, code: ParseError) {
    match code
    case StringMissQuotationMark => r == [] || r[0] == 0
    case StringInvalidEncoding => r != [] && 0 < r[0] < 0x20
    case StringEscapeInvalid =>
      r != [] && r[0] == 0x5C && (|r| == 1 || r[1] !in {0x22, 0x5C, 0x2F, 0x62, 0x66, 0x6E, 0x72, 0x74, 0x75})
    case StringUnicodeEscapeInvalidHex =>
      NoUnit(r) || exists u: Unit :: High(u) && Begins(r, SpelledUnit(u)) && NoUnit(r[6..])
    case StringUnicodeSurrogateInvalid =>
      exists u: Unit :: Begins(r, SpelledUnit(u)) && (Low(u) || (High(u) && LacksLow(r[6..])))
    case _ => false
  }

  // No escape of a code unit follows, or that of one that is no low surrogate.
  ghost predicate LacksLow(r: Bytes) {
    !Begins(r, [0x5C, 0x75]) || exists v: Unit :: Begins(r, SpelledUnit(v)) && !Low(v)
  }

  lemma UnitBegins(r: Bytes, u: Unit)
    requires Begins(r, SpelledUnit(u))
    ensures r[0] == BACKSLASH && r[1] == LOWER_U && Hex4(r[2..]) == UnitValue(u) && |r| >= 6
    ensures Begins(r, [0x5C, 0x75])
  {
    assert r == r[..6] + r[6..];
    UnitRead(u, r[6..]);
    assert r[..2] == r[..6][..2];
  }

  lemma NoDigits(r: Bytes)
    ensures NoUnit(r) ==> Hex4(r[2..]) < 0
    ensures Begins(r, [0x5C, 0x75]) && Hex4(r[2..]) < 0 ==> NoUnit(r)
  {
    if Begins(r, [0x5C, 0x75]) {
      assert r[..2][0] == r[0] && r[..2][1] == r[1];
      if Hex4(r[2..]) >= 0 {
        var u := UnitTaken(r);
        assert Begins(r, SpelledUnit(u));
      } else {
        forall u: Unit | Begins(r, SpelledUnit(u)) ensures false { UnitBegins(r, u); }
      }
    }
  }

  // A code unit can be told from its text.
  lemma OneUnit(r: Bytes, u: Unit, v: Unit)
    requires Begins(r, SpelledUnit(u)) && Begins(r, SpelledUnit(v))
    ensures UnitValue(u) == UnitValue(v)
  {
    UnitBegins(r, u);
    UnitBegins(r, v);
  }

  lemma BeginsEscape(r: Bytes)
    ensures Begins(r, [0x5C, 0x75]) <==> |r| >= 2 && r[0] == BACKSLASH && r[1] == LOWER_U
  {
    if |r| >= 2 { assert r[..2] == [r[0], r[1]]; }
  }

  // What the reader makes of a high surrogate, by what stands behind it.
  lemma PairRefused(r: Bytes, u: Unit)
    requires Begins(r, SpelledUnit(u)) && High(u)
    ensures NoUnit(r[6..]) ==> ScanCodepoint(r) == Bad(StringUnicodeEscapeInvalidHex, |r|)
    ensures LacksLow(r[6..]) ==> ScanCodepoint(r) == Bad(StringUnicodeSurrogateInvalid, |r|)
    ensures !NoUnit(r[6..]) && !LacksLow(r[6..]) ==> ScanCodepoint(r).Scanned?
  {
    var behind := r[6..];
    UnitBegins(r, u);
    if |behind| >= 2 { assert r[7..] == behind[1..] && r[8..] == behind[2..]; }
    NoDigits(behind);
    BeginsEscape(behind);
    if Begins(behind, [0x5C, 0x75]) {
      if !NoUnit(behind) {
        var v: Unit :| Begins(behind, SpelledUnit(v));
        UnitBegins(behind, v);
        if LacksLow(behind) {
          var w: Unit :| Begins(behind, SpelledUnit(w)) && !Low(w);
          OneUnit(behind, v, w);
        }
      }
    }
  }

  // The same for any code unit.
  lemma UnitRefused(r: Bytes, u: Unit)
    requires Begins(r, SpelledUnit(u))
    ensures ScanCodepoint(r) ==
            if Low(u) || (High(u) && LacksLow(r[6..])) then Bad(StringUnicodeSurrogateInvalid, |r|)
            else if High(u) && NoUnit(r[6..]) then Bad(StringUnicodeEscapeInvalidHex, |r|)
            else ScanCodepoint(r)
    ensures ScanCodepoint(r).Bad? <==> Low(u) || (High(u) && (LacksLow(r[6..]) || NoUnit(r[6..])))
  {
    UnitBegins(r, u);
    if High(u) { PairRefused(r, u); }
  }

  // With a code unit in front there is no other fault.
  lemma UnitFaults(r: Bytes, u: Unit, code: ParseError)
    requires Begins(r, SpelledUnit(u))
    ensures StringFault(r, code) <==>
              || (code.StringUnicodeSurrogateInvalid? && (Low(u) || (High(u) && LacksLow(r[6..]))))
              || (code.StringUnicodeEscapeInvalidHex? && High(u) && NoUnit(r[6..]))
  {
    UnitBegins(r, u);
    forall v: Unit | Begins(r, SpelledUnit(v)) ensures UnitValue(v) == UnitValue(u) { OneUnit(r, u, v); }
  }

  // A low surrogate is missing in one way only.
  lemma OneWay(r: Bytes)
    ensures !(NoUnit(r) && LacksLow(r))
  {
  }

  lemma CodepointRefused(r: Bytes, code: ParseError)
    requires Begins(r, [0x5C, 0x75]) && !code.Termination?
    ensures ScanCodepoint(r) == Bad(code, |r|) <==> StringFault(r, code)
    ensures ScanCodepoint(r).Bad? ==> ScanCodepoint(r).left == |r|
  {
    BeginsEscape(r);
    NoDigits(r);
    if !NoUnit(r) {
      var u: Unit :| Begins(r, SpelledUnit(u));
      UnitRefused(r, u);
      UnitFaults(r, u, code);
      if |r| >= 6 { OneWay(r[6..]); }
    }
  }

  lemma EscapeRefused(r: Bytes, code: ParseError)
    requires r != [] && r[0] == BACKSLASH && !code.Termination?
    ensures ScanEscape(r) == Bad(code, |r|) <==> StringFault(r, code)
    ensures ScanEscape(r).Bad? ==> ScanEscape(r).left == |r|
  {
    if |r| > 1 && r[1] == LOWER_U {
      assert r[..2] == [0x5C, 0x75];
      CodepointRefused(r, code);
    } else {
      forall u: Unit | Begins(r, SpelledUnit(u)) ensures false { UnitBegins(r, u); }
      BeginsEscape(r);
    }
  }

  // A fault at the front.
  lemma FaultAtOnce(r: Bytes, code: ParseError)
    requires !code.Termination? && StringFault(r, code)
    ensures ScanString(r) == Bad(code, |r|)
  {
    if r != [] && r[0] == BACKSLASH {
      EscapeRefused(r, code);
    } else {
      forall u: Unit | Begins(r, SpelledUnit(u)) ensures false { UnitBegins(r, u); }
      BeginsEscape(r);
    }
  }

  lemma {:induction false} FaultBehind(xs: seq<Char>, bad: Bytes, code: ParseError)
    requires ProperChars(xs) && !code.Termination? && StringFault(bad, code)
    ensures ScanString(SpelledChars(xs) + bad) == Bad(code, |bad|)
  {
    if xs == [] {
      assert [] + bad == bad;
      FaultAtOnce(bad, code);
    } else {
      FaultBehind(xs[1..], bad, code);
      CharRead(xs[0], SpelledChars(xs[1..]) + bad);
      TwoInFront(SpelledChar(xs[0]), SpelledChars(xs[1..]), bad);
    }
  }

  lemma {:induction false} FaultFound(r: Bytes) returns (xs: seq<Char>, bad: Bytes)
    requires ScanString(r).Bad?
    ensures var scan := ScanString(r);
            ProperChars(xs) && r == SpelledChars(xs) + bad && |bad| == scan.left && StringFault(bad, scan.code)
    decreases |r|
  {
    if Peek(r) == BACKSLASH {
      if ScanEscape(r).Bad? {
        EscapeRefused(r, ScanEscape(r).code);
        xs, bad := [], r;
      } else {
        var x := EscapeTaken(r);
        var others, behind := FaultFound(ScanEscape(r).rest);
        xs, bad := [x] + others, behind;
        CharInFront(x, others, behind);
      }
    } else if Peek(r) >= 0x20 {
      var others, behind := FaultFound(r[1..]);
      xs, bad := [Raw(r[0])] + others, behind;
      FirstByte(r);
      CharInFront(Raw(r[0]), others, behind);
    } else {
      xs, bad := [], r;
    }
  }

  /** The inside of a string is refused with a code and a place exactly if characters are followed there by the
      fault of that code. */
  lemma StringRefused(r: Bytes, code: ParseError, left: nat)
    requires !code.Termination?
    ensures ScanString(r) == Bad(code, left) <==>
              exists xs, bad ::
                ProperChars(xs) && StringFault(bad, code) && |bad| == left && r == SpelledChars(xs) + bad
  {
    if ScanString(r) == Bad(code, left) {
      var xs, bad := FaultFound(r);
    }
    forall xs, bad | ProperChars(xs) && StringFault(bad, code) && |bad| == left && r == SpelledChars(xs) + bad
      ensures ScanString(r) == Bad(code, left)
    {
      FaultBehind(xs, bad, code);
    }
  }

  // ---------------------------------------------------------------------------
  // Numbers.

  predicate NoDigitAt(r: Bytes) {
    r == [] || r[0] < 0x30 || r[0] > 0x39
  }

  // A number as far as its integer part, its fraction or its exponent's sign: the next part lacks its digits.
  datatype Begun =
    | SignOnly(minus: bool)
    | PointBehind(integer: Number)
    | MarkBehind(number: Number, upper: bool, sign: Sign)

  predicate ProperBegun(b: Begun) {
    match b
    case SignOnly(_) => true
    case PointBehind(n) => ProperNumber(n) && n.fraction == [] && n.exponent.NoExponent?
    case MarkBehind(n, _, _) => ProperNumber(n) && n.exponent.NoExponent?
  }

  function SpelledBegun(b: Begun): Bytes {
    match b
    case SignOnly(minus) => if minus then [0x2D] else []
    case PointBehind(n) => SpelledNumber(n) + [0x2E]
    case MarkBehind(n, upper, sign) => SpelledNumber(n) + ([if upper then 0x45 else 0x65] + SpelledSign(sign))
  }

  function MissingPart(b: Begun): LexicalError {
    match b case SignOnly(_) => ValueInvalid case PointBehind(_) => NumberMissFraction
            case MarkBehind(_, _, _) => NumberMissExponent
  }

  // What stands behind is no digit, nor a sign that would still belong to it.
  predicate Lacks(b: Begun, bad: Bytes) {
    && NoDigitAt(bad)
    && (b == SignOnly(false) ==> bad == [] || bad[0] != 0x2D)
    && (b.MarkBehind? && b.sign == Sign.Unsigned ==> bad == [] || (bad[0] != 0x2B && bad[0] != 0x2D))
  }

  lemma FractionLacks(bad: Bytes)
    requires NoDigitAt(bad)
    ensures AfterTail([DOT] + bad) == Bad(NumberMissFraction, |bad|)
  {
    Uncons(DOT, bad);
  }

  lemma ExponentLacks(b: Begun, bad: Bytes)
    requires b.MarkBehind? && Lacks(b, bad)
    ensures AfterExponent([if b.upper then UPPER_E else LOWER_E] + SpelledSign(b.sign) + bad)
            == Bad(NumberMissExponent, |bad|)
  {
    var mark: byte := if b.upper then UPPER_E else LOWER_E;
    TwoInFront([mark], SpelledSign(b.sign), bad);
    Uncons(mark, SpelledSign(b.sign) + bad);
    SignSkipped(b.sign, bad);
  }

  lemma SignSkipped(sign: Sign, bad: Bytes)
    requires sign == Sign.Unsigned ==> bad == [] || (bad[0] != PLUS && bad[0] != MINUS)
    ensures AfterSign(SpelledSign(sign) + bad) == bad
  {
    match sign
    case Unsigned => assert [] + bad == bad;
    case Plus => Uncons(PLUS, bad);
    case Minus => Uncons(MINUS, bad);
  }

  // The digits of the integer part, in front of anything else.
  lemma IntegerThen(n: Number, tail: Bytes)
    requires ProperNumber(n) && NoDigitAt(tail)
    ensures JsonText.Unsigned(n.minus, SpelledDigits(n.integer) + tail)
            == match AfterTail(tail)
               case Bad(code, left) => BadLiteral(code, left)
               case Scanned(text, rest) => Literal(LiteralEvent(n.minus, ValueOf(n.integer)), text != [], rest)
  {
    var digits := SpelledDigits(n.integer);
    var r := digits + tail;
    DigitsCounted(digits, tail);
    DecimalSpelled(n.integer);
    assert r[0] == digits[0] && (digits[0] == ZERO <==> n.integer[0] == 0);
    assert IntegerLength(r) == |digits|;
    SplitAt(digits, tail);
  }

  lemma SignThen(n: Number, tail: Bytes)
    requires ProperNumber(n)
    ensures SplitNumber((if n.minus then [MINUS] else []) + (SpelledDigits(n.integer) + tail))
            == JsonText.Unsigned(n.minus, SpelledDigits(n.integer) + tail)
  {
    var r := SpelledDigits(n.integer) + tail;
    assert r[0] == SpelledDigits(n.integer)[0];
    if n.minus {
      Uncons(MINUS, r);
    } else {
      assert [] + r == r;
    }
  }

  lemma MissingIsRefused(b: Begun, bad: Bytes)
    requires ProperBegun(b) && Lacks(b, bad)
    ensures SplitNumber(SpelledBegun(b) + bad) == BadLiteral(MissingPart(b), |bad|)
  {
    match b
    case SignOnly(minus) =>
      if minus { Uncons(MINUS, bad); } else { assert [] + bad == bad; }
    case PointBehind(n) =>
      FractionLacks(bad);
      SignThen(n, [DOT] + bad);
      IntegerThen(n, [DOT] + bad);
      PointText(n, bad);
    case MarkBehind(n, upper, sign) =>
      MarkIsRefused(n, upper, sign, bad);
  }

  lemma PointText(n: Number, bad: Bytes)
    requires n.fraction == [] && n.exponent.NoExponent?
    ensures SpelledNumber(n) + [DOT] + bad
            == (if n.minus then [MINUS] else []) + (SpelledDigits(n.integer) + ([DOT] + bad))
  {
  }

  lemma MarkText(n: Number, mark: Bytes, bad: Bytes)
    requires n.exponent.NoExponent?
    ensures SpelledNumber(n) + mark + bad
            == (if n.minus then [MINUS] else [])
               + (SpelledDigits(n.integer) + (SpelledFraction(n.fraction) + (mark + bad)))
  {
  }

  lemma MarkIsRefused(n: Number, upper: bool, sign: Sign, bad: Bytes)
    requires ProperBegun(MarkBehind(n, upper, sign)) && Lacks(MarkBehind(n, upper, sign), bad)
    ensures SplitNumber(SpelledBegun(MarkBehind(n, upper, sign)) + bad) == BadLiteral(NumberMissExponent, |bad|)
  {
    var mark := [if upper then UPPER_E else LOWER_E] + SpelledSign(sign);
    var tail := SpelledFraction(n.fraction) + (mark + bad);
    ExponentLacks(MarkBehind(n, upper, sign), bad);
    assert (mark + bad)[0] == mark[0];
    FractionRead(n.fraction, mark + bad);
    FractionStarts(n.fraction, mark + bad);
    SignThen(n, tail);
    IntegerThen(n, tail);
    MarkText(n, mark, bad);
  }

  lemma FractionStarts(ds: seq<Digit>, rest: Bytes)
    requires NoDigitAt(rest)
    ensures NoDigitAt(SpelledFraction(ds) + rest)
  {
    if ds == [] { assert [] + rest == rest; }
  }

  lemma MissingFound(r: Bytes) returns (b: Begun, bad: Bytes)
    requires SplitNumber(r).BadLiteral?
    ensures ProperBegun(b) && Lacks(b, bad) && r == SpelledBegun(b) + bad
    ensures SplitNumber(r) == BadLiteral(MissingPart(b), |bad|)
  {
    var minus := Peek(r) == MINUS;
    var r1 := if minus then r[1..] else r;
    var sign: Bytes := if minus then [MINUS] else [];
    assert r == sign + r1;
    if !IsDigit(Peek(r1)) {
      b, bad := SignOnly(minus), r1;
    } else {
      var k := IntegerLength(r1);
      var ds := DigitsTaken(r1, k);
      assert |ds| > 1 ==> SpelledDigits(ds)[0] == r1[0];
      var n := Number(minus, ds, [], NoExponent);
      var found, behind := PartFound(n, r1[k..]);
      IntegerRefused(minus, r1);
      b, bad := found, behind;
    }
    MissingIsRefused(b, bad);
  }

  lemma IntegerRefused(minus: bool, r: Bytes)
    requires IsDigit(Peek(r))
    ensures AfterTail(r[IntegerLength(r)..]).Scanned? ==> JsonText.Unsigned(minus, r).Literal?
  {
  }

  // What is missing behind the integer part.
  lemma PartFound(n: Number, tail: Bytes) returns (b: Begun, bad: Bytes)
    requires ProperNumber(n) && n.fraction == [] && n.exponent.NoExponent? && AfterTail(tail).Bad?
    ensures ProperBegun(b) && Lacks(b, bad)
    ensures SpelledBegun(b) + bad == (if n.minus then [MINUS] else []) + (SpelledDigits(n.integer) + tail)
  {
    if AfterFraction(tail).Bad? {
      b, bad := PointBehind(n), tail[1..];
      assert tail == [DOT] + bad;
      PointText(n, bad);
    } else {
      var fraction := FractionTaken(tail);
      var rest := AfterFraction(tail).rest;
      var sign := if Peek(rest[1..]) == PLUS then Plus else if Peek(rest[1..]) == MINUS then Minus else Sign.Unsigned;
      var m := n.(fraction := fraction);
      var upper := rest[0] == UPPER_E;
      b, bad := MarkBehind(m, upper, sign), AfterSign(rest[1..]);
      ExponentMark(rest, upper, sign, bad);
      MarkText(m, [rest[0]] + SpelledSign(sign), bad);
    }
  }

  lemma ExponentMark(rest: Bytes, upper: bool, sign: Sign, bad: Bytes)
    requires AfterExponent(rest).Bad? && upper == (rest[0] == UPPER_E) && bad == AfterSign(rest[1..])
    requires sign == if Peek(rest[1..]) == PLUS then Plus else if Peek(rest[1..]) == MINUS then Minus else Sign.Unsigned
    ensures rest == [rest[0]] + SpelledSign(sign) + bad && rest[0] == if upper then UPPER_E else LOWER_E
    ensures NoDigitAt(bad)
  {
    FirstByte(rest);
    SignInFrontOf(rest[1..], sign);
    TwoInFront([rest[0]], SpelledSign(sign), bad);
  }

  lemma SignInFrontOf(r: Bytes, sign: Sign)
    requires sign == if Peek(r) == PLUS then Plus else if Peek(r) == MINUS then Minus else Sign.Unsigned
    ensures r == SpelledSign(sign) + AfterSign(r)
  {
    match sign
    case Unsigned => assert [] + r == r;
    case Plus => FirstByte(r);
    case Minus => FirstByte(r);
  }

  /** A number is refused for a missing part, at a place, exactly if that part is missing there. */
  lemma NumberRefused(overflows: Bytes -> bool, r: Bytes, code: LexicalError, left: nat)
    requires !code.NumberTooBig?
    ensures ScanNumber(overflows, r) == BadNumeral(code, left) <==>
              exists b, bad :: ProperBegun(b) && Lacks(b, bad) && r == SpelledBegun(b) + bad
                               && code == MissingPart(b) && left == |bad|
  {
    if ScanNumber(overflows, r) == BadNumeral(code, left) {
      var b, bad := MissingFound(r);
      MissingIsRefused(b, bad);
    }
    forall b, bad | ProperBegun(b) && Lacks(b, bad) && r == SpelledBegun(b) + bad
                    && code == MissingPart(b) && left == |bad|
      ensures ScanNumber(overflows, r) == BadNumeral(code, left)
    {
      MissingIsRefused(b, bad);
    }
  }

  /** A number is refused as too big, at its beginning, only if it is a double that overflows. */
  lemma TooBig(overflows: Bytes -> bool, r: Bytes) returns (n: Number, rest: Bytes)
    requires ScanNumber(overflows, r).BadNumeral? && ScanNumber(overflows, r).code.NumberTooBig?
    ensures ScanNumber(overflows, r).left == |r|
    ensures ProperNumber(n) && r == SpelledNumber(n) + rest
    ensures NumberEvent(n).Double? && overflows(SpelledNumber(n))
  {
    NeverTooBig(r);
    n := SplitTaken(r);
    rest := SplitNumber(r).rest;
    if n.fraction == [] && n.exponent.NoExponent? { IntegerIsSaid(n); }
  }

  lemma NeverTooBig(r: Bytes)
    ensures SplitNumber(r).BadLiteral? ==> !SplitNumber(r).code.NumberTooBig?
  {
    if SplitNumber(r).BadLiteral? {
      var b, bad := MissingFound(r);
    }
  }

  /** And always if it is, where no digit, fraction or exponent goes on behind it. */
  lemma OverflowRefused(overflows: Bytes -> bool, n: Number, rest: Bytes)
    requires ProperNumber(n) && Delimited(rest) && NumberEvent(n).Double? && overflows(SpelledNumber(n))
    ensures var r := SpelledNumber(n) + rest; ScanNumber(overflows, r) == BadNumeral(NumberTooBig, |r|)
  {
    NumberSplit(n, rest);
    if n.fraction == [] && n.exponent.NoExponent? { IntegerIsSaid(n); }
  }
}
