/** Every text that the reader takes is spelled by the grammar, so that it accepts exactly that language. */
module JsonLanguage {
  import opened BigIntBytes
  import opened JsonTree
  import opened JsonText
  import opened JsonReader
  import opened JsonGrammar
  import opened JsonSpelling
  import opened Unicode

  lemma {:induction false} SpacesTaken(r: Bytes) returns (gap: Bytes)
    ensures Blank(gap) && r == gap + SkipSpaces(r)
  {
    if IsSpace(Peek(r)) {
      var rest := SpacesTaken(r[1..]);
      gap := [r[0]] + rest;
      assert r == [r[0]] + r[1..];
    } else {
      gap := [];
    }
  }

  // ---------------------------------------------------------------------------
  // Strings.

  function HexOf(c: byte): Hex
    requires HexDigit(c) >= 0
    ensures HexOf(c).value == HexDigit(c) && SpelledHex(HexOf(c)) == c
  {
    Hex(HexDigit(c), c >= 0x61)
  }

  lemma UnitTaken(r: Bytes) returns (u: Unit)
    requires |r| >= 2 && r[0] == BACKSLASH && r[1] == LOWER_U && Hex4(r[2..]) >= 0
    ensures |r| >= 6 && r == SpelledUnit(u) + r[6..] && UnitValue(u) == Hex4(r[2..])
  {
    var d := r[2..];
    assert forall i | 0 <= i < 4 :: HexDigit(d[i]) >= 0;
    u := [HexOf(d[0]), HexOf(d[1]), HexOf(d[2]), HexOf(d[3])];
    assert r[..6] == SpelledUnit(u);
    assert r == r[..6] + r[6..];
  }

  lemma CodepointTaken(r: Bytes) returns (x: Char)
    requires |r| >= 2 && r[0] == BACKSLASH && r[1] == LOWER_U && ScanCodepoint(r).Scanned?
    ensures var scan := ScanCodepoint(r);
            ProperChar(x) && r == SpelledChar(x) + scan.rest && CharText(x) == scan.text
  {
    var high := UnitTaken(r);
    var h := UnitValue(high);
    if h < 0xD800 || h > 0xDFFF {
      x := Escape(high);
    } else {
      assert r[7..] == r[6..][1..] && r[8..] == r[6..][2..];
      var low := UnitTaken(r[6..]);
      TenBits(h, UnitValue(low));
      x := Pair(high, low);
      assert r[12..] == r[6..][6..];
      assert r == SpelledUnit(high) + (SpelledUnit(low) + r[12..]);
    }
  }

  lemma EscapeTaken(r: Bytes) returns (x: Char)
    requires r != [] && r[0] == BACKSLASH && ScanEscape(r).Scanned?
    ensures var scan := ScanEscape(r);
            ProperChar(x) && r == SpelledChar(x) + scan.rest && CharText(x) == scan.text
  {
    var e := Peek(r[1..]);
    if Unescaped(e) != 0 {
      x := Short(Unescaped(e));
      assert r == [BACKSLASH, e] + r[2..];
    } else {
      x := CodepointTaken(r);
    }
  }

  lemma {:induction false} CharsTaken(r: Bytes) returns (xs: seq<Char>)
    requires ScanString(r).Scanned?
    ensures var scan := ScanString(r);
            ProperChars(xs) && r == SpelledChars(xs) + ([QUOTE] + scan.rest) && CharsText(xs) == scan.text
    decreases |r|
  {
    if Peek(r) == QUOTE {
      xs := [];
      assert r == [QUOTE] + r[1..];
    } else {
      var x, rest := Raw(Peek(r)), r[1..];
      if Peek(r) == BACKSLASH {
        x := EscapeTaken(r);
        rest := ScanEscape(r).rest;
      } else {
        assert r == [r[0]] + r[1..];
      }
      var others := CharsTaken(rest);
      xs := [x] + others;
      CharInFront(x, others, [QUOTE] + ScanString(rest).rest);
    }
  }

  lemma CharInFront(x: Char, xs: seq<Char>, r: Bytes)
    requires ProperChar(x) && ProperChars(xs)
    ensures ProperChars([x] + xs) && CharsText([x] + xs) == CharText(x) + CharsText(xs)
    ensures SpelledChars([x] + xs) + r == SpelledChar(x) + (SpelledChars(xs) + r)
  {
    assert ([x] + xs)[1..] == xs;
  }

  lemma StringTextTaken(r: Bytes) returns (xs: seq<Char>)
    requires Peek(r) == QUOTE && ScanString(r[1..]).Scanned?
    ensures var scan := ScanString(r[1..]);
            ProperChars(xs) && r == SpelledString(xs) + scan.rest && CharsText(xs) == scan.text
  {
    xs := CharsTaken(r[1..]);
    assert r == [QUOTE] + r[1..];
  }

  // ---------------------------------------------------------------------------
  // Numbers.

  function DigitsOf(digits: Bytes): (ds: seq<Digit>)
    requires forall i | 0 <= i < |digits| :: IsDigit(digits[i])
    ensures |ds| == |digits| && SpelledDigits(ds) == digits
  {
    seq(|digits|, i requires 0 <= i < |digits| => DigitValue(digits[i]))
  }

  // The digits at the front of r.
  lemma DigitsTaken(r: Bytes, n: nat) returns (ds: seq<Digit>)
    requires n <= |r| && forall i | 0 <= i < n :: IsDigit(r[i])
    ensures |ds| == n && r == SpelledDigits(ds) + r[n..] && SpelledDigits(ds) == r[..n]
  {
    ds := DigitsOf(r[..n]);
    assert r == r[..n] + r[n..];
  }

  lemma FractionTaken(r: Bytes) returns (ds: seq<Digit>)
    requires AfterFraction(r).Scanned?
    ensures var scan := AfterFraction(r); r == SpelledFraction(ds) + scan.rest && scan.text == SpelledFraction(ds)
  {
    if Peek(r) != DOT {
      ds := [];
    } else {
      ds := DigitsTaken(r[1..], DigitCount(r[1..]));
      FractionSpelled(r, ds, r[1 + DigitCount(r[1..])..]);
    }
  }

  lemma FractionSpelled(r: Bytes, ds: seq<Digit>, behind: Bytes)
    requires Peek(r) == DOT && ds != [] && r[1..] == SpelledDigits(ds) + behind
    ensures r == SpelledFraction(ds) + behind && r[..1 + |ds|] == SpelledFraction(ds)
  {
    assert r == [DOT] + r[1..];
    TwoInFront([DOT], SpelledDigits(ds), behind);
    SplitAt(SpelledFraction(ds), behind);
  }

  lemma SignTaken(r: Bytes) returns (sign: Sign)
    ensures r == SpelledSign(sign) + AfterSign(r)
  {
    if Peek(r) == PLUS {
      sign := Plus;
    } else if Peek(r) == MINUS {
      sign := Minus;
    } else {
      sign := JsonGrammar.Unsigned;
    }
  }

  lemma ExponentSpelled(r: Bytes, sign: Sign, ds: seq<Digit>, behind: Bytes)
    requires r != [] && (r[0] == LOWER_E || r[0] == UPPER_E)
    requires r[1..] == SpelledSign(sign) + (SpelledDigits(ds) + behind)
    ensures var e := Exponent(r[0] == UPPER_E, sign, ds);
            r == SpelledExponent(e) + behind && r[..|r| - |behind|] == SpelledExponent(e)
  {
    var e := Exponent(r[0] == UPPER_E, sign, ds);
    assert r == [r[0]] + r[1..];
    SplitAt(SpelledExponent(e), behind);
    assert r == SpelledExponent(e) + behind;
  }

  lemma ExponentTaken(r: Bytes) returns (e: Exponent)
    requires AfterExponent(r).Scanned?
    ensures var scan := AfterExponent(r);
            && r == SpelledExponent(e) + scan.rest && scan.text == SpelledExponent(e)
            && (e.Exponent? ==> e.digits != [])
  {
    if Peek(r) != LOWER_E && Peek(r) != UPPER_E {
      e := NoExponent;
    } else {
      var digits := AfterSign(r[1..]);
      var n := DigitCount(digits);
      var sign := SignTaken(r[1..]);
      var ds := DigitsTaken(digits, n);
      ExponentParts(r);
      ExponentSpelled(r, sign, ds, digits[n..]);
      e := Exponent(r[0] == UPPER_E, sign, ds);
    }
  }

  lemma TailTaken(r: Bytes) returns (fraction: seq<Digit>, e: Exponent)
    requires AfterTail(r).Scanned?
    ensures var scan := AfterTail(r);
            && r == SpelledFraction(fraction) + SpelledExponent(e) + scan.rest
            && (e.Exponent? ==> e.digits != [])
            && (scan.text == [] <==> fraction == [] && e.NoExponent?)
  {
    fraction := FractionTaken(r);
    e := ExponentTaken(AfterFraction(r).rest);
    Joined(SpelledFraction(fraction), SpelledExponent(e), AfterTail(r).rest);
    assert e.NoExponent? <==> SpelledExponent(e) == [];
  }

  lemma Joined(a: Bytes, b: Bytes, c: Bytes)
    ensures a + (b + c) == a + b + c && (a + b == [] <==> a == [] && b == [])
  {
    assert a + b == [] <==> |a| + |b| == 0;
  }

  lemma UnsignedParts(minus: bool, r: Bytes)
    requires JsonText.Unsigned(minus, r).Literal?
    ensures IsDigit(Peek(r)) && AfterTail(r[IntegerLength(r)..]).Scanned?
    ensures var k := IntegerLength(r);
            var scan := AfterTail(r[k..]);
            && (k > 1 ==> r[0] != ZERO)
            && JsonText.Unsigned(minus, r) == Literal(LiteralEvent(minus, Decimal(r[..k])), scan.text != [], scan.rest)
  {
  }

  lemma UnsignedTaken(minus: bool, r: Bytes) returns (n: Number)
    requires JsonText.Unsigned(minus, r).Literal?
    ensures var lit := JsonText.Unsigned(minus, r);
            && ProperNumber(n) && n.minus == minus
            && r == SpelledDigits(n.integer) + (SpelledFraction(n.fraction) + SpelledExponent(n.exponent) + lit.rest)
            && lit.integer == LiteralEvent(minus, ValueOf(n.integer))
            && lit.hasTail == (n.fraction != [] || n.exponent.Exponent?)
  {
    UnsignedParts(minus, r);
    var k := IntegerLength(r);
    var ds := DigitsTaken(r, k);
    var fraction, e := TailTaken(r[k..]);
    n := Number(minus, ds, fraction, e);
    DecimalSpelled(ds);
    assert SpelledDigits(ds)[0] == r[0];
  }

  lemma SplitTaken(r: Bytes) returns (n: Number)
    requires SplitNumber(r).Literal?
    ensures var lit := SplitNumber(r);
            && ProperNumber(n) && r == SpelledNumber(n) + lit.rest && r[..|r| - |lit.rest|] == SpelledNumber(n)
            && lit.integer == LiteralEvent(n.minus, ValueOf(n.integer))
            && lit.hasTail == (n.fraction != [] || n.exponent.Exponent?)
  {
    n := UnsignedTaken(Peek(r) == MINUS, if Peek(r) == MINUS then r[1..] else r);
    SignInFront(r, n, SplitNumber(r).rest);
  }

  lemma NumberTaken(overflows: Bytes -> bool, r: Bytes) returns (n: Number)
    requires ScanNumber(overflows, r).Numeral?
    ensures var num := ScanNumber(overflows, r);
            && ProperNumber(n) && r == SpelledNumber(n) + num.rest && num.event == NumberEvent(n)
            && (NumberEvent(n).Double? ==> !overflows(SpelledNumber(n)))
  {
    n := SplitTaken(r);
    if n.fraction == [] && n.exponent.NoExponent? { IntegerIsSaid(n); }
  }

  lemma SignInFront(r: Bytes, n: Number, rest: Bytes)
    requires n.minus == (Peek(r) == MINUS)
    requires (if n.minus then r[1..] else r)
             == SpelledDigits(n.integer) + (SpelledFraction(n.fraction) + SpelledExponent(n.exponent) + rest)
    ensures r == SpelledNumber(n) + rest && r[..|r| - |rest|] == SpelledNumber(n)
  {
    NumberInParts(n, rest);
    if n.minus {
      assert r == [MINUS] + r[1..];
    } else {
      assert [] + r == r;
    }
    SplitAt(SpelledNumber(n), rest);
  }

  // ---------------------------------------------------------------------------
  // Values. `Takes` is what is shown of every one: its tree, its text and its events.

  ghost predicate Takes(env: Env, trace: seq<Event>, r: Bytes, g: Syntax, o: Outcome) {
    && ProperValue(g) && InRange(env.overflows, g)
    && r == Spelled(g) + o.rest && o.trace == trace + Said(g)
  }

  lemma WordTaken(env: Env, trace: seq<Event>, r: Bytes, word: Bytes, e: Event)
    requires word != [] && ParseWord(env, trace, r, word, e).failure.Clear?
    ensures var o := ParseWord(env, trace, r, word, e); r == word + o.rest && o.trace == trace + [e]
  {
    var n := Matched(r, word);
    assert r == r[..n] + r[n..] && word[..n] == word;
  }

  lemma StringValueTaken(env: Env, trace: seq<Event>, r: Bytes) returns (g: Syntax)
    requires Peek(r) == QUOTE && ParseString(env, trace, r, false).failure.Clear?
    ensures Takes(env, trace, r, g, ParseString(env, trace, r, false))
  {
    var xs := StringTextTaken(r);
    g := StringOf(xs);
  }

  lemma NumberParsed(env: Env, trace: seq<Event>, r: Bytes)
    requires ParseNumber(env, trace, r).failure.Clear?
    ensures var num := ScanNumber(env.overflows, r);
            num.Numeral? && ParseNumber(env, trace, r) == Outcome(trace + [num.event], num.rest, Clear)
  {
  }

  lemma NumberIsTaken(env: Env, trace: seq<Event>, r: Bytes, n: Number, o: Outcome)
    requires ProperNumber(n) && (NumberEvent(n).Double? ==> !env.overflows(SpelledNumber(n)))
    requires r == SpelledNumber(n) + o.rest && o.trace == trace + [NumberEvent(n)]
    ensures Takes(env, trace, r, NumberOf(n), o)
  {
  }

  lemma NumberValueTaken(env: Env, trace: seq<Event>, r: Bytes) returns (g: Syntax)
    requires ParseNumber(env, trace, r).failure.Clear?
    ensures Takes(env, trace, r, g, ParseNumber(env, trace, r))
  {
    NumberParsed(env, trace, r);
    var n := NumberTaken(env.overflows, r);
    g := NumberOf(n);
    NumberIsTaken(env, trace, r, n, ParseNumber(env, trace, r));
  }

  lemma ScalarTaken(env: Env, trace: seq<Event>, r: Bytes) returns (g: Syntax)
    requires IsScalar(Peek(r)) && ParseScalar(env, trace, r).failure.Clear?
    ensures Takes(env, trace, r, g, ParseScalar(env, trace, r))
  {
    if Peek(r) == LOWER_N {
      WordTaken(env, trace, r, NULL_TEXT, Null);
      g := NullWord;
    } else if Peek(r) == LOWER_T {
      WordTaken(env, trace, r, TRUE_TEXT, Bool(true));
      g := TrueWord;
    } else if Peek(r) == LOWER_F {
      WordTaken(env, trace, r, FALSE_TEXT, Bool(false));
      g := FalseWord;
    } else if Peek(r) == QUOTE {
      g := StringValueTaken(env, trace, r);
    } else {
      g := NumberValueTaken(env, trace, r);
    }
  }

  // -------------------------------------------------------------------------
  // Arrays: r holds items up to the closing bracket, behind `count` others.

  ghost predicate TakesItems(env: Env, trace: seq<Event>, r: Bytes, items: seq<Item>, count: nat, o: Outcome) {
    && items != [] && ItemsFit(env.overflows, items)
    && r == SpelledItems(items) + ([RIGHT_BRACKET] + o.rest)
    && o.trace == trace + ItemsSaid(items) + [EndArray((count + |items|) % SIZE_LIMIT)]
  }

  lemma {:induction false} LastItem(env: Env, trace: seq<Event>, r: Bytes, x: Item, count: nat, o: Outcome)
    requires ProperItem(x) && InRange(env.overflows, x.value) && r == SpelledItem(x) + ([RIGHT_BRACKET] + o.rest)
    requires o.trace == trace + Said(x.value) + [EndArray((count + 1) % SIZE_LIMIT)]
    ensures TakesItems(env, trace, r, [x], count, o)
  {
    assert SpelledItems([x]) == SpelledItem(x);
    assert ItemsSaid([x]) == Said(x.value);
  }

  lemma {:induction false} ItemInFront(env: Env, trace: seq<Event>, r: Bytes, x: Item, behind: Bytes,
          items: seq<Item>, count: nat, o: Outcome)
    requires ProperItem(x) && InRange(env.overflows, x.value) && r == SpelledItem(x) + ([COMMA] + behind)
    requires TakesItems(env, trace + Said(x.value), behind, items, (count + 1) % SIZE_LIMIT, o)
    ensures TakesItems(env, trace, r, [x] + items, count, o)
  {
    var all := [x] + items;
    assert all[0] == x && all[1..] == items;
    CountsAdd(count, |items|);
    MorePieces(SpelledItem(x), [COMMA], SpelledItems(items), [RIGHT_BRACKET] + o.rest);
    ItemsTraced(trace, all);
    ItemsTraced(trace + Said(x.value), items);
  }

  lemma MorePieces(a: Bytes, b: Bytes, c: Bytes, d: Bytes)
    ensures (a + (b + c)) + d == a + (b + (c + d)) && a + b + c == a + (b + c)
  {
  }

  lemma {:induction false} ElementTaken(env: Env, trace: seq<Event>, r: Bytes, count: nat)
    returns (x: Item, behind: Bytes)
    requires Elements(env, trace, SkipSpaces(r), count).failure.Clear?
    ensures ProperItem(x) && InRange(env.overflows, x.value)
    ensures r == SpelledItem(x) + behind && |behind| < |r|
    ensures Elements(env, trace, SkipSpaces(r), count) == AfterElement(env, trace + Said(x.value), behind, count)
    decreases |r|, 2
  {
    var r1 := SkipSpaces(r);
    var before := SpacesTaken(r);
    var g := ValueTaken(env, trace, r1);
    var rest := ParseValue(env, trace, r1).rest;
    var after := SpacesTaken(rest);
    x, behind := Item(before, g, after), SkipSpaces(rest);
    ItemText(r, x, r1, rest, behind);
  }

  lemma ItemText(r: Bytes, x: Item, value: Bytes, rest: Bytes, behind: Bytes)
    requires r == x.before + value && value == Spelled(x.value) + rest && rest == x.after + behind
    requires |rest| < |value|
    ensures r == SpelledItem(x) + behind && |behind| < |r|
  {
    FourPieces(x.before, Spelled(x.value), x.after, behind);
  }

  lemma {:induction false} ElementsTaken(env: Env, trace: seq<Event>, r: Bytes, count: nat) returns (items: seq<Item>)
    requires Elements(env, trace, SkipSpaces(r), count).failure.Clear?
    ensures TakesItems(env, trace, r, items, count, Elements(env, trace, SkipSpaces(r), count))
    decreases |r|, 3
  {
    var o := Elements(env, trace, SkipSpaces(r), count);
    var x, behind := ElementTaken(env, trace, r, count);
    assert behind == [Peek(behind)] + behind[1..];
    if Peek(behind) == RIGHT_BRACKET {
      LastItem(env, trace, r, x, count, o);
      items := [x];
    } else {
      var others := ElementsTaken(env, trace + Said(x.value), behind[1..], (count + 1) % SIZE_LIMIT);
      ItemInFront(env, trace, r, x, behind[1..], others, count, o);
      items := [x] + others;
    }
  }

  // Nothing but white space between the brackets.
  lemma EmptyParsed(env: Env, trace: seq<Event>, r: Bytes)
    requires ParseValue(env, trace, r).failure.Clear?
    ensures Peek(r) == LEFT_BRACKET && Peek(SkipSpaces(r[1..])) == RIGHT_BRACKET ==>
              ParseValue(env, trace, r) == Outcome(trace + [StartArray] + [EndArray(0)], SkipSpaces(r[1..])[1..], Clear)
    ensures Peek(r) == LEFT_BRACE && Peek(SkipSpaces(r[1..])) == RIGHT_BRACE ==>
              ParseValue(env, trace, r)
              == Outcome(trace + [StartObject] + [EndObject(0)], SkipSpaces(r[1..])[1..], Clear)
  {
  }

  lemma FirstByte(r: Bytes)
    requires Peek(r) != 0
    ensures r == [Peek(r)] + r[1..]
  {
  }

  lemma EmptySpelled(r: Bytes, open: byte, close: byte) returns (gap: Bytes)
    requires r != [] && Peek(r) == open && Peek(SkipSpaces(r[1..])) == close && open != 0 && close != 0
    ensures Blank(gap) && r == [open] + gap + [close] + SkipSpaces(r[1..])[1..]
  {
    gap := SpacesTaken(r[1..]);
    FirstByte(r);
    FirstByte(SkipSpaces(r[1..]));
    MorePieces([open], gap, [close], SkipSpaces(r[1..])[1..]);
  }

  lemma EmptyTaken(env: Env, trace: seq<Event>, r: Bytes) returns (g: Syntax)
    requires ParseValue(env, trace, r).failure.Clear?
    requires (Peek(r) == LEFT_BRACKET && Peek(SkipSpaces(r[1..])) == RIGHT_BRACKET)
             || (Peek(r) == LEFT_BRACE && Peek(SkipSpaces(r[1..])) == RIGHT_BRACE)
    ensures Takes(env, trace, r, g, ParseValue(env, trace, r))
  {
    EmptyParsed(env, trace, r);
    if Peek(r) == LEFT_BRACKET {
      var gap := EmptySpelled(r, LEFT_BRACKET, RIGHT_BRACKET);
      g := ArrayOf(gap, []);
      assert trace + Said(g) == trace + [StartArray] + [EndArray(0)];
    } else {
      var gap := EmptySpelled(r, LEFT_BRACE, RIGHT_BRACE);
      g := ObjectOf(gap, []);
      assert trace + Said(g) == trace + [StartObject] + [EndObject(0)];
    }
  }

  lemma {:induction false} ArrayTaken(env: Env, trace: seq<Event>, r: Bytes) returns (g: Syntax)
    requires Peek(r) == LEFT_BRACKET && ParseValue(env, trace, r).failure.Clear?
    ensures Takes(env, trace, r, g, ParseValue(env, trace, r))
    decreases |r|, 0
  {
    var o, body := ParseValue(env, trace, r), r[1..];
    if Peek(SkipSpaces(body)) == RIGHT_BRACKET {
      g := EmptyTaken(env, trace, r);
    } else {
      var items := ElementsTaken(env, trace + [StartArray], body, 0);
      g := ArrayOf([], items);
      assert r == [LEFT_BRACKET] + body;
      TraceRegroup(trace, [StartArray], ItemsSaid(items), [EndArray(|items| % SIZE_LIMIT)]);
      MorePieces([LEFT_BRACKET], SpelledItems(items), [RIGHT_BRACKET], o.rest);
    }
  }

  // -------------------------------------------------------------------------
  // Objects.

  ghost predicate TakesFields(env: Env, trace: seq<Event>, r: Bytes, fields: seq<Field>, count: nat, o: Outcome) {
    && fields != [] && FieldsFit(env.overflows, fields)
    && r == SpelledFields(fields) + ([RIGHT_BRACE] + o.rest)
    && o.trace == trace + FieldsSaid(fields) + [EndObject((count + |fields|) % SIZE_LIMIT)]
  }

  lemma {:induction false} LastFieldTaken(env: Env, trace: seq<Event>, r: Bytes, x: Field, count: nat, o: Outcome)
    requires ProperField(x) && InRange(env.overflows, x.value) && r == SpelledField(x) + ([RIGHT_BRACE] + o.rest)
    requires o.trace == trace + FieldSaid(x) + [EndObject((count + 1) % SIZE_LIMIT)]
    ensures TakesFields(env, trace, r, [x], count, o)
  {
    assert SpelledFields([x]) == SpelledField(x);
    assert FieldsSaid([x]) == FieldSaid(x);
  }

  lemma {:induction false} FieldInFront(env: Env, trace: seq<Event>, r: Bytes, x: Field, behind: Bytes,
          fields: seq<Field>, count: nat, o: Outcome)
    requires ProperField(x) && InRange(env.overflows, x.value) && r == SpelledField(x) + ([COMMA] + behind)
    requires TakesFields(env, trace + FieldSaid(x), behind, fields, (count + 1) % SIZE_LIMIT, o)
    ensures TakesFields(env, trace, r, [x] + fields, count, o)
  {
    var all := [x] + fields;
    assert all[0] == x && all[1..] == fields;
    CountsAdd(count, |fields|);
    MorePieces(SpelledField(x), [COMMA], SpelledFields(fields), [RIGHT_BRACE] + o.rest);
    FieldsTraced(trace, all);
    FieldsTraced(trace + FieldSaid(x), fields);
  }

  // A name and the colon behind it: r1 is at the name, r2 at the colon.
  lemma NameThenColon(env: Env, trace: seq<Event>, r1: Bytes, count: nat)
    requires Members(env, trace, r1, count).failure.Clear?
    ensures Peek(r1) == QUOTE && ScanString(r1[1..]).Scanned?
    ensures var r2 := SkipSpaces(ScanString(r1[1..]).rest);
            && Peek(r2) == COLON
            && Members(env, trace, r1, count)
               == MemberValue(env, trace + [Key(ScanString(r1[1..]).text)], SkipSpaces(r2[1..]), count)
  {
  }

  lemma NameTaken(r: Bytes, value: Bytes)
    returns (before: Bytes, name: seq<Char>, beforeColon: Bytes, afterColon: Bytes)
    requires var r1 := SkipSpaces(r);
             && Peek(r1) == QUOTE && ScanString(r1[1..]).Scanned?
             && Peek(SkipSpaces(ScanString(r1[1..]).rest)) == COLON
             && value == SkipSpaces(SkipSpaces(ScanString(r1[1..]).rest)[1..])
    ensures Blank(before) && ProperChars(name) && Blank(beforeColon) && Blank(afterColon)
    ensures r == before + (SpelledString(name) + (beforeColon + ([COLON] + (afterColon + value))))
    ensures CharsText(name) == ScanString(SkipSpaces(r)[1..]).text && |value| <= |r|
  {
    var r1 := SkipSpaces(r);
    before := SpacesTaken(r);
    name := StringTextTaken(r1);
    var rest := ScanString(r1[1..]).rest;
    var r2 := SkipSpaces(rest);
    beforeColon := SpacesTaken(rest);
    afterColon := SpacesTaken(r2[1..]);
    FirstByte(r2);
    FivePieces(r, before, r1, SpelledString(name), rest, beforeColon, r2, [COLON], r2[1..], afterColon, value);
  }

  lemma FivePieces(r: Bytes, a: Bytes, r1: Bytes, b: Bytes, r2: Bytes, c: Bytes, r3: Bytes, d: Bytes,
          r4: Bytes, e: Bytes, r5: Bytes)
    requires r == a + r1 && r1 == b + r2 && r2 == c + r3 && r3 == d + r4 && r4 == e + r5
    ensures r == a + (b + (c + (d + (e + r5)))) && |r5| <= |r|
  {
  }

  lemma ValueThenMore(env: Env, trace: seq<Event>, r: Bytes, count: nat)
    requires MemberValue(env, trace, r, count).failure.Clear?
    ensures var o := ParseValue(env, trace, r);
            && o.failure.Clear?
            && MemberValue(env, trace, r, count) == AfterMember(env, o.trace, SkipSpaces(o.rest), count)
  {
  }

  lemma FieldText(r: Bytes, x: Field, value: Bytes, behind: Bytes)
    requires r == x.before + (SpelledString(x.name) + (x.beforeColon + ([COLON] + (x.afterColon + value))))
    requires value == Spelled(x.value) + (x.after + behind)
    ensures r == SpelledField(x) + behind && |behind| < |r|
  {
    SevenInFront(x.before, SpelledString(x.name), x.beforeColon, [COLON], x.afterColon, Spelled(x.value), x.after,
                 behind);
  }

  // A value and the white space behind it.
  lemma {:induction false} MemberValueTaken(env: Env, trace: seq<Event>, value: Bytes, count: nat)
    returns (g: Syntax, after: Bytes, behind: Bytes)
    requires MemberValue(env, trace, value, count).failure.Clear?
    ensures ProperValue(g) && InRange(env.overflows, g) && Blank(after) && value == Spelled(g) + (after + behind)
    ensures MemberValue(env, trace, value, count) == AfterMember(env, trace + Said(g), behind, count)
    decreases |value|, 2
  {
    ValueThenMore(env, trace, value, count);
    var rest := ParseValue(env, trace, value).rest;
    g := ValueTaken(env, trace, value);
    after := SpacesTaken(rest);
    behind := SkipSpaces(rest);
  }

  lemma TraceAppended(trace: seq<Event>, a: seq<Event>, b: seq<Event>)
    ensures trace + a + b == trace + (a + b)
  {
  }

  lemma {:induction false} MemberTaken(env: Env, trace: seq<Event>, r: Bytes, count: nat)
    returns (x: Field, behind: Bytes)
    requires Members(env, trace, SkipSpaces(r), count).failure.Clear?
    ensures ProperField(x) && InRange(env.overflows, x.value)
    ensures r == SpelledField(x) + behind && |behind| < |r|
    ensures Members(env, trace, SkipSpaces(r), count) == AfterMember(env, trace + FieldSaid(x), behind, count)
    decreases |r|, 3
  {
    NameThenColon(env, trace, SkipSpaces(r), count);
    var scan := ScanString(SkipSpaces(r)[1..]);
    var key, value := [Key(scan.text)], SkipSpaces(SkipSpaces(scan.rest)[1..]);
    var before, name, beforeColon, afterColon := NameTaken(r, value);
    var g, after, rest := MemberValueTaken(env, trace + key, value, count);
    x, behind := Field(before, name, beforeColon, afterColon, g, after), rest;
    FieldText(r, x, value, behind);
    TraceAppended(trace, key, Said(g));
  }

  lemma {:induction false} MembersTaken(env: Env, trace: seq<Event>, r: Bytes, count: nat) returns (fields: seq<Field>)
    requires Members(env, trace, SkipSpaces(r), count).failure.Clear?
    ensures TakesFields(env, trace, r, fields, count, Members(env, trace, SkipSpaces(r), count))
    decreases |r|, 4
  {
    var o := Members(env, trace, SkipSpaces(r), count);
    var x, behind := MemberTaken(env, trace, r, count);
    assert behind == [Peek(behind)] + behind[1..];
    if Peek(behind) == RIGHT_BRACE {
      LastFieldTaken(env, trace, r, x, count, o);
      fields := [x];
    } else {
      var others := MembersTaken(env, trace + FieldSaid(x), behind[1..], (count + 1) % SIZE_LIMIT);
      FieldInFront(env, trace, r, x, behind[1..], others, count, o);
      fields := [x] + others;
    }
  }

  lemma {:induction false} ObjectTaken(env: Env, trace: seq<Event>, r: Bytes) returns (g: Syntax)
    requires Peek(r) == LEFT_BRACE && ParseValue(env, trace, r).failure.Clear?
    ensures Takes(env, trace, r, g, ParseValue(env, trace, r))
    decreases |r|, 0
  {
    var o, body := ParseValue(env, trace, r), r[1..];
    if Peek(SkipSpaces(body)) == RIGHT_BRACE {
      g := EmptyTaken(env, trace, r);
    } else {
      var fields := MembersTaken(env, trace + [StartObject], body, 0);
      g := ObjectOf([], fields);
      assert r == [LEFT_BRACE] + body;
      TraceRegroup(trace, [StartObject], FieldsSaid(fields), [EndObject(|fields| % SIZE_LIMIT)]);
      MorePieces([LEFT_BRACE], SpelledFields(fields), [RIGHT_BRACE], o.rest);
    }
  }

  /** What the reader takes for a value is the text of a value, and what it sends is what that says. */
  lemma {:induction false} ValueTaken(env: Env, trace: seq<Event>, r: Bytes) returns (g: Syntax)
    requires ParseValue(env, trace, r).failure.Clear?
    ensures Takes(env, trace, r, g, ParseValue(env, trace, r))
    decreases |r|, 1
  {
    if Peek(r) == LEFT_BRACKET {
      g := ArrayTaken(env, trace, r);
    } else if Peek(r) == LEFT_BRACE {
      g := ObjectTaken(env, trace, r);
    } else {
      assert IsScalar(Peek(r));
      g := ScalarTaken(env, trace, r);
    }
  }

  lemma FourPieces(a: Bytes, b: Bytes, c: Bytes, d: Bytes)
    ensures a + (b + (c + d)) == a + b + c + d
  {
  }

  lemma DocumentTaken(env: Env, text: Bytes) returns (d: Document)
    requires Parse(env, text).failure.Clear?
    ensures Spells(env.overflows, d, text)
  {
    var r := SkipSpaces(text);
    var before := SpacesTaken(text);
    var g := ValueTaken(env, [], r);
    var rest := ParseValue(env, [], r).rest;
    var after := SpacesTaken(rest);
    d := Document(before, g, after, SkipSpaces(rest));
    FourPieces(before, Spelled(g), after, SkipSpaces(rest));
  }

  /** The language of the reader: under a handler that accepts everything it takes exactly the texts that the
      grammar of RFC 8259 spells, up to a NUL and as long as no double overflows; and it sends what the text says. */
  lemma ExactLanguage(env: Env, text: Bytes)
    requires Accepting(env)
    ensures Parse(env, text).failure.Clear? <==> exists d :: Spells(env.overflows, d, text)
    ensures forall d | Spells(env.overflows, d, text) :: Parse(env, text) == Outcome(Said(d.value), d.unread, Clear)
  {
    if Parse(env, text).failure.Clear? {
      var d := DocumentTaken(env, text);
    }
    forall d | Spells(env.overflows, d, text)
      ensures Parse(env, text) == Outcome(Said(d.value), d.unread, Clear)
    {
      DocumentRead(env, d, text);
    }
  }

  // -------------------------------------------------------------------------
  // Escapes.

  // x spells this scalar value in hexadecimal digits of any case: one code unit, or a surrogate pair above U+FFFF.
  predicate Escapes(x: Char, codepoint: nat) {
    if codepoint <= 0xFFFF then x.Escape? && UnitValue(x.u) == codepoint
    else
      && x.Pair?
      && UnitValue(x.high) == 0xD800 + (codepoint - 0x1_0000) / 0x400
      && UnitValue(x.low) == 0xDC00 + (codepoint - 0x1_0000) % 0x400
  }

  lemma EscapeSays(x: Char, codepoint: nat)
    requires Scalar(codepoint) && Escapes(x, codepoint)
    ensures ProperChar(x) && CharText(x) == Utf8(codepoint)
  {
    if codepoint > 0xFFFF {
      TenBits(UnitValue(x.high), UnitValue(x.low));
    }
  }

  lemma {:induction false} EscapesSay(xs: seq<Char>, codepoints: seq<nat>)
    requires |xs| == |codepoints| && AllScalar(codepoints)
    requires forall i | 0 <= i < |xs| :: Escapes(xs[i], codepoints[i])
    ensures ProperChars(xs) && CharsText(xs) == EncodeAll(codepoints)
  {
    if xs != [] {
      EscapeSays(xs[0], codepoints[0]);
      EscapesSay(xs[1..], codepoints[1..]);
    }
  }

  /** A string of escapes, each four hexadecimal digits of either case or a pair of these, is read as the UTF-8 of
      the scalar values that they spell, whatever these are. */
  lemma EscapesRead(env: Env, xs: seq<Char>, codepoints: seq<nat>)
    requires Accepting(env) && |xs| == |codepoints| && AllScalar(codepoints)
    requires forall i | 0 <= i < |xs| :: Escapes(xs[i], codepoints[i])
    ensures Parse(env, [QUOTE] + SpelledChars(xs) + [QUOTE])
            == Outcome([String(EncodeAll(codepoints))], [], Clear)
  {
    EscapesSay(xs, codepoints);
    var d := Document([], StringOf(xs), [], []);
    assert Spelled(d.value) == [QUOTE] + SpelledChars(xs) + [QUOTE];
    assert [] + Spelled(d.value) + [] + [] == Spelled(d.value);
    DocumentRead(env, d, Spelled(d.value));
  }
}
