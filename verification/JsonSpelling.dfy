/** The recursive reader takes every text that the grammar spells, and sends what it says. */
module JsonSpelling {
  import opened BigIntBytes
  import opened JsonTree
  import opened JsonText
  import opened JsonReader
  import opened JsonGrammar

  // The handler accepts every event.
  ghost predicate Accepting(env: Env) {
    forall trace :: env.accepts(trace)
  }

  lemma Uncons(c: byte, r: Bytes)
    ensures ([c] + r)[0] == c && ([c] + r)[1..] == r
  {
  }

  lemma {:induction false} BlankSkipped(gap: Bytes, r: Bytes)
    requires Blank(gap)
    ensures SkipSpaces(gap + r) == SkipSpaces(r)
  {
    if gap == [] {
      assert gap + r == r;
    } else {
      assert (gap + r)[1..] == gap[1..] + r;
      BlankSkipped(gap[1..], r);
    }
  }

  // ---------------------------------------------------------------------------
  // Strings.

  lemma UnitRead(u: Unit, rest: Bytes)
    ensures var r := SpelledUnit(u) + rest;
            && r[0] == BACKSLASH && r[1] == LOWER_U && Hex4(r[2..]) == UnitValue(u)
            && |r| == 6 + |rest| && r[6..] == rest
  {
    var r := SpelledUnit(u) + rest;
    assert r[2..] == [SpelledHex(u[0]), SpelledHex(u[1]), SpelledHex(u[2]), SpelledHex(u[3])] + rest;
    assert forall i | 0 <= i < 4 :: HexDigit(r[2..][i]) == u[i].value;
  }

  lemma EscapeRead(u: Unit, rest: Bytes)
    requires ProperChar(Escape(u))
    ensures ScanCodepoint(SpelledUnit(u) + rest) == Scanned(CharText(Escape(u)), rest)
  {
    UnitRead(u, rest);
  }

  lemma PairRead(high: Unit, low: Unit, rest: Bytes)
    requires ProperChar(Pair(high, low))
    ensures ScanCodepoint(SpelledUnit(high) + SpelledUnit(low) + rest) == Scanned(CharText(Pair(high, low)), rest)
  {
    var r, behind := SpelledUnit(high) + SpelledUnit(low) + rest, SpelledUnit(low) + rest;
    assert r == SpelledUnit(high) + behind;
    UnitRead(high, behind);
    UnitRead(low, rest);
    assert r[7..] == behind[1..] && r[8..] == behind[2..] && r[12..] == rest;
    TenBits(UnitValue(high), UnitValue(low));
  }

  lemma TenBits(h: nat, l: nat)
    requires 0xD800 <= h <= 0xDBFF && 0xDC00 <= l <= 0xDFFF
    ensures h % 0x400 == h - 0xD800 && l % 0x400 == l - 0xDC00
  {
  }

  lemma CodeUnitBegins(u: Unit, rest: Bytes)
    ensures var r := SpelledUnit(u) + rest; r[0] == BACKSLASH && ScanEscape(r) == ScanCodepoint(r)
  {
    var r := SpelledUnit(u) + rest;
    assert r[1..][0] == LOWER_U;
  }

  lemma ShortRead(c: byte, rest: Bytes)
    requires ProperChar(Short(c))
    ensures var r := SpelledChar(Short(c)) + rest; r[0] == BACKSLASH && ScanEscape(r) == Scanned([c], rest)
  {
    var r := SpelledChar(Short(c)) + rest;
    var e := SpelledChar(Short(c))[1];
    assert r[1..] == [e] + rest && r[2..] == rest;
    assert Unescaped(e) == c;
  }

  lemma CharRead(x: Char, rest: Bytes)
    requires ProperChar(x)
    ensures ScanString(SpelledChar(x) + rest) == Prepend(CharText(x), ScanString(rest))
  {
    var r := SpelledChar(x) + rest;
    match x
    case Raw(c) => assert r[0] == c && r[1..] == rest;
    case Short(c) => ShortRead(c, rest);
    case Escape(u) =>
      EscapeRead(u, rest);
      CodeUnitBegins(u, rest);
    case Pair(high, low) =>
      assert r == SpelledUnit(high) + (SpelledUnit(low) + rest);
      PairRead(high, low, rest);
      CodeUnitBegins(high, SpelledUnit(low) + rest);
  }

  lemma {:induction false} CharsRead(xs: seq<Char>, rest: Bytes)
    requires ProperChars(xs)
    ensures ScanString(SpelledChars(xs) + [QUOTE] + rest) == Scanned(CharsText(xs), rest)
  {
    var r := SpelledChars(xs) + [QUOTE] + rest;
    if xs == [] {
      assert r == [QUOTE] + rest && r[1..] == rest;
    } else {
      var tail := SpelledChars(xs[1..]) + [QUOTE] + rest;
      assert r == SpelledChar(xs[0]) + tail;
      CharRead(xs[0], tail);
      CharsRead(xs[1..], rest);
    }
  }

  lemma StringTaken(env: Env, trace: seq<Event>, xs: seq<Char>, rest: Bytes, isKey: bool)
    requires Accepting(env) && ProperChars(xs)
    ensures Peek(SpelledString(xs) + rest) == QUOTE
    ensures ParseString(env, trace, SpelledString(xs) + rest, isKey) ==
            Outcome(trace + [if isKey then Key(CharsText(xs)) else String(CharsText(xs))], rest, Clear)
  {
    var r := SpelledString(xs) + rest;
    assert r[1..] == SpelledChars(xs) + [QUOTE] + rest;
    CharsRead(xs, rest);
  }

  // ---------------------------------------------------------------------------
  // Numbers.

  // No digit, fraction or exponent goes on here.
  predicate Delimited(rest: Bytes) {
    !IsDigit(Peek(rest)) && Peek(rest) != DOT && Peek(rest) != LOWER_E && Peek(rest) != UPPER_E
  }

  lemma {:induction false} DigitsCounted(digits: Bytes, rest: Bytes)
    requires (forall i | 0 <= i < |digits| :: IsDigit(digits[i])) && !IsDigit(Peek(rest))
    ensures DigitCount(digits + rest) == |digits|
  {
    if digits == [] {
      assert digits + rest == rest;
    } else {
      assert (digits + rest)[1..] == digits[1..] + rest;
      DigitsCounted(digits[1..], rest);
    }
  }

  lemma {:induction false} DecimalSpelled(ds: seq<Digit>)
    ensures Decimal(SpelledDigits(ds)) == ValueOf(ds)
  {
    if ds != [] {
      var digits, front := SpelledDigits(ds), ds[..|ds| - 1];
      assert digits[..|digits| - 1] == SpelledDigits(front);
      DecimalSpelled(front);
    }
  }

  lemma SplitAt(a: Bytes, b: Bytes)
    ensures (a + b)[..|a|] == a && (a + b)[|a|..] == b
  {
  }

  lemma SpelledDigitsRead(ds: seq<Digit>, rest: Bytes)
    requires !IsDigit(Peek(rest))
    ensures DigitCount(SpelledDigits(ds) + rest) == |ds|
  {
    DigitsCounted(SpelledDigits(ds), rest);
  }

  lemma FractionRead(ds: seq<Digit>, rest: Bytes)
    requires !IsDigit(Peek(rest)) && Peek(rest) != DOT
    ensures AfterFraction(SpelledFraction(ds) + rest) == Scanned(SpelledFraction(ds), rest)
  {
    var r := SpelledFraction(ds) + rest;
    if ds == [] {
      assert r == rest;
    } else {
      assert r == [DOT] + (SpelledDigits(ds) + rest);
      Uncons(DOT, SpelledDigits(ds) + rest);
      SpelledDigitsRead(ds, rest);
      SplitAt(SpelledFraction(ds), rest);
    }
  }

  lemma ExponentBegins(e: Exponent, rest: Bytes)
    requires e.Exponent?
    ensures var r := SpelledExponent(e) + rest;
            (r[0] == LOWER_E || r[0] == UPPER_E) && r[1..] == SpelledSign(e.sign) + (SpelledDigits(e.digits) + rest)
  {
  }

  lemma ExponentParts(r: Bytes)
    requires Peek(r) == LOWER_E || Peek(r) == UPPER_E
    ensures var digits := AfterSign(r[1..]);
            var n := DigitCount(digits);
            n > 0 ==> AfterExponent(r) == Scanned(r[..|r| - (|digits| - n)], digits[n..])
  {
  }

  lemma ExponentRead(e: Exponent, rest: Bytes)
    requires Delimited(rest) && (e.Exponent? ==> e.digits != [])
    ensures AfterExponent(SpelledExponent(e) + rest) == Scanned(SpelledExponent(e), rest)
  {
    var r := SpelledExponent(e) + rest;
    if e.NoExponent? {
      assert r == rest;
    } else {
      ExponentBegins(e, rest);
      SignRead(e, rest);
      SpelledDigitsRead(e.digits, rest);
      ExponentParts(r);
      SplitAt(SpelledDigits(e.digits), rest);
      SplitAt(SpelledExponent(e), rest);
    }
  }

  lemma SignRead(e: Exponent, rest: Bytes)
    requires e.Exponent? && e.digits != []
    ensures AfterSign(SpelledSign(e.sign) + (SpelledDigits(e.digits) + rest)) == SpelledDigits(e.digits) + rest
  {
    var digits := SpelledDigits(e.digits) + rest;
    assert digits[0] == SpelledDigits(e.digits)[0];
    match e.sign
    case Unsigned => assert [] + digits == digits;
    case Plus => Uncons(PLUS, digits);
    case Minus => Uncons(MINUS, digits);
  }

  lemma TailRead(n: Number, rest: Bytes)
    requires ProperNumber(n) && Delimited(rest)
    ensures var tail := SpelledFraction(n.fraction) + SpelledExponent(n.exponent);
            && AfterTail(tail + rest) == Scanned(tail, rest)
            && !IsDigit(Peek(tail + rest))
            && (tail == [] <==> n.fraction == [] && n.exponent.NoExponent?)
  {
    var fraction, exponent := SpelledFraction(n.fraction), SpelledExponent(n.exponent);
    assert fraction + exponent + rest == fraction + (exponent + rest);
    assert exponent == [] ==> exponent + rest == rest;
    assert fraction == [] ==> fraction + (exponent + rest) == exponent + rest;
    FractionRead(n.fraction, exponent + rest);
    ExponentRead(n.exponent, rest);
  }

  // Behind the sign.
  lemma UnsignedRead(n: Number, rest: Bytes)
    requires ProperNumber(n) && Delimited(rest)
    ensures var tail := SpelledFraction(n.fraction) + SpelledExponent(n.exponent);
            JsonText.Unsigned(n.minus, SpelledDigits(n.integer) + (tail + rest))
            == Literal(LiteralEvent(n.minus, ValueOf(n.integer)), tail != [], rest)
  {
    var digits, tail := SpelledDigits(n.integer), SpelledFraction(n.fraction) + SpelledExponent(n.exponent);
    var r := digits + (tail + rest);
    TailRead(n, rest);
    DigitsCounted(digits, tail + rest);
    DecimalSpelled(n.integer);
    assert r[0] == digits[0] && (digits[0] == ZERO <==> n.integer[0] == 0);
    assert IntegerLength(r) == |digits|;
    assert r[..|digits|] == digits && r[|digits|..] == tail + rest;
  }

  lemma NumberInParts(n: Number, rest: Bytes)
    ensures var tail := SpelledFraction(n.fraction) + SpelledExponent(n.exponent);
            SpelledNumber(n) + rest == (if n.minus then [MINUS] else []) + (SpelledDigits(n.integer) + (tail + rest))
  {
  }

  lemma NumberSplit(n: Number, rest: Bytes)
    requires ProperNumber(n) && Delimited(rest)
    ensures var r := SpelledNumber(n) + rest;
            && SplitNumber(r) == Literal(LiteralEvent(n.minus, ValueOf(n.integer)),
                                         n.fraction != [] || n.exponent.Exponent?, rest)
            && (Peek(r) == MINUS || IsDigit(Peek(r)))
            && r[..|r| - |rest|] == SpelledNumber(n)
  {
    var r, digits := SpelledNumber(n) + rest, SpelledDigits(n.integer);
    var tail := SpelledFraction(n.fraction) + SpelledExponent(n.exponent);
    var behind := digits + (tail + rest);
    NumberInParts(n, rest);
    UnsignedRead(n, rest);
    TailRead(n, rest);
    assert behind[0] == digits[0];
    if n.minus {
      Uncons(MINUS, behind);
    } else {
      assert [] + behind == behind;
    }
    assert r[..|r| - |rest|] == SpelledNumber(n);
  }

  lemma NumberRead(overflows: Bytes -> bool, n: Number, rest: Bytes)
    requires ProperNumber(n) && Delimited(rest) && (NumberEvent(n).Double? ==> !overflows(SpelledNumber(n)))
    ensures ScanNumber(overflows, SpelledNumber(n) + rest) == Numeral(NumberEvent(n), rest)
    ensures var c := Peek(SpelledNumber(n) + rest); c == MINUS || IsDigit(c)
  {
    NumberSplit(n, rest);
    if n.fraction == [] && n.exponent.NoExponent? { IntegerIsSaid(n); }
  }

  lemma IntegerIsSaid(n: Number)
    requires n.fraction == [] && n.exponent.NoExponent?
    ensures LiteralEvent(n.minus, ValueOf(n.integer)) == if NumberEvent(n).Double? then [] else [NumberEvent(n)]
  {
  }

  // ---------------------------------------------------------------------------
  // Words, and which part of the reader a first byte leads to.

  lemma WordRead(env: Env, trace: seq<Event>, word: Bytes, e: Event, rest: Bytes)
    requires Accepting(env) && word != []
    ensures ParseWord(env, trace, word + rest, word, e) == Outcome(trace + [e], rest, Clear)
  {
    MatchedWhole(word, rest);
    assert (word + rest)[|word|..] == rest;
  }

  lemma {:induction false} MatchedWhole(word: Bytes, rest: Bytes)
    ensures Matched(word + rest, word) == |word|
  {
    if word != [] {
      assert (word + rest)[1..] == word[1..] + rest;
      MatchedWhole(word[1..], rest);
    }
  }

  lemma ScalarChosen(env: Env, trace: seq<Event>, r: Bytes)
    ensures Peek(r) == LOWER_N ==> ParseValue(env, trace, r) == ParseWord(env, trace, r, NULL_TEXT, Null)
    ensures Peek(r) == LOWER_T ==> ParseValue(env, trace, r) == ParseWord(env, trace, r, TRUE_TEXT, Bool(true))
    ensures Peek(r) == LOWER_F ==> ParseValue(env, trace, r) == ParseWord(env, trace, r, FALSE_TEXT, Bool(false))
    ensures Peek(r) == QUOTE ==> ParseValue(env, trace, r) == ParseString(env, trace, r, false)
    ensures Peek(r) == MINUS || IsDigit(Peek(r)) ==> ParseValue(env, trace, r) == ParseNumber(env, trace, r)
  {
  }

  lemma ScalarRead(env: Env, trace: seq<Event>, g: Syntax, rest: Bytes)
    requires Accepting(env) && ProperValue(g) && InRange(env.overflows, g) && Delimited(rest)
    requires !g.ArrayOf? && !g.ObjectOf?
    ensures ParseValue(env, trace, Spelled(g) + rest) == Outcome(trace + Said(g), rest, Clear)
  {
    var r := Spelled(g) + rest;
    ScalarChosen(env, trace, r);
    match g
    case NullWord => WordRead(env, trace, NULL_TEXT, Null, rest);
    case TrueWord => WordRead(env, trace, TRUE_TEXT, Bool(true), rest);
    case FalseWord => WordRead(env, trace, FALSE_TEXT, Bool(false), rest);
    case NumberOf(n) => NumberRead(env.overflows, n, rest);
    case StringOf(xs) => StringTaken(env, trace, xs, rest, false);
  }

  // ---------------------------------------------------------------------------
  // Arrays and objects.

  // A value begins with none of the bytes that could end what is around it.
  lemma ValueBegins(g: Syntax, rest: Bytes)
    requires ProperValue(g)
    ensures var c := Peek(Spelled(g) + rest);
            Spelled(g) != [] && !IsSpace(c) && c != RIGHT_BRACKET && c != RIGHT_BRACE && c != 0
  {
    match g
    case NumberOf(n) =>
      var tail := SpelledFraction(n.fraction) + SpelledExponent(n.exponent);
      NumberInParts(n, rest);
      assert (SpelledDigits(n.integer) + (tail + rest))[0] == SpelledDigits(n.integer)[0];
      if !n.minus {
        assert [] + (SpelledDigits(n.integer) + (tail + rest)) == SpelledDigits(n.integer) + (tail + rest);
      }
    case _ => assert (Spelled(g) + rest)[0] == Spelled(g)[0];
  }

  // What stands behind a value, in front of a comma or a bracket.
  lemma BehindValue(after: Bytes, behind: Bytes)
    requires Blank(after) && behind != [] && behind[0] in {COMMA, RIGHT_BRACKET, RIGHT_BRACE}
    ensures Delimited(after + behind) && SkipSpaces(after + behind) == behind
  {
    BlankSkipped(after, behind);
    assert (after + behind)[0] == if after == [] then behind[0] else after[0];
  }

  // White space, and a value behind it.
  lemma BeforeValue(before: Bytes, g: Syntax, rest: Bytes)
    requires Blank(before) && ProperValue(g)
    ensures SkipSpaces(before + (Spelled(g) + rest)) == Spelled(g) + rest
  {
    BlankSkipped(before, Spelled(g) + rest);
    ValueBegins(g, rest);
  }

  // An opening bracket, and the closing one behind white space.
  lemma Opened(env: Env, trace: seq<Event>, body: Bytes)
    requires Accepting(env)
    ensures ParseValue(env, trace, [LEFT_BRACKET] + body) == ArrayBody(env, trace + [StartArray], SkipSpaces(body))
    ensures ParseValue(env, trace, [LEFT_BRACE] + body) == ObjectBody(env, trace + [StartObject], SkipSpaces(body))
  {
    Uncons(LEFT_BRACKET, body);
    Uncons(LEFT_BRACE, body);
  }

  lemma ClosedAtOnce(env: Env, trace: seq<Event>, inside: Bytes, rest: Bytes)
    requires Accepting(env) && Blank(inside)
    ensures ArrayBody(env, trace, SkipSpaces(inside + ([RIGHT_BRACKET] + rest)))
            == Outcome(trace + [EndArray(0)], rest, Clear)
    ensures ObjectBody(env, trace, SkipSpaces(inside + ([RIGHT_BRACE] + rest)))
            == Outcome(trace + [EndObject(0)], rest, Clear)
  {
    BlankSkipped(inside, [RIGHT_BRACKET] + rest);
    BlankSkipped(inside, [RIGHT_BRACE] + rest);
    Uncons(RIGHT_BRACKET, rest);
    Uncons(RIGHT_BRACE, rest);
  }

  // Behind the last of count + 1 elements, or with more to come.
  lemma ElementsGoOn(env: Env, trace: seq<Event>, r: Bytes, count: nat)
    requires Accepting(env)
    ensures AfterElement(env, trace, [RIGHT_BRACKET] + r, count)
            == Outcome(trace + [EndArray((count + 1) % SIZE_LIMIT)], r, Clear)
    ensures AfterElement(env, trace, [COMMA] + r, count)
            == Elements(env, trace, SkipSpaces(r), (count + 1) % SIZE_LIMIT)
  {
    Uncons(RIGHT_BRACKET, r);
    Uncons(COMMA, r);
  }

  lemma MembersGoOn(env: Env, trace: seq<Event>, r: Bytes, count: nat)
    requires Accepting(env)
    ensures AfterMember(env, trace, [RIGHT_BRACE] + r, count)
            == Outcome(trace + [EndObject((count + 1) % SIZE_LIMIT)], r, Clear)
    ensures AfterMember(env, trace, [COMMA] + r, count) == Members(env, trace, SkipSpaces(r), (count + 1) % SIZE_LIMIT)
  {
    Uncons(RIGHT_BRACE, r);
    Uncons(COMMA, r);
  }

  lemma SmallCount(n: nat)
    requires n < SIZE_LIMIT
    ensures n % SIZE_LIMIT == n
  {
  }

  lemma CountsAdd(count: nat, more: nat)
    ensures ((count + 1) % SIZE_LIMIT + more) % SIZE_LIMIT == (count + (more + 1)) % SIZE_LIMIT
  {
  }

  // What stands behind the first of several items.
  function BehindItem(items: seq<Item>, rest: Bytes): Bytes
    requires items != []
  {
    if |items| == 1 then [RIGHT_BRACKET] + rest else [COMMA] + (SpelledItems(items[1..]) + ([RIGHT_BRACKET] + rest))
  }

  lemma ThreePieces(a: Bytes, b: Bytes, c: Bytes, more: Bytes, r: Bytes)
    ensures ((a + b + c) + more) + r == a + (b + (c + (more + r)))
  {
  }

  lemma ItemsInParts(items: seq<Item>, rest: Bytes)
    requires items != []
    ensures var x := items[0];
            SpelledItems(items) + ([RIGHT_BRACKET] + rest)
            == x.before + (Spelled(x.value) + (x.after + BehindItem(items, rest)))
  {
    var x, text := items[0], Spelled(items[0].value);
    var more := if |items| == 1 then [] else [COMMA] + SpelledItems(items[1..]);
    assert more + ([RIGHT_BRACKET] + rest) == BehindItem(items, rest);
    ThreePieces(x.before, text, x.after, more, [RIGHT_BRACKET] + rest);
  }

  lemma ItemRead(env: Env, trace: seq<Event>, items: seq<Item>, rest: Bytes, count: nat, es: seq<Event>)
    requires items != [] && ProperItem(items[0])
    requires var x := items[0];
             ParseValue(env, trace, Spelled(x.value) + (x.after + BehindItem(items, rest)))
             == Outcome(trace + es, x.after + BehindItem(items, rest), Clear)
    ensures Elements(env, trace, SkipSpaces(SpelledItems(items) + ([RIGHT_BRACKET] + rest)), count)
            == AfterElement(env, trace + es, BehindItem(items, rest), count)
  {
    var x := items[0];
    ItemsInParts(items, rest);
    BeforeValue(x.before, x.value, x.after + BehindItem(items, rest));
    BehindValue(x.after, BehindItem(items, rest));
  }

  predicate ItemsFit(overflows: Bytes -> bool, items: seq<Item>) {
    forall x | x in items :: ProperItem(x) && InRange(overflows, x.value)
  }

  lemma FirstFits(overflows: Bytes -> bool, items: seq<Item>)
    requires ItemsFit(overflows, items) && items != []
    ensures ProperItem(items[0]) && InRange(overflows, items[0].value) && ItemsFit(overflows, items[1..])
  {
    assert items[0] in items;
    assert forall x | x in items[1..] :: x in items;
  }

  lemma TraceRegroup(trace: seq<Event>, a: seq<Event>, b: seq<Event>, c: seq<Event>)
    ensures trace + a + b + c == trace + (a + b + c)
  {
  }

  // The first item, up to what is behind it.
  lemma {:induction false} FirstItem(env: Env, trace: seq<Event>, items: seq<Item>, rest: Bytes, count: nat)
    requires Accepting(env) && items != [] && ProperItem(items[0]) && InRange(env.overflows, items[0].value)
    ensures Elements(env, trace, SkipSpaces(SpelledItems(items) + ([RIGHT_BRACKET] + rest)), count)
            == AfterElement(env, trace + Said(items[0].value), BehindItem(items, rest), count)
    decreases items[0], 0
  {
    var x := items[0];
    BehindValue(x.after, BehindItem(items, rest));
    ValueRead(env, trace, x.value, x.after + BehindItem(items, rest));
    ItemRead(env, trace, items, rest, count, Said(x.value));
  }

  // What it leads to.
  lemma {:induction false} ItemStep(env: Env, trace: seq<Event>, items: seq<Item>, rest: Bytes, count: nat)
    requires Accepting(env) && items != [] && ProperItem(items[0]) && InRange(env.overflows, items[0].value)
    ensures var trace1, n := trace + Said(items[0].value), (count + 1) % SIZE_LIMIT;
            Elements(env, trace, SkipSpaces(SpelledItems(items) + ([RIGHT_BRACKET] + rest)), count)
            == if |items| == 1 then Outcome(trace1 + [EndArray(n)], rest, Clear)
               else Elements(env, trace1, SkipSpaces(SpelledItems(items[1..]) + ([RIGHT_BRACKET] + rest)), n)
    decreases items[0], 1
  {
    var trace1 := trace + Said(items[0].value);
    FirstItem(env, trace, items, rest, count);
    if |items| == 1 {
      ElementsGoOn(env, trace1, rest, count);
    } else {
      ElementsGoOn(env, trace1, SpelledItems(items[1..]) + ([RIGHT_BRACKET] + rest), count);
    }
  }

  // The trace behind several items.
  function ItemsTrace(trace: seq<Event>, items: seq<Item>): seq<Event>
    decreases items
  {
    if items == [] then trace else ItemsTrace(trace + Said(items[0].value), items[1..])
  }

  lemma {:induction false} ItemsTraced(trace: seq<Event>, items: seq<Item>)
    ensures ItemsTrace(trace, items) == trace + ItemsSaid(items)
    decreases items
  {
    if items != [] {
      var said, rest := Said(items[0].value), ItemsSaid(items[1..]);
      ItemsTraced(trace + said, items[1..]);
      assert (trace + said) + rest == trace + (said + rest);
    }
  }

  lemma {:induction false} ItemsRead(env: Env, trace: seq<Event>, items: seq<Item>, rest: Bytes, count: nat, total: nat)
    requires Accepting(env) && items != [] && ItemsFit(env.overflows, items)
    requires total == (count + |items|) % SIZE_LIMIT
    ensures Elements(env, trace, SkipSpaces(SpelledItems(items) + ([RIGHT_BRACKET] + rest)), count)
            == Outcome(ItemsTrace(trace, items) + [EndArray(total)], rest, Clear)
    decreases items, 0
  {
    FirstFits(env.overflows, items);
    ItemStep(env, trace, items, rest, count);
    CountsAdd(count, |items[1..]|);
    if |items| > 1 {
      ItemsRead(env, trace + Said(items[0].value), items[1..], rest, (count + 1) % SIZE_LIMIT, total);
    } else {
      assert items[1..] == [];
    }
  }

  lemma ArrayOpened(env: Env, trace: seq<Event>, g: Syntax, rest: Bytes)
    requires Accepting(env) && g.ArrayOf?
    ensures var inside := if g.items == [] then g.inside else SpelledItems(g.items);
            ParseValue(env, trace, Spelled(g) + rest)
            == ArrayBody(env, trace + [StartArray], SkipSpaces(inside + ([RIGHT_BRACKET] + rest)))
  {
    var inside := if g.items == [] then g.inside else SpelledItems(g.items);
    assert Spelled(g) + rest == [LEFT_BRACKET] + (inside + ([RIGHT_BRACKET] + rest));
    Opened(env, trace, inside + ([RIGHT_BRACKET] + rest));
  }

  // The first item does not look like the end of the array.
  lemma ItemsBegin(items: seq<Item>, rest: Bytes)
    requires items != [] && ProperItem(items[0])
    ensures Peek(SkipSpaces(SpelledItems(items) + ([RIGHT_BRACKET] + rest))) != RIGHT_BRACKET
  {
    var x := items[0];
    ItemsInParts(items, rest);
    BeforeValue(x.before, x.value, x.after + BehindItem(items, rest));
    ValueBegins(x.value, x.after + BehindItem(items, rest));
  }

  lemma {:induction false} ArrayRead(env: Env, trace: seq<Event>, g: Syntax, rest: Bytes)
    requires Accepting(env) && g.ArrayOf? && ProperValue(g) && InRange(env.overflows, g)
    ensures ParseValue(env, trace, Spelled(g) + rest) == Outcome(trace + Said(g), rest, Clear)
    decreases g, 0
  {
    var items, trace1 := g.items, trace + [StartArray];
    ArrayOpened(env, trace, g, rest);
    TraceRegroup(trace, [StartArray], ItemsSaid(items), [EndArray(|items| % SIZE_LIMIT)]);
    if items == [] {
      ClosedAtOnce(env, trace1, g.inside, rest);
      assert trace1 + [] == trace1;
    } else {
      FirstFits(env.overflows, items);
      ItemsBegin(items, rest);
      ItemsRead(env, trace1, items, rest, 0, |items| % SIZE_LIMIT);
      ItemsTraced(trace1, items);
    }
  }

  // The same for objects.
  function BehindField(fields: seq<Field>, rest: Bytes): Bytes
    requires fields != []
  {
    if |fields| == 1 then [RIGHT_BRACE] + rest else [COMMA] + (SpelledFields(fields[1..]) + ([RIGHT_BRACE] + rest))
  }

  function BehindName(fields: seq<Field>, rest: Bytes): Bytes
    requires fields != []
  {
    var x := fields[0];
    x.afterColon + (Spelled(x.value) + (x.after + BehindField(fields, rest)))
  }

  lemma TwoInFront(a: Bytes, b: Bytes, r: Bytes)
    ensures (a + b) + r == a + (b + r)
  {
  }

  lemma SevenInFront(a: Bytes, b: Bytes, c: Bytes, d: Bytes, e: Bytes, f: Bytes, g: Bytes, r: Bytes)
    ensures (a + b + c + d + e + f + g) + r == a + (b + (c + (d + (e + (f + (g + r))))))
  {
    assert (a + b + c + d + e + f + g) + r == (a + b + c) + (d + e + f + g + r);
    assert d + e + f + g + r == d + (e + (f + (g + r)));
  }

  lemma FieldsInParts(fields: seq<Field>, rest: Bytes)
    requires fields != []
    ensures var x := fields[0];
            SpelledFields(fields) + ([RIGHT_BRACE] + rest)
            == x.before + (SpelledString(x.name) + (x.beforeColon + ([COLON] + BehindName(fields, rest))))
  {
    var x, name, text := fields[0], SpelledString(fields[0].name), Spelled(fields[0].value);
    var more := if |fields| == 1 then [] else [COMMA] + SpelledFields(fields[1..]);
    assert more + ([RIGHT_BRACE] + rest) == BehindField(fields, rest);
    TwoInFront(SpelledField(x), more, [RIGHT_BRACE] + rest);
    SevenInFront(x.before, name, x.beforeColon, [COLON], x.afterColon, text, x.after, more + ([RIGHT_BRACE] + rest));
  }

  predicate FieldsFit(overflows: Bytes -> bool, fields: seq<Field>) {
    forall x | x in fields :: ProperField(x) && InRange(overflows, x.value)
  }

  lemma FirstFieldFits(overflows: Bytes -> bool, fields: seq<Field>)
    requires FieldsFit(overflows, fields) && fields != []
    ensures ProperField(fields[0]) && InRange(overflows, fields[0].value)
  {
    assert fields[0] in fields;
  }

  lemma OtherFieldsFit(overflows: Bytes -> bool, fields: seq<Field>)
    requires FieldsFit(overflows, fields) && fields != []
    ensures FieldsFit(overflows, fields[1..])
  {
    assert forall x | x in fields[1..] :: x in fields;
  }

  lemma NameRead(env: Env, trace: seq<Event>, fields: seq<Field>, rest: Bytes, count: nat)
    requires Accepting(env) && fields != [] && ProperField(fields[0])
    ensures var r, x := SkipSpaces(SpelledFields(fields) + ([RIGHT_BRACE] + rest)), fields[0];
            && Peek(r) == QUOTE
            && Members(env, trace, r, count)
               == MemberValue(env, trace + [Key(CharsText(x.name))],
                              Spelled(x.value) + (x.after + BehindField(fields, rest)), count)
  {
    var x, behind := fields[0], BehindName(fields, rest);
    var afterName := x.beforeColon + ([COLON] + behind);
    var trace1 := trace + [Key(CharsText(x.name))];
    FieldsInParts(fields, rest);
    StringTaken(env, trace, x.name, afterName, true);
    BlankSkipped(x.before, SpelledString(x.name) + afterName);
    BlankSkipped(x.beforeColon, [COLON] + behind);
    Uncons(COLON, behind);
    BeforeValue(x.afterColon, x.value, x.after + BehindField(fields, rest));
    assert AfterKey(env, trace1, [COLON] + behind, count) == MemberValue(env, trace1, SkipSpaces(behind), count);
  }

  lemma FieldRead(env: Env, trace: seq<Event>, fields: seq<Field>, rest: Bytes, count: nat, es: seq<Event>)
    requires fields != [] && Blank(fields[0].after)
    requires var x := fields[0];
             ParseValue(env, trace, Spelled(x.value) + (x.after + BehindField(fields, rest)))
             == Outcome(trace + es, x.after + BehindField(fields, rest), Clear)
    ensures var x := fields[0];
            MemberValue(env, trace, Spelled(x.value) + (x.after + BehindField(fields, rest)), count)
            == AfterMember(env, trace + es, BehindField(fields, rest), count)
  {
    BehindValue(fields[0].after, BehindField(fields, rest));
  }

  // The first field, up to what is behind it.
  lemma {:induction false} FirstField(env: Env, trace: seq<Event>, fields: seq<Field>, rest: Bytes, count: nat)
    requires Accepting(env) && fields != [] && ProperField(fields[0]) && InRange(env.overflows, fields[0].value)
    ensures var x := fields[0];
            Members(env, trace, SkipSpaces(SpelledFields(fields) + ([RIGHT_BRACE] + rest)), count)
            == AfterMember(env, trace + FieldSaid(x), BehindField(fields, rest), count)
    decreases fields[0], 0
  {
    var x := fields[0];
    var name, es := [Key(CharsText(x.name))], Said(x.value);
    NameRead(env, trace, fields, rest, count);
    BehindValue(x.after, BehindField(fields, rest));
    ValueRead(env, trace + name, x.value, x.after + BehindField(fields, rest));
    FieldRead(env, trace + name, fields, rest, count, es);
    assert trace + name + es == trace + (name + es);
  }

  lemma {:induction false} LastField(env: Env, trace: seq<Event>, fields: seq<Field>, rest: Bytes, count: nat)
    requires Accepting(env) && |fields| == 1 && FieldsFit(env.overflows, fields)
    ensures Members(env, trace, SkipSpaces(SpelledFields(fields) + ([RIGHT_BRACE] + rest)), count)
            == Outcome(trace + FieldSaid(fields[0]) + [EndObject((count + 1) % SIZE_LIMIT)], rest, Clear)
    decreases fields[0], 1
  {
    FirstFieldFits(env.overflows, fields);
    FirstField(env, trace, fields, rest, count);
    MembersGoOn(env, trace + FieldSaid(fields[0]), rest, count);
  }

  lemma {:induction false} NextField(env: Env, trace: seq<Event>, fields: seq<Field>, rest: Bytes, count: nat)
    requires Accepting(env) && |fields| > 1 && FieldsFit(env.overflows, fields)
    ensures Members(env, trace, SkipSpaces(SpelledFields(fields) + ([RIGHT_BRACE] + rest)), count)
            == Members(env, trace + FieldSaid(fields[0]),
                       SkipSpaces(SpelledFields(fields[1..]) + ([RIGHT_BRACE] + rest)), (count + 1) % SIZE_LIMIT)
    decreases fields[0], 1
  {
    FirstFieldFits(env.overflows, fields);
    FirstField(env, trace, fields, rest, count);
    MembersGoOn(env, trace + FieldSaid(fields[0]), SpelledFields(fields[1..]) + ([RIGHT_BRACE] + rest), count);
  }

  // The trace behind several fields.
  function FieldsTrace(trace: seq<Event>, fields: seq<Field>): seq<Event>
    decreases fields
  {
    if fields == [] then trace
    else FieldsTrace(trace + FieldSaid(fields[0]), fields[1..])
  }

  lemma {:induction false} FieldsTraced(trace: seq<Event>, fields: seq<Field>)
    ensures FieldsTrace(trace, fields) == trace + FieldsSaid(fields)
    decreases fields
  {
    if fields != [] {
      var said, rest := FieldSaid(fields[0]), FieldsSaid(fields[1..]);
      FieldsTraced(trace + said, fields[1..]);
      assert (trace + said) + rest == trace + (said + rest);
    }
  }

  lemma SameEnd(trace: seq<Event>, fields: seq<Field>, count: nat, end: seq<Event>)
    requires fields != [] && end == FieldsTrace(trace, fields) + [EndObject((count + |fields|) % SIZE_LIMIT)]
    ensures end == FieldsTrace(trace + FieldSaid(fields[0]), fields[1..])
                   + [EndObject(((count + 1) % SIZE_LIMIT + |fields[1..]|) % SIZE_LIMIT)]
  {
    CountsAdd(count, |fields[1..]|);
  }

  lemma {:induction false} FieldsRead(env: Env, trace: seq<Event>, fields: seq<Field>, rest: Bytes, count: nat,
          end: seq<Event>)
    requires Accepting(env) && fields != [] && FieldsFit(env.overflows, fields)
    requires end == FieldsTrace(trace, fields) + [EndObject((count + |fields|) % SIZE_LIMIT)]
    ensures Members(env, trace, SkipSpaces(SpelledFields(fields) + ([RIGHT_BRACE] + rest)), count)
            == Outcome(end, rest, Clear)
    decreases fields, 0
  {
    if |fields| == 1 {
      assert FieldsTrace(trace + FieldSaid(fields[0]), fields[1..]) == trace + FieldSaid(fields[0]);
      LastField(env, trace, fields, rest, count);
    } else {
      OtherFieldsFit(env.overflows, fields);
      SameEnd(trace, fields, count, end);
      FieldsRead(env, trace + FieldSaid(fields[0]), fields[1..], rest, (count + 1) % SIZE_LIMIT, end);
      NextField(env, trace, fields, rest, count);
    }
  }

  lemma {:induction false} AllFieldsRead(env: Env, trace: seq<Event>, fields: seq<Field>, rest: Bytes)
    requires Accepting(env) && fields != [] && FieldsFit(env.overflows, fields)
    ensures Members(env, trace, SkipSpaces(SpelledFields(fields) + ([RIGHT_BRACE] + rest)), 0)
            == Outcome(trace + FieldsSaid(fields) + [EndObject(|fields| % SIZE_LIMIT)], rest, Clear)
    decreases fields, 1
  {
    FieldsTraced(trace, fields);
    FieldsRead(env, trace, fields, rest, 0, trace + FieldsSaid(fields) + [EndObject(|fields| % SIZE_LIMIT)]);
  }

  lemma FieldsBegin(env: Env, trace: seq<Event>, fields: seq<Field>, rest: Bytes)
    requires Accepting(env) && fields != [] && FieldsFit(env.overflows, fields)
    ensures var r := SkipSpaces(SpelledFields(fields) + ([RIGHT_BRACE] + rest));
            ObjectBody(env, trace, r) == Members(env, trace, r, 0)
  {
    FirstFieldFits(env.overflows, fields);
    NameRead(env, trace, fields, rest, 0);
  }

  lemma ObjectOpened(env: Env, trace: seq<Event>, g: Syntax, rest: Bytes)
    requires Accepting(env) && g.ObjectOf?
    ensures var inside := if g.fields == [] then g.inside else SpelledFields(g.fields);
            ParseValue(env, trace, Spelled(g) + rest)
            == ObjectBody(env, trace + [StartObject], SkipSpaces(inside + ([RIGHT_BRACE] + rest)))
  {
    var inside := if g.fields == [] then g.inside else SpelledFields(g.fields);
    assert Spelled(g) + rest == [LEFT_BRACE] + (inside + ([RIGHT_BRACE] + rest));
    Opened(env, trace, inside + ([RIGHT_BRACE] + rest));
  }

  lemma {:induction false} ObjectRead(env: Env, trace: seq<Event>, g: Syntax, rest: Bytes)
    requires Accepting(env) && g.ObjectOf? && ProperValue(g) && InRange(env.overflows, g)
    ensures ParseValue(env, trace, Spelled(g) + rest) == Outcome(trace + Said(g), rest, Clear)
    decreases g, 0
  {
    var fields, trace1 := g.fields, trace + [StartObject];
    ObjectOpened(env, trace, g, rest);
    TraceRegroup(trace, [StartObject], FieldsSaid(fields), [EndObject(|fields| % SIZE_LIMIT)]);
    if fields == [] {
      ClosedAtOnce(env, trace1, g.inside, rest);
      assert trace1 + [] == trace1;
    } else {
      FieldsBegin(env, trace1, fields, rest);
      AllFieldsRead(env, trace1, fields, rest);
    }
  }

  /** The reader takes exactly the text of a value, and sends what the value says. */
  lemma {:induction false} ValueRead(env: Env, trace: seq<Event>, g: Syntax, rest: Bytes)
    requires Accepting(env) && ProperValue(g) && InRange(env.overflows, g) && Delimited(rest)
    ensures ParseValue(env, trace, Spelled(g) + rest) == Outcome(trace + Said(g), rest, Clear)
    decreases g, 1
  {
    match g
    case ArrayOf(_, _) => ArrayRead(env, trace, g, rest);
    case ObjectOf(_, _) => ObjectRead(env, trace, g, rest);
    case _ => ScalarRead(env, trace, g, rest);
  }

  /** The whole text. */
  lemma DocumentRead(env: Env, d: Document, text: Bytes)
    requires Accepting(env) && Spells(env.overflows, d, text)
    ensures Parse(env, text) == Outcome(Said(d.value), d.unread, Clear)
  {
    var behind := d.after + d.unread;
    assert text == d.before + (Spelled(d.value) + behind);
    BeforeValue(d.before, d.value, behind);
    ValueBegins(d.value, behind);
    BlankSkipped(d.after, d.unread);
    assert Delimited(behind) by {
      assert behind != [] ==> behind[0] == if d.after == [] then d.unread[0] else d.after[0];
    }
    ValueRead(env, [], d.value, behind);
    assert [] + Said(d.value) == Said(d.value);
  }
}
