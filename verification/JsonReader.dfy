/** What the recursive reader does with the input that is left: the events it sends, and where
    and why it stops. */
module JsonReader {
  import opened BigIntBytes
  import opened JsonTree
  import opened JsonText

  // The handler, as its answer to every trace of events, and the double conversion's overflow test.
  datatype Env = Env(accepts: seq<Event> -> bool, overflows: Bytes -> bool)

  datatype Failure = Clear | Failed(code: ParseError, left: nat)

  // The events sent so far, the input that is left, and the error if there is one.
  datatype Outcome = Outcome(trace: seq<Event>, rest: Bytes, failure: Failure)

  const SIZE_LIMIT: nat := 0x1_0000_0000

  function Fail(trace: seq<Event>, rest: Bytes, code: ParseError, left: nat): Outcome {
    Outcome(trace, rest, Failed(code, left))
  }

  // One event; if the handler refuses it, parsing ends.
  function Send(env: Env, trace: seq<Event>, e: Event, rest: Bytes, left: nat): Outcome {
    Outcome(trace + [e], rest, if env.accepts(trace + [e]) then Clear else Failed(Termination, left))
  }

  // The number of bytes of the word at the front of r.
  function Matched(r: Bytes, word: Bytes): (n: nat)
    ensures n <= |word| && n <= |r| && r[..n] == word[..n]
    ensures n < |word| && n < |r| ==> r[n] != word[n]
    decreases |word|
  {
    if word == [] || r == [] || r[0] != word[0] then 0 else 1 + Matched(r[1..], word[1..])
  }

  // ParseNull, ParseTrue and ParseFalse.
  function ParseWord(env: Env, trace: seq<Event>, r: Bytes, word: Bytes, e: Event): (o: Outcome)
    requires word != []
    ensures o.failure.Clear? ==> |o.rest| < |r|
  {
    var n := Matched(r, word);
    if n < |word| then Fail(trace, r[n..], ValueInvalid, |r| - n)
    else Send(env, trace, e, r[n..], |r| - n)
  }

  function ParseString(env: Env, trace: seq<Event>, r: Bytes, isKey: bool): (o: Outcome)
    requires Peek(r) == QUOTE
    ensures o.failure.Clear? ==> |o.rest| < |r|
  {
    match ScanString(r[1..])
    case Bad(code, left) => Fail(trace, r, code, left)
    case Scanned(text, rest) => Send(env, trace, if isKey then Key(text) else String(text), rest, |rest|)
  }

  function ParseNumber(env: Env, trace: seq<Event>, r: Bytes): (o: Outcome)
    ensures o.failure.Clear? ==> |o.rest| < |r|
  {
    match ScanNumber(env.overflows, r)
    case BadNumeral(code, left) => Fail(trace, r, code, left)
    case Numeral(event, rest) => Send(env, trace, event, rest, |r|)
  }

  predicate IsScalar(c: byte) {
    c != LEFT_BRACE && c != LEFT_BRACKET
  }

  function ParseScalar(env: Env, trace: seq<Event>, r: Bytes): (o: Outcome)
    requires IsScalar(Peek(r))
    ensures o.failure.Clear? ==> |o.rest| < |r|
  {
    if Peek(r) == LOWER_N then ParseWord(env, trace, r, NULL_TEXT, Null)
    else if Peek(r) == LOWER_T then ParseWord(env, trace, r, TRUE_TEXT, Bool(true))
    else if Peek(r) == LOWER_F then ParseWord(env, trace, r, FALSE_TEXT, Bool(false))
    else if Peek(r) == QUOTE then ParseString(env, trace, r, false)
    else ParseNumber(env, trace, r)
  }

  function ParseValue(env: Env, trace: seq<Event>, r: Bytes): (o: Outcome)
    ensures o.failure.Clear? ==> |o.rest| < |r|
    decreases |r|, 4
  {
    if Peek(r) == LEFT_BRACE then
      var o := Send(env, trace, StartObject, r[1..], |r| - 1);
      if o.failure.Failed? then o else ObjectBody(env, o.trace, SkipSpaces(o.rest))
    else if Peek(r) == LEFT_BRACKET then
      var o := Send(env, trace, StartArray, r[1..], |r| - 1);
      if o.failure.Failed? then o else ArrayBody(env, o.trace, SkipSpaces(o.rest))
    else ParseScalar(env, trace, r)
  }

  // ---------------------------------------------------------------------------
  // Arrays: `count` elements come before r.

  function ArrayBody(env: Env, trace: seq<Event>, r: Bytes): (o: Outcome)
    ensures o.failure.Clear? ==> |o.rest| < |r|
    decreases |r|, 6
  {
    if Peek(r) == RIGHT_BRACKET then Send(env, trace, EndArray(0), r[1..], |r| - 1)
    else Elements(env, trace, r, 0)
  }

  function Elements(env: Env, trace: seq<Event>, r: Bytes, count: nat): (o: Outcome)
    ensures o.failure.Clear? ==> |o.rest| < |r|
    decreases |r|, 5
  {
    var o := ParseValue(env, trace, r);
    if o.failure.Failed? then o else AfterElement(env, o.trace, SkipSpaces(o.rest), count)
  }

  // The last of count + 1 elements is behind us.
  function AfterElement(env: Env, trace: seq<Event>, r: Bytes, count: nat): (o: Outcome)
    ensures o.failure.Clear? ==> |o.rest| < |r|
    decreases |r|, 3
  {
    var n := (count + 1) % SIZE_LIMIT;
    if Peek(r) == COMMA then Elements(env, trace, SkipSpaces(r[1..]), n)
    else if Peek(r) == RIGHT_BRACKET then Send(env, trace, EndArray(n), r[1..], |r| - 1)
    else Fail(trace, r, ArrayMissCommaOrSquareBracket, |r|)
  }

  // ---------------------------------------------------------------------------
  // Objects: `count` members come before r.

  function ObjectBody(env: Env, trace: seq<Event>, r: Bytes): (o: Outcome)
    ensures o.failure.Clear? ==> |o.rest| < |r|
    decreases |r|, 6
  {
    if Peek(r) == RIGHT_BRACE then Send(env, trace, EndObject(0), r[1..], |r| - 1)
    else Members(env, trace, r, 0)
  }

  function Members(env: Env, trace: seq<Event>, r: Bytes, count: nat): (o: Outcome)
    ensures o.failure.Clear? ==> |o.rest| < |r|
    decreases |r|, 5
  {
    if Peek(r) != QUOTE then Fail(trace, r, ObjectMissName, |r|)
    else
      var o := ParseString(env, trace, r, true);
      if o.failure.Failed? then o else AfterKey(env, o.trace, SkipSpaces(o.rest), count)
  }

  function AfterKey(env: Env, trace: seq<Event>, r: Bytes, count: nat): (o: Outcome)
    ensures o.failure.Clear? ==> |o.rest| < |r|
    decreases |r|, 3
  {
    if Peek(r) != COLON then Fail(trace, r, ObjectMissColon, |r|)
    else MemberValue(env, trace, SkipSpaces(r[1..]), count)
  }

  function MemberValue(env: Env, trace: seq<Event>, r: Bytes, count: nat): (o: Outcome)
    ensures o.failure.Clear? ==> |o.rest| < |r|
    decreases |r|, 5
  {
    var o := ParseValue(env, trace, r);
    if o.failure.Failed? then o else AfterMember(env, o.trace, SkipSpaces(o.rest), count)
  }

  // The last of count + 1 members is behind us.
  function AfterMember(env: Env, trace: seq<Event>, r: Bytes, count: nat): (o: Outcome)
    ensures o.failure.Clear? ==> |o.rest| < |r|
    decreases |r|, 3
  {
    var n := (count + 1) % SIZE_LIMIT;
    if Peek(r) == COMMA then Members(env, trace, SkipSpaces(r[1..]), n)
    else if Peek(r) == RIGHT_BRACE then Send(env, trace, EndObject(n), r[1..], |r| - 1)
    else Fail(trace, r, ObjectMissCommaOrCurlyBracket, |r|)
  }

  // ---------------------------------------------------------------------------
  // The whole text.

  // The root value is behind us.
  function AtEnd(trace: seq<Event>, r: Bytes): Outcome {
    if Peek(r) != 0 then Fail(trace, r, DocumentRootNotSingular, |r|) else Outcome(trace, r, Clear)
  }

  function Parse(env: Env, text: Bytes): Outcome {
    var r := SkipSpaces(text);
    if Peek(r) == 0 then Fail([], r, DocumentEmpty, |r|)
    else
      var o := ParseValue(env, [], r);
      if o.failure.Failed? then o else AtEnd(o.trace, SkipSpaces(o.rest))
  }
}
