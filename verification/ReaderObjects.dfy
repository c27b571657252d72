/** GenericReader, recursive and table-driven, copying and in place. */
module ReaderObjects {
  import opened BigIntBytes
  import opened JsonTree
  import opened JsonText
  import opened ReaderNumbers
  import opened ReaderStrings
  import I = JsonIterative
  import R = JsonReader
  import opened Options

  // A string handed out by an in-place parse: where it lies in the buffer.
  datatype Span = Span(begin: nat, length: nat)

  // The texts of the strings among these events.
  function Texts(trace: seq<Event>): seq<Bytes> {
    if trace == [] then []
    else
      var last := trace[|trace| - 1];
      Texts(trace[..|trace| - 1]) + if last.String? || last.Key? then [last.s] else []
  }

  lemma TextsStep(trace: seq<Event>, e: Event)
    ensures Texts(trace + [e]) == Texts(trace) + if e.String? || e.Key? then [e.s] else []
  {
    assert (trace + [e])[..|trace|] == trace;
  }

  // The spans read as these texts, and lie in front of pos.
  ghost predicate SpansIn(spans: seq<Span>, texts: seq<Bytes>, buffer: Bytes, pos: nat) {
    && |spans| == |texts| && pos <= |buffer|
    && forall k | 0 <= k < |spans| ::
         && spans[k].begin + spans[k].length < pos
         && buffer[spans[k].begin..spans[k].begin + spans[k].length] == texts[k]
  }

  // Spans in front of a place are safe from what is written behind it.
  lemma SpansStay(spans: seq<Span>, texts: seq<Bytes>, buffer: Bytes, pos: nat, buffer': Bytes, pos': nat)
    requires SpansIn(spans, texts, buffer, pos)
    requires |buffer| == |buffer'| && pos <= pos' <= |buffer| && buffer[..pos] == buffer'[..pos]
    ensures SpansIn(spans, texts, buffer', pos')
  {
    forall k | 0 <= k < |spans|
      ensures var b, e := spans[k].begin, spans[k].begin + spans[k].length;
              e < pos' && buffer'[b..e] == texts[k]
    {
      var b, e := spans[k].begin, spans[k].begin + spans[k].length;
      assert buffer'[b..e] == buffer'[..pos][b..e] == buffer[..pos][b..e] == buffer[b..e];
    }
  }

  lemma SpansAdd(spans: seq<Span>, texts: seq<Bytes>, buffer: Bytes, pos: nat, span: Span)
    requires SpansIn(spans, texts, buffer, pos) && span.begin + span.length < pos
    ensures SpansIn(spans + [span], texts + [buffer[span.begin..span.begin + span.length]], buffer, pos)
  {
  }

  /** A handler that keeps the events it was sent; its answer to each is a function of them all. */
  class Handler {
    const accepts: seq<Event> -> bool
    var trace: seq<Event>
    var spans: seq<Span>

    constructor (accepts: seq<Event> -> bool)
      ensures this.accepts == accepts && trace == [] && spans == []
    {
      this.accepts, trace, spans := accepts, [], [];
    }

    method Handle(e: Event) returns (ok: bool)
      modifies `trace
      ensures trace == old(trace) + [e] && ok == accepts(trace)
    {
      trace := trace + [e];
      ok := accepts(trace);
    }

    // A string that is not copied.
    method HandleSpan(e: Event, span: Span) returns (ok: bool)
      modifies `trace, `spans
      ensures trace == old(trace) + [e] && ok == accepts(trace) && spans == old(spans) + [span]
    {
      spans := spans + [span];
      ok := Handle(e);
    }

    // Every string handed out lies behind the read cursor and still reads as it was sent.
    ghost predicate SpansHold(input: StringStream)
      reads this, input, input.src
    {
      input.Valid() && SpansIn(spans, Texts(trace), input.src[..], input.pos)
    }
  }

  // The chain of Consume calls for a word.
  method ConsumeWord(input: StringStream, word: Bytes) returns (ok: bool)
    requires input.Valid() && 0 !in word
    modifies input`pos
    ensures input.Valid() && input.pos >= old(input.pos)
    ensures var n := R.Matched(old(input.Rest()), word);
            (ok <==> n == |word|) && input.Rest() == old(input.Rest())[n..]
  {
    ghost var r := input.Rest();
    var i := 0;
    while i < |word|
      invariant i <= |word| && i <= |r| && input.Valid() && input.Rest() == r[i..]
      invariant R.Matched(r, word) == i + R.Matched(r[i..], word[i..])
    {
      assert word[i..][1..] == word[i + 1..] && r[i..][0..] == r[i..];
      ok := input.Consume(word[i]);
      if !ok { return; }
      assert r[i..][1..] == r[i + 1..];
      i := i + 1;
    }
    ok := true;
  }

  class GenericReader {
    const insitu: bool
    const overflows: Bytes -> bool
    var error: Option<ParseError>
    var errorOffset: nat
    var stack: seq<I.Slot>

    constructor (insitu: bool, overflows: Bytes -> bool)
      ensures this.insitu == insitu && this.overflows == overflows && error.None?
    {
      this.insitu, this.overflows, error, errorOffset, stack := insitu, overflows, None, 0, [];
    }

    ghost function Env(handler: Handler): R.Env
    {
      R.Env(handler.accepts, overflows)
    }

    // The stream, the handler and the error are as o says.
    ghost predicate Shows(input: StringStream, handler: Handler, o: R.Outcome)
      reads this, input, input.src, handler
    {
      && input.Valid() && handler.trace == o.trace
      && match o.failure
         case Clear => error.None? && input.Rest() == o.rest
         case Failed(code, left) => error == Some(code) && errorOffset == input.src.Length - left
    }

    // No error yet, and in place every string handed out still holds.
    ghost predicate Fine(input: StringStream, handler: Handler)
      reads this, input, input.src, handler
    {
      input.Valid() && error.None? && Kept(input, handler)
    }

    ghost predicate Kept(input: StringStream, handler: Handler)
      reads this, input, input.src, handler
    {
      insitu ==> handler.SpansHold(input)
    }

    method SetParseError(code: ParseError, offset: nat)
      modifies `error, `errorOffset
      ensures error == Some(code) && errorOffset == offset
    {
      error, errorOffset := Some(code), offset;
    }

    // An event without a string; the offset is for the case that the handler refuses it.
    method Send(input: StringStream, handler: Handler, e: Event, offset: nat)
      requires Fine(input, handler) && offset <= input.src.Length && !e.String? && !e.Key?
      modifies `error, `errorOffset, handler`trace
      ensures Shows(input, handler,
                    R.Send(Env(handler), old(handler.trace), e, input.Rest(), input.src.Length - offset))
      ensures Kept(input, handler)
    {
      TextsStep(handler.trace, e);
      var ok := handler.Handle(e);
      if !ok {
        SetParseError(Termination, offset);
      }
    }

    // White space, and one byte if it is the expected one, between the parts of a text.
    method Skip(input: StringStream, handler: Handler)
      requires Fine(input, handler)
      modifies input`pos
      ensures Fine(input, handler) && input.Rest() == SkipSpaces(old(input.Rest()))
    {
      ghost var pos := input.pos;
      input.SkipWhitespace();
      if insitu {
        SpansStay(handler.spans, Texts(handler.trace), input.src[..], pos, input.src[..], input.pos);
      }
    }

    method Eat(input: StringStream, handler: Handler, expected: byte) returns (ok: bool)
      requires Fine(input, handler) && expected != 0
      modifies input`pos
      ensures Fine(input, handler) && ok == (Peek(old(input.Rest())) == expected)
      ensures input.Rest() == if ok then old(input.Rest())[1..] else old(input.Rest())
    {
      ghost var pos := input.pos;
      ok := input.Consume(expected);
      if insitu {
        SpansStay(handler.spans, Texts(handler.trace), input.src[..], pos, input.src[..], input.pos);
      }
    }

    // ParseNull, ParseTrue and ParseFalse.
    method ParseWord(input: StringStream, handler: Handler, word: Bytes, e: Event)
      requires Fine(input, handler) && word != [] && 0 !in word && !e.String? && !e.Key?
      modifies `error, `errorOffset, input`pos, handler`trace
      ensures Shows(input, handler, R.ParseWord(Env(handler), old(handler.trace), old(input.Rest()), word, e))
      ensures Kept(input, handler)
    {
      var ok := ConsumeWord(input, word);
      if ok {
        Send(input, handler, e, input.pos);
      } else {
        SetParseError(ValueInvalid, input.pos);
      }
    }

    // The string that a sink has got, handed out where it lies.
    method SendInPlace(input: StringStream, handler: Handler, sink: StringSink, ghost text: Bytes, isKey: bool)
      returns (ok: bool)
      requires Fine(input, handler) && sink.Valid() && sink.stream == input && sink.insitu && insitu
      requires sink.Written() == text + [0]
      modifies handler`trace, handler`spans
      ensures handler.trace == old(handler.trace) + [if isKey then Key(text) else String(text)]
      ensures ok == handler.accepts(handler.trace) && Kept(input, handler)
    {
      var length, str := sink.InPlaceText(text);
      var e := if isKey then Key(str) else String(str);
      TextsStep(handler.trace, e);
      SpansAdd(handler.spans, Texts(handler.trace), input.src[..], input.pos, Span(sink.head, length));
      assert input.src[..][sink.head..sink.head + length] == input.src[sink.head..sink.head + length];
      ok := handler.HandleSpan(e, Span(sink.head, length));
    }

    // The string that a sink has got.
    method SendString(input: StringStream, handler: Handler, sink: StringSink, ghost text: Bytes, isKey: bool)
      requires Fine(input, handler) && sink.Valid() && sink.stream == input && sink.insitu == insitu
      requires sink.Written() == text + [0]
      modifies `error, `errorOffset, handler`trace, handler`spans
      ensures Shows(input, handler, R.Send(Env(handler), old(handler.trace), if isKey then Key(text) else String(text),
                                           input.Rest(), |input.Rest()|))
      ensures Kept(input, handler)
    {
      var ok;
      if insitu {
        ok := SendInPlace(input, handler, sink, text, isKey);
      } else {
        var str := sink.text[..|sink.text| - 1];
        assert str == text;
        ok := handler.Handle(if isKey then Key(str) else String(str));
      }
      if !ok {
        SetParseError(Termination, input.pos);
      }
    }

    method ParseString(input: StringStream, handler: Handler, isKey: bool)
      requires Fine(input, handler) && input.Front() == QUOTE
      modifies `error, `errorOffset, input`pos, input`dst, input.src, handler`trace, handler`spans
      ensures Shows(input, handler, R.ParseString(Env(handler), old(handler.trace), old(input.Rest()), isKey))
      ensures Kept(input, handler)
      ensures !insitu ==> input.src[..] == old(input.src[..])
    {
      ghost var before, pos, trace, spans := input.src[..], input.pos, handler.trace, handler.spans;
      var _ := input.Take();
      var sink := new StringSink(input, insitu);
      ghost var r := input.Rest();
      var ok, code, offset := ParseStringToStream(sink);
      if insitu {
        assert before[..pos] == input.src[..][..pos] by {
          assert before[..sink.head][..pos] == input.src[..sink.head][..pos];
        }
        SpansStay(spans, Texts(trace), before, pos, input.src[..], input.pos);
      }
      if ok {
        SendString(input, handler, sink, ScanString(r).text, isKey);
      } else {
        SetParseError(code, offset);
      }
    }

    method ParseNumber(input: StringStream, handler: Handler)
      requires Fine(input, handler)
      modifies `error, `errorOffset, input`pos, handler`trace
      ensures Shows(input, handler, R.ParseNumber(Env(handler), old(handler.trace), old(input.Rest())))
      ensures Kept(input, handler)
    {
      var startOffset := input.pos;
      var ok, code, offset, event := ReadNumber(input, overflows);
      if ok {
        Send(input, handler, event, startOffset);
      } else {
        SetParseError(code, offset);
      }
    }

    // ParseValue, where no array or object begins.
    method ParseScalar(input: StringStream, handler: Handler)
      requires Fine(input, handler) && R.IsScalar(input.Front())
      modifies `error, `errorOffset, input`pos, input`dst, input.src, handler`trace, handler`spans
      ensures Shows(input, handler, R.ParseScalar(Env(handler), old(handler.trace), old(input.Rest())))
      ensures Kept(input, handler)
      ensures !insitu ==> input.src[..] == old(input.src[..])
    {
      var c := input.Front();
      if c == LOWER_N {
        ParseWord(input, handler, NULL_TEXT, Null);
      } else if c == LOWER_T {
        ParseWord(input, handler, TRUE_TEXT, Bool(true));
      } else if c == LOWER_F {
        ParseWord(input, handler, FALSE_TEXT, Bool(false));
      } else if c == QUOTE {
        ParseString(input, handler, false);
      } else {
        ParseNumber(input, handler);
      }
    }

    method ParseValue(input: StringStream, handler: Handler)
      requires Fine(input, handler)
      modifies `error, `errorOffset, input`pos, input`dst, input.src, handler`trace, handler`spans
      ensures Shows(input, handler, R.ParseValue(Env(handler), old(handler.trace), old(input.Rest())))
      ensures Kept(input, handler)
      ensures !insitu ==> input.src[..] == old(input.src[..])
      decreases |input.Rest()|, 1
    {
      var c := input.Front();
      if c == LEFT_BRACE {
        ParseObject(input, handler);
      } else if c == LEFT_BRACKET {
        ParseArray(input, handler);
      } else {
        ParseScalar(input, handler);
      }
    }

    // A bracket with its event, which is sent behind it.
    method Bracket(input: StringStream, handler: Handler, bracket: byte, e: Event)
      requires Fine(input, handler) && input.Front() == bracket != 0 && !e.String? && !e.Key?
      modifies `error, `errorOffset, input`pos, handler`trace
      ensures Shows(input, handler,
                    R.Send(Env(handler), old(handler.trace), e, old(input.Rest())[1..], |old(input.Rest())| - 1))
      ensures Kept(input, handler)
    {
      var _ := Eat(input, handler, bracket);
      Send(input, handler, e, input.pos);
    }

    method ParseArray(input: StringStream, handler: Handler)
      requires Fine(input, handler) && input.Front() == LEFT_BRACKET
      modifies `error, `errorOffset, input`pos, input`dst, input.src, handler`trace, handler`spans
      ensures Shows(input, handler, R.ParseValue(Env(handler), old(handler.trace), old(input.Rest())))
      ensures Kept(input, handler)
      ensures !insitu ==> input.src[..] == old(input.src[..])
      decreases |input.Rest()|, 0
    {
      Bracket(input, handler, LEFT_BRACKET, StartArray);
      if error.Some? { return; }
      Skip(input, handler);
      if input.Front() == RIGHT_BRACKET {
        Bracket(input, handler, RIGHT_BRACKET, EndArray(0));
      } else {
        ParseElements(input, handler);
      }
    }

    // The loop of ParseArray.
    method ParseElements(input: StringStream, handler: Handler)
      requires Fine(input, handler)
      modifies `error, `errorOffset, input`pos, input`dst, input.src, handler`trace, handler`spans
      ensures Shows(input, handler, R.Elements(Env(handler), old(handler.trace), old(input.Rest()), 0))
      ensures Kept(input, handler)
      ensures !insitu ==> input.src[..] == old(input.src[..])
      decreases |input.Rest()|, 2
    {
      ghost var env, whole := Env(handler), R.Elements(Env(handler), handler.trace, input.Rest(), 0);
      var elementCount: nat := 0;
      while true
        invariant Fine(input, handler) && |input.Rest()| <= old(|input.Rest()|)
        invariant R.Elements(env, handler.trace, input.Rest(), elementCount) == whole
        invariant !insitu ==> input.src[..] == old(input.src[..])
        decreases |input.Rest()|
      {
        ParseValue(input, handler);
        if error.Some? { return; }
        Skip(input, handler);
        var done := AfterElement(input, handler, elementCount);
        if done { return; }
        elementCount := (elementCount + 1) % R.SIZE_LIMIT;
      }
    }

    // A comma or the end, behind the last of count + 1 elements.
    method AfterElement(input: StringStream, handler: Handler, count: nat) returns (done: bool)
      requires Fine(input, handler)
      modifies `error, `errorOffset, input`pos, handler`trace
      ensures var whole := R.AfterElement(Env(handler), old(handler.trace), old(input.Rest()), count);
              if done then Shows(input, handler, whole)
              else
                && Fine(input, handler) && |input.Rest()| < old(|input.Rest()|)
                && R.Elements(Env(handler), handler.trace, input.Rest(), (count + 1) % R.SIZE_LIMIT) == whole
      ensures Kept(input, handler)
    {
      done := true;
      if input.Front() == COMMA {
        var _ := Eat(input, handler, COMMA);
        Skip(input, handler);
        done := false;
      } else if input.Front() == RIGHT_BRACKET {
        Bracket(input, handler, RIGHT_BRACKET, EndArray((count + 1) % R.SIZE_LIMIT));
      } else {
        SetParseError(ArrayMissCommaOrSquareBracket, input.pos);
      }
    }

    method ParseObject(input: StringStream, handler: Handler)
      requires Fine(input, handler) && input.Front() == LEFT_BRACE
      modifies `error, `errorOffset, input`pos, input`dst, input.src, handler`trace, handler`spans
      ensures Shows(input, handler, R.ParseValue(Env(handler), old(handler.trace), old(input.Rest())))
      ensures Kept(input, handler)
      ensures !insitu ==> input.src[..] == old(input.src[..])
      decreases |input.Rest()|, 0
    {
      Bracket(input, handler, LEFT_BRACE, StartObject);
      if error.Some? { return; }
      Skip(input, handler);
      if input.Front() == RIGHT_BRACE {
        Bracket(input, handler, RIGHT_BRACE, EndObject(0));
      } else {
        ParseMembers(input, handler);
      }
    }

    // The loop of ParseObject.
    method ParseMembers(input: StringStream, handler: Handler)
      requires Fine(input, handler)
      modifies `error, `errorOffset, input`pos, input`dst, input.src, handler`trace, handler`spans
      ensures Shows(input, handler, R.Members(Env(handler), old(handler.trace), old(input.Rest()), 0))
      ensures Kept(input, handler)
      ensures !insitu ==> input.src[..] == old(input.src[..])
      decreases |input.Rest()|, 2
    {
      ghost var env, whole := Env(handler), R.Members(Env(handler), handler.trace, input.Rest(), 0);
      var memberCount: nat := 0;
      while true
        invariant Fine(input, handler) && |input.Rest()| <= old(|input.Rest()|)
        invariant R.Members(env, handler.trace, input.Rest(), memberCount) == whole
        invariant !insitu ==> input.src[..] == old(input.src[..])
        decreases |input.Rest()|
      {
        ParseName(input, handler, memberCount);
        if error.Some? { return; }
        ParseValue(input, handler);
        if error.Some? { return; }
        Skip(input, handler);
        var done := AfterMember(input, handler, memberCount);
        if done { return; }
        memberCount := (memberCount + 1) % R.SIZE_LIMIT;
      }
    }

    // A name and its colon.
    method ParseName(input: StringStream, handler: Handler, ghost count: nat)
      requires Fine(input, handler)
      modifies `error, `errorOffset, input`pos, input`dst, input.src, handler`trace, handler`spans
      ensures var whole := R.Members(Env(handler), old(handler.trace), old(input.Rest()), count);
              if error.Some? then Shows(input, handler, whole)
              else
                && Fine(input, handler) && |input.Rest()| < old(|input.Rest()|)
                && R.MemberValue(Env(handler), handler.trace, input.Rest(), count) == whole
      ensures Kept(input, handler)
      ensures !insitu ==> input.src[..] == old(input.src[..])
    {
      if input.Front() != QUOTE {
        SetParseError(ObjectMissName, input.pos);
        return;
      }
      ParseString(input, handler, true);
      if error.Some? { return; }
      Skip(input, handler);
      var colon := Eat(input, handler, COLON);
      if !colon {
        SetParseError(ObjectMissColon, input.pos);
        return;
      }
      Skip(input, handler);
    }

    // A comma or the end, behind the last of count + 1 members.
    method AfterMember(input: StringStream, handler: Handler, count: nat) returns (done: bool)
      requires Fine(input, handler)
      modifies `error, `errorOffset, input`pos, handler`trace
      ensures var whole := R.AfterMember(Env(handler), old(handler.trace), old(input.Rest()), count);
              if done then Shows(input, handler, whole)
              else
                && Fine(input, handler) && |input.Rest()| < old(|input.Rest()|)
                && R.Members(Env(handler), handler.trace, input.Rest(), (count + 1) % R.SIZE_LIMIT) == whole
      ensures Kept(input, handler)
    {
      done := true;
      if input.Front() == COMMA {
        var _ := Eat(input, handler, COMMA);
        Skip(input, handler);
        done := false;
      } else if input.Front() == RIGHT_BRACE {
        Bracket(input, handler, RIGHT_BRACE, EndObject((count + 1) % R.SIZE_LIMIT));
      } else {
        SetParseError(ObjectMissCommaOrCurlyBracket, input.pos);
      }
    }

    /** The recursive parse of a whole text. Copying or in place, it sends the same events and comes
        to the same end; in place, every string it has handed out reads, at the end of the parse,
        as it did when it was sent. */
    method Parse(input: StringStream, handler: Handler)
      requires Fine(input, handler) && handler.trace == []
      modifies `error, `errorOffset, input`pos, input`dst, input.src, handler`trace, handler`spans
      ensures Shows(input, handler, R.Parse(Env(handler), old(input.Rest())))
      ensures insitu ==> SpansIn(handler.spans, Texts(handler.trace), input.src[..], input.pos)
      ensures !insitu ==> input.src[..] == old(input.src[..])
    {
      Skip(input, handler);
      if input.Front() == 0 {
        SetParseError(DocumentEmpty, input.pos);
        return;
      }
      ParseValue(input, handler);
      if error.Some? { return; }
      Skip(input, handler);
      if input.Front() != 0 {
        SetParseError(DocumentRootNotSingular, input.pos);
      }
    }

    // ---------------------------------------------------------------------------
    // The table-driven parse.

    // The configuration of the automaton in this state.
    ghost function Here(input: StringStream, handler: Handler, state: I.State): I.Config
      requires input.Valid()
      reads this, input, input.src, handler
    {
      I.Config(state, stack, handler.trace, input.Rest(), R.Clear)
    }

    // The automaton has come to configuration d.
    ghost predicate Reached(input: StringStream, handler: Handler, d: I.Config)
      reads this, input, input.src, handler
    {
      stack == d.stack && Shows(input, handler, R.Outcome(d.trace, d.rest, d.failure))
    }

    method Transit(input: StringStream, handler: Handler, src: I.State, dst: I.State) returns (state: I.State)
      requires Fine(input, handler) && input.Front() != 0 && I.Placed(Here(input, handler, src))
      requires dst == I.Predict(src, I.Tokenize(input.Front()))
      modifies `error, `errorOffset, `stack, input`pos, input`dst, input.src, handler`trace, handler`spans
      ensures var d := old(I.Transit(Env(handler), Here(input, handler, src), dst));
              state == d.state && Reached(input, handler, d)
      ensures Kept(input, handler)
      ensures !insitu ==> input.src[..] == old(input.src[..])
    {
      I.PredictStays(src, I.Tokenize(input.Front()));
      match dst
      case ErrorState => state := dst;
      case ObjectInitialState => state := Open(input, handler, src, dst, StartObject);
      case ArrayInitialState => state := Open(input, handler, src, dst, StartArray);
      case MemberKeyState => state := ParseKeyInto(input, handler, src);
      case KeyValueDelimiterState =>
        var _ := Eat(input, handler, COLON);
        state := dst;
      case MemberValueState => state := ParseScalarInto(input, handler, src, dst);
      case ElementState => state := ParseScalarInto(input, handler, src, dst);
      case MemberDelimiterState =>
        TakeDelimiter(input, handler, src, dst);
        state := dst;
      case ElementDelimiterState =>
        TakeDelimiter(input, handler, src, dst);
        state := dst;
      case ObjectFinishState => state := FinishObject(input, handler, src);
      case ArrayFinishState => state := FinishArray(input, handler, src);
      case ValueState => state := ParseScalarInto(input, handler, src, I.FinishState);
      case _ => state := dst;
    }

    // A key, and the state behind it.
    method ParseKeyInto(input: StringStream, handler: Handler, ghost src: I.State) returns (state: I.State)
      requires Fine(input, handler) && input.Front() == QUOTE
      modifies `error, `errorOffset, input`pos, input`dst, input.src, handler`trace, handler`spans
      ensures var c := old(Here(input, handler, src));
              var d := I.Consumed(c, R.ParseString(Env(handler), c.trace, c.rest, true), I.MemberKeyState);
              state == d.state && Reached(input, handler, d)
      ensures Kept(input, handler)
      ensures !insitu ==> input.src[..] == old(input.src[..])
    {
      ParseString(input, handler, true);
      state := if error.Some? then I.ErrorState else I.MemberKeyState;
    }

    // A scalar, and the state behind it.
    method ParseScalarInto(input: StringStream, handler: Handler, ghost src: I.State, dst: I.State)
      returns (state: I.State)
      requires Fine(input, handler) && R.IsScalar(input.Front())
      modifies `error, `errorOffset, input`pos, input`dst, input.src, handler`trace, handler`spans
      ensures var c := old(Here(input, handler, src));
              var d := I.Consumed(c, R.ParseScalar(Env(handler), c.trace, c.rest), dst);
              state == d.state && Reached(input, handler, d)
      ensures Kept(input, handler)
      ensures !insitu ==> input.src[..] == old(input.src[..])
    {
      ParseScalar(input, handler);
      state := if error.Some? then I.ErrorState else dst;
    }

    // The two pushes at the start of a level.
    method PushLevel(src: I.State)
      modifies `stack
      ensures stack == old(stack) + [I.Saved(I.Return(src)), I.Count(0)]
    {
      var n := src;
      if src.ArrayInitialState? || src.ElementDelimiterState? {
        n := I.ElementState;
      } else if src.KeyValueDelimiterState? {
        n := I.MemberValueState;
      }
      stack := stack + [I.Saved(n)];
      stack := stack + [I.Count(0)];
    }

    // A bracket that opens: the state to return to is pushed, with a count of 0 above it.
    method Open(input: StringStream, handler: Handler, src: I.State, dst: I.State, e: Event) returns (state: I.State)
      requires Fine(input, handler) && input.Front() != 0 && !e.String? && !e.Key?
      modifies `error, `errorOffset, `stack, input`pos, handler`trace
      ensures stack == old(stack) + [I.Saved(I.Return(src)), I.Count(0)]
      ensures var o := R.Send(Env(handler), old(handler.trace), e, old(input.Rest()), |old(input.Rest())|);
              if o.failure.Failed? then state.ErrorState? && Shows(input, handler, o)
              else state == dst && Shows(input, handler, o.(rest := old(input.Rest())[1..]))
      ensures Kept(input, handler)
    {
      PushLevel(src);
      Send(input, handler, e, input.pos);
      if error.Some? { return I.ErrorState; }
      var _ := Eat(input, handler, input.Front());
      return dst;
    }

    // A delimiter: one more element or member is counted.
    method TakeDelimiter(input: StringStream, handler: Handler, ghost src: I.State, ghost dst: I.State)
      requires Fine(input, handler) && input.Front() != 0 && stack != [] && I.Framed(stack)
      modifies `stack, input`pos
      ensures Reached(input, handler, old(I.Counted(Here(input, handler, src), dst)))
      ensures Kept(input, handler)
    {
      var top := |stack| - 1;
      stack := stack[top := I.Count((stack[top].n + 1) % R.SIZE_LIMIT)];
      var _ := Eat(input, handler, input.Front());
    }

    // The two pops at the end of a level.
    method PopLevel() returns (count: nat, saved: I.State)
      requires stack != [] && I.Framed(stack)
      modifies `stack
      ensures count == I.TopCount(old(stack)) && saved == I.TopState(old(stack)) && stack == I.Below(old(stack))
    {
      count := stack[|stack| - 1].n;
      stack := stack[..|stack| - 1];
      saved := stack[|stack| - 1].state;
      stack := stack[..|stack| - 1];
      assert stack == I.Below(old(stack));
    }

    // A bracket that closes the level just popped.
    method Close(input: StringStream, handler: Handler, saved: I.State, e: Event) returns (state: I.State)
      requires Fine(input, handler) && input.Front() != 0 && !e.String? && !e.Key?
      modifies `error, `errorOffset, input`pos, handler`trace
      ensures var o := R.Send(Env(handler), old(handler.trace), e, old(input.Rest()), |old(input.Rest())|);
              if o.failure.Failed? then state.ErrorState? && Shows(input, handler, o)
              else
                && state == (if saved.StartState? then I.FinishState else saved)
                && Shows(input, handler, o.(rest := old(input.Rest())[1..]))
      ensures Kept(input, handler)
    {
      state := if saved.StartState? then I.FinishState else saved;
      Send(input, handler, e, input.pos);
      if error.Some? { return I.ErrorState; }
      var _ := Eat(input, handler, input.Front());
    }

    method FinishObject(input: StringStream, handler: Handler, src: I.State) returns (state: I.State)
      requires Fine(input, handler) && I.Placed(Here(input, handler, src))
      requires input.Front() == RIGHT_BRACE && I.Predict(src, I.Tokenize(input.Front())).ObjectFinishState?
      modifies `error, `errorOffset, `stack, input`pos, handler`trace
      ensures var d := old(I.Transit(Env(handler), Here(input, handler, src), I.ObjectFinishState));
              state == d.state && Reached(input, handler, d)
      ensures Kept(input, handler)
    {
      I.PredictStays(src, I.Tokenize(input.Front()));
      if src.MemberDelimiterState? {
        SetParseError(ObjectMissName, input.pos);
        return I.ErrorState;
      }
      var c, n := PopLevel();
      if src.MemberValueState? {
        c := (c + 1) % R.SIZE_LIMIT;
      }
      state := Close(input, handler, n, EndObject(c));
    }

    method FinishArray(input: StringStream, handler: Handler, src: I.State) returns (state: I.State)
      requires Fine(input, handler) && I.Placed(Here(input, handler, src))
      requires input.Front() == RIGHT_BRACKET && I.Predict(src, I.Tokenize(input.Front())).ArrayFinishState?
      modifies `error, `errorOffset, `stack, input`pos, handler`trace
      ensures var d := old(I.Transit(Env(handler), Here(input, handler, src), I.ArrayFinishState));
              state == d.state && Reached(input, handler, d)
      ensures Kept(input, handler)
    {
      I.PredictStays(src, I.Tokenize(input.Front()));
      if src.ElementDelimiterState? {
        SetParseError(ValueInvalid, input.pos);
        return I.ErrorState;
      }
      var c, n := PopLevel();
      if src.ElementState? {
        c := (c + 1) % R.SIZE_LIMIT;
      }
      state := Close(input, handler, n, EndArray(c));
    }

    // HandleError: the error of a state that no token leads out of, unless there is one already.
    method HandleError(input: StringStream, state: I.State)
      requires input.Valid()
      modifies `error, `errorOffset
      ensures if old(error.Some?) then error == old(error) && errorOffset == old(errorOffset)
              else error == Some(I.StuckIn(state)) && errorOffset == input.pos
    {
      if error.None? {
        SetParseError(I.StuckIn(state), input.pos);
      }
    }

    // What the parse has come to, for its caller.
    ghost predicate Ended(input: StringStream, handler: Handler, result: I.Result)
      reads this, input, handler
    {
      && handler.trace == result.trace
      && match result.failure
         case Clear => error.None?
         case Failed(code, left) => error == Some(code) && errorOffset == input.src.Length - left
    }

    /** The table-driven parse of a whole text, with an explicit stack of states and counts. */
    method IterativeParse(input: StringStream, handler: Handler)
      requires Fine(input, handler) && handler.trace == []
      modifies `error, `errorOffset, `stack, input`pos, input`dst, input.src, handler`trace, handler`spans
      ensures Ended(input, handler, I.IterativeParse(Env(handler), old(input.Rest())))
      ensures insitu ==> SpansIn(handler.spans, Texts(handler.trace), input.src[..], input.pos)
      ensures !insitu ==> input.src[..] == old(input.src[..])
    {
      ghost var env, whole := Env(handler), I.IterativeParse(Env(handler), input.Rest());
      var state := I.StartState;
      stack := [];
      Skip(input, handler);
      while input.Front() != 0
        invariant Fine(input, handler) && I.Placed(Here(input, handler, state))
        invariant I.Iterate(env, Here(input, handler, state)) == whole
        invariant !insitu ==> input.src[..] == old(input.src[..])
        decreases |input.Rest()|
      {
        ghost var c := Here(input, handler, state);
        var n := I.Predict(state, I.Tokenize(input.Front()));
        var d := Transit(input, handler, state, n);
        if d.ErrorState? {
          HandleError(input, state);
          return;
        }
        I.StepPlaced(env, c);
        state := d;
        Skip(input, handler);
      }
      if !state.FinishState? {
        HandleError(input, state);
      }
    }
  }
}
