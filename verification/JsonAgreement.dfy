/** The table-driven reader does what the recursive reader does: each of its configurations stands
    for what the recursive reader would still do, and no step changes that. */
module JsonAgreement {
  import opened BigIntBytes
  import opened JsonTree
  import opened JsonText
  import opened JsonReader
  import opened JsonIterative

  // The array or object of the level above `stack` has ended in o: what is left for the levels
  // below, of which `saved` says what kind the next one is.
  function Unwind(env: Env, o: Outcome, saved: State, stack: seq<Slot>): Outcome
    requires Framed(stack)
    decreases |stack|
  {
    if o.failure.Failed? then o
    else if stack == [] then AtEnd(o.trace, SkipSpaces(o.rest))
    else Unwind(env, Finish(env, o, saved, TopCount(stack)), TopState(stack), Below(stack))
  }

  // The rest of an array or object, one of whose values has just ended in o.
  function Finish(env: Env, o: Outcome, saved: State, count: nat): Outcome {
    if saved.ElementState? then AfterElement(env, o.trace, SkipSpaces(o.rest), count)
    else AfterMember(env, o.trace, SkipSpaces(o.rest), count)
  }

  // What the recursive reader would do up to the end of the innermost array or object.
  function Inside(env: Env, c: Config): Outcome
    requires Placed(c) && c.stack != []
  {
    var n := TopCount(c.stack);
    match c.state
    case ArrayInitialState => ArrayBody(env, c.trace, c.rest)
    case ElementState => AfterElement(env, c.trace, c.rest, n)
    case ElementDelimiterState => Elements(env, c.trace, c.rest, n)
    case ObjectInitialState => ObjectBody(env, c.trace, c.rest)
    case MemberKeyState => AfterKey(env, c.trace, c.rest, n)
    case KeyValueDelimiterState => MemberValue(env, c.trace, c.rest, n)
    case MemberValueState => AfterMember(env, c.trace, c.rest, n)
    case _ => Members(env, c.trace, c.rest, n)
  }

  // What the recursive reader would still do.
  function Resume(env: Env, c: Config): Outcome
    requires Placed(c)
  {
    if c.stack != [] then Unwind(env, Inside(env, c), TopState(c.stack), Below(c.stack))
    else if c.state.FinishState? then AtEnd(c.trace, c.rest)
    else if Peek(c.rest) == 0 then Fail(c.trace, c.rest, DocumentEmpty, |c.rest|)
    else
      var o := ParseValue(env, c.trace, c.rest);
      if o.failure.Failed? then o else AtEnd(o.trace, SkipSpaces(o.rest))
  }

  predicate Structural(e: Event) {
    e.StartObject? || e.EndObject? || e.StartArray? || e.EndArray?
  }

  // The automaton sends a structural event before it takes the bracket, so a handler that refuses
  // one stops it one byte earlier.
  function Seen(o: Outcome): Result {
    Result(o.trace,
           match o.failure
           case Failed(Termination, left) =>
             if o.trace != [] && Structural(o.trace[|o.trace| - 1]) then Failed(Termination, left + 1) else o.failure
           case _ => o.failure)
  }

  // A token that cannot begin the text at all.
  predicate RootRefused(c: Config) {
    c.state.StartState? && Predict(c.state, Tokenize(Peek(c.rest))).ErrorState?
  }

  // ---------------------------------------------------------------------------
  // The step from each kind of state.

  function Next(d: Config): Config {
    d.(rest := SkipSpaces(d.rest))
  }

  // One step either keeps what is still to be done, or stops with what it would have come to.
  ghost predicate Kept(env: Env, c: Config, d: Config)
    requires Placed(c) && Peek(c.rest) != 0
  {
    if d.state.ErrorState? then
      Result(d.trace, HandleError(c.state, d.failure, d.rest)) == Seen(Resume(env, c))
    else Placed(d) && Resume(env, Next(d)) == Resume(env, c)
  }

  // A bracket that opens an array or object.
  lemma OpenKept(env: Env, c: Config, dst: State, e: Event)
    requires Placed(c) && Peek(c.rest) != 0 && ExpectsValue(c.state)
    requires if e.StartArray? then dst.ArrayInitialState? && Peek(c.rest) == LEFT_BRACKET
             else e.StartObject? && dst.ObjectInitialState? && Peek(c.rest) == LEFT_BRACE
    ensures Kept(env, c, Open(env, c, dst, e))
  {
    var d := Open(env, c, dst, e);
    OpenPlaced(env, c, dst, e);
    if d.failure.Clear? {
      OpenResumed(env, c, Next(d));
    } else {
      OpenRefused(env, c, e);
    }
  }

  // In front of a value, the rest of the level is that value and then what follows it.
  lemma InsideAtValue(env: Env, c: Config)
    requires Placed(c) && c.stack != [] && ExpectsValue(c.state)
    requires c.state.ArrayInitialState? ==> Peek(c.rest) != RIGHT_BRACKET
    ensures var o := ParseValue(env, c.trace, c.rest);
            Inside(env, c) == if o.failure.Failed? then o else Finish(env, o, Return(c.state), TopCount(c.stack))
  {
    match c.state
    case ArrayInitialState =>
      assert Inside(env, c) == Elements(env, c.trace, c.rest, 0);
    case ElementDelimiterState =>
    case KeyValueDelimiterState =>
      assert Inside(env, c) == MemberValue(env, c.trace, c.rest, TopCount(c.stack));
  }

  lemma OpenRefused(env: Env, c: Config, e: Event)
    requires Placed(c) && Peek(c.rest) != 0 && ExpectsValue(c.state)
    requires if e.StartArray? then Peek(c.rest) == LEFT_BRACKET else e.StartObject? && Peek(c.rest) == LEFT_BRACE
    requires !env.accepts(c.trace + [e])
    ensures Resume(env, c) == Outcome(c.trace + [e], c.rest[1..], Failed(Termination, |c.rest| - 1))
  {
    var o := ParseValue(env, c.trace, c.rest);
    assert o == Outcome(c.trace + [e], c.rest[1..], Failed(Termination, |c.rest| - 1));
    if c.stack != [] {
      InsideAtValue(env, c);
    }
  }

  lemma OpenResumed(env: Env, c: Config, d: Config)
    requires Placed(c) && Peek(c.rest) != 0 && ExpectsValue(c.state) && Placed(d) && d.stack != []
    requires Below(d.stack) == c.stack && TopState(d.stack) == Return(c.state)
    requires d.state.ArrayInitialState? || d.state.ObjectInitialState?
    requires d.rest == SkipSpaces(c.rest[1..])
    requires if d.state.ArrayInitialState? then d.trace == c.trace + [StartArray] && Peek(c.rest) == LEFT_BRACKET
             else d.trace == c.trace + [StartObject] && Peek(c.rest) == LEFT_BRACE
    requires env.accepts(d.trace)
    ensures Resume(env, d) == Resume(env, c)
  {
    var o := Inside(env, d);
    assert o == ParseValue(env, c.trace, c.rest);
    if c.stack != [] {
      InsideAtValue(env, c);
    }
  }

  // A refused scalar is refused at the same place by both.
  lemma ScalarSeen(env: Env, trace: seq<Event>, r: Bytes)
    requires IsScalar(Peek(r))
    ensures var o := ParseScalar(env, trace, r); Seen(o) == Result(o.trace, o.failure)
  {
    if Peek(r) == LOWER_N {
      WordSeen(env, trace, r, NULL_TEXT, Null);
    } else if Peek(r) == LOWER_T {
      WordSeen(env, trace, r, TRUE_TEXT, Bool(true));
    } else if Peek(r) == LOWER_F {
      WordSeen(env, trace, r, FALSE_TEXT, Bool(false));
    } else if Peek(r) == QUOTE {
      StringSeen(env, trace, r, false);
    } else {
      NumberSeen(env, trace, r);
    }
  }

  lemma WordSeen(env: Env, trace: seq<Event>, r: Bytes, word: Bytes, e: Event)
    requires word != [] && !Structural(e)
    ensures var o := ParseWord(env, trace, r, word, e); Seen(o) == Result(o.trace, o.failure)
  {
  }

  lemma StringSeen(env: Env, trace: seq<Event>, r: Bytes, isKey: bool)
    requires Peek(r) == QUOTE
    ensures var o := ParseString(env, trace, r, isKey); Seen(o) == Result(o.trace, o.failure)
  {
  }

  lemma NumberSeen(env: Env, trace: seq<Event>, r: Bytes)
    ensures var o := ParseNumber(env, trace, r); Seen(o) == Result(o.trace, o.failure)
  {
  }

  // A scalar in front of the automaton.
  lemma ScalarKept(env: Env, c: Config)
    requires Placed(c) && Peek(c.rest) != 0 && ExpectsValue(c.state)
    requires IsScalar(Peek(c.rest)) && Peek(c.rest) != RIGHT_BRACKET
    ensures var next := if c.state.StartState? then FinishState else Return(c.state);
            Kept(env, c, Consumed(c, ParseScalar(env, c.trace, c.rest), next))
  {
    var o := ParseScalar(env, c.trace, c.rest);
    ScalarSeen(env, c.trace, c.rest);
    assert ParseValue(env, c.trace, c.rest) == o;
    if c.stack != [] {
      InsideAtValue(env, c);
      ConsumedPlaced(c, o, Return(c.state));
    } else {
      ConsumedPlaced(c, o, FinishState);
    }
  }

  lemma KeyKept(env: Env, c: Config)
    requires Placed(c) && (c.state.ObjectInitialState? || c.state.MemberDelimiterState?) && Peek(c.rest) == QUOTE
    ensures Kept(env, c, Consumed(c, ParseString(env, c.trace, c.rest, true), MemberKeyState))
  {
    var o := ParseString(env, c.trace, c.rest, true);
    StringSeen(env, c.trace, c.rest, true);
    ConsumedPlaced(c, o, MemberKeyState);
    assert Inside(env, c) == Members(env, c.trace, c.rest, TopCount(c.stack));
  }

  lemma ColonKept(env: Env, c: Config)
    requires Placed(c) && c.state.MemberKeyState? && Peek(c.rest) == COLON
    ensures Kept(env, c, c.(state := KeyValueDelimiterState, rest := c.rest[1..]))
  {
  }

  lemma CommaKept(env: Env, c: Config)
    requires Placed(c) && (c.state.ElementState? || c.state.MemberValueState?) && Peek(c.rest) == COMMA
    ensures Kept(env, c, Counted(c, if c.state.ElementState? then ElementDelimiterState else MemberDelimiterState))
  {
    var dst := if c.state.ElementState? then ElementDelimiterState else MemberDelimiterState;
    CountedPlaced(c, dst);
    assert Inside(env, Next(Counted(c, dst))) == Inside(env, c);
  }

  // The end of an array or object, sent with this event.
  lemma CloseKept(env: Env, c: Config, e: Event)
    requires Placed(c) && c.rest != [] && Peek(c.rest) != 0 && c.stack != [] && Structural(e)
    requires Inside(env, c) == Send(env, c.trace, e, c.rest[1..], |c.rest| - 1)
    ensures Kept(env, c, Close(env, c, e))
  {
    ClosePlaced(env, c, e);
    var d, o := Close(env, c, e), Inside(env, c);
    if d.failure.Clear? && d.stack != [] {
      assert Inside(env, Next(d)) == Finish(env, o, TopState(c.stack), TopCount(d.stack));
    }
  }

  // No value begins here.
  lemma NotAValue(env: Env, trace: seq<Event>, r: Bytes)
    requires Peek(r) == 0 || Peek(r) == RIGHT_BRACKET || Peek(r) == RIGHT_BRACE || Peek(r) == COMMA || Peek(r) == COLON
    ensures ParseValue(env, trace, r) == Fail(trace, r, ValueInvalid, |r|)
  {
  }

  lemma StuckBeforeValue(env: Env, c: Config)
    requires Placed(c) && c.stack != [] && ExpectsValue(c.state)
    requires Peek(c.rest) == 0 || Predict(c.state, Tokenize(Peek(c.rest))).ErrorState?
    ensures Inside(env, c) == Fail(c.trace, c.rest, ValueInvalid, |c.rest|)
  {
    NotAValue(env, c.trace, c.rest);
    InsideAtValue(env, c);
  }

  lemma StuckElsewhere(env: Env, c: Config)
    requires Placed(c) && c.stack != [] && !ExpectsValue(c.state)
    requires Peek(c.rest) == 0 || Predict(c.state, Tokenize(Peek(c.rest))).ErrorState?
    ensures Inside(env, c) == Fail(c.trace, c.rest, StuckIn(c.state), |c.rest|)
  {
    match c.state
    case ObjectInitialState =>
      assert Inside(env, c) == Members(env, c.trace, c.rest, 0);
    case MemberDelimiterState =>
      assert Inside(env, c) == Members(env, c.trace, c.rest, TopCount(c.stack));
    case MemberKeyState =>
      assert Inside(env, c) == AfterKey(env, c.trace, c.rest, TopCount(c.stack));
    case _ =>
  }

  // No token leads on, or the text ends here.
  lemma StuckInside(env: Env, c: Config)
    requires Placed(c) && c.stack != []
    requires Peek(c.rest) == 0 || Predict(c.state, Tokenize(Peek(c.rest))).ErrorState?
    ensures Resume(env, c) == Fail(c.trace, c.rest, StuckIn(c.state), |c.rest|)
  {
    if ExpectsValue(c.state) {
      StuckBeforeValue(env, c);
    } else {
      StuckElsewhere(env, c);
    }
  }

  // A closing bracket after a comma.
  lemma TrailingComma(env: Env, c: Config)
    requires Placed(c) && (c.state.ElementDelimiterState? || c.state.MemberDelimiterState?)
    requires Peek(c.rest) == if c.state.ElementDelimiterState? then RIGHT_BRACKET else RIGHT_BRACE
    ensures Resume(env, c) ==
            Fail(c.trace, c.rest, if c.state.ElementDelimiterState? then ValueInvalid else ObjectMissName, |c.rest|)
  {
    NotAValue(env, c.trace, c.rest);
    assert Inside(env, c).failure.Failed?;
  }

  lemma BracketKept(env: Env, c: Config, dst: State)
    requires Placed(c) && Peek(c.rest) != 0 && dst == Predict(c.state, Tokenize(Peek(c.rest)))
    requires dst.ObjectFinishState? || dst.ArrayFinishState?
    ensures Kept(env, c, Transit(env, c, dst))
  {
    PredictStays(c.state, Tokenize(Peek(c.rest)));
    if c.state.MemberDelimiterState? || c.state.ElementDelimiterState? {
      TrailingComma(env, c);
    } else if dst.ObjectFinishState? {
      CloseKept(env, c, EndObject(if c.state.MemberValueState? then (TopCount(c.stack) + 1) % SIZE_LIMIT
                                  else TopCount(c.stack)));
    } else {
      CloseKept(env, c, EndArray(if c.state.ElementState? then (TopCount(c.stack) + 1) % SIZE_LIMIT
                                 else TopCount(c.stack)));
    }
  }

  /** One step of the automaton, from any configuration that the loop can be in. */
  lemma StepKept(env: Env, c: Config)
    requires Placed(c) && Peek(c.rest) != 0 && !RootRefused(c)
    ensures Kept(env, c, Step(env, c))
  {
    var t := Tokenize(Peek(c.rest));
    var dst := Predict(c.state, t);
    PredictStays(c.state, t);
    match dst
    case ErrorState => if c.stack != [] { StuckInside(env, c); }
    case ObjectInitialState => OpenKept(env, c, dst, StartObject);
    case ArrayInitialState => OpenKept(env, c, dst, StartArray);
    case MemberKeyState => KeyKept(env, c);
    case KeyValueDelimiterState => ColonKept(env, c);
    case MemberValueState => ScalarKept(env, c);
    case ElementState => ScalarKept(env, c);
    case MemberDelimiterState => CommaKept(env, c);
    case ElementDelimiterState => CommaKept(env, c);
    case ObjectFinishState => BracketKept(env, c, dst);
    case ArrayFinishState => BracketKept(env, c, dst);
    case _ => ScalarKept(env, c);
  }

  lemma AtEof(env: Env, c: Config)
    requires Placed(c) && Peek(c.rest) == 0
    ensures Iterate(env, c) == Seen(Resume(env, c))
  {
    if c.stack != [] { StuckInside(env, c); }
  }

  lemma Unrolled(env: Env, c: Config)
    requires Placed(c) && Peek(c.rest) != 0
    ensures var d := Step(env, c);
            if d.state.ErrorState? then Iterate(env, c) == Result(d.trace, HandleError(c.state, d.failure, d.rest))
            else
              && Placed(Next(d)) && !d.state.StartState? && |Next(d).rest| < |c.rest|
              && Iterate(env, c) == Iterate(env, Next(d))
  {
    if !Step(env, c).state.ErrorState? {
      StepPlaced(env, c);
    }
  }

  /** From any configuration the automaton comes to what it stands for. */
  lemma {:induction false} IterateAgrees(env: Env, c: Config)
    requires Placed(c) && SkipSpaces(c.rest) == c.rest && !RootRefused(c)
    ensures Iterate(env, c) == Seen(Resume(env, c))
    decreases |c.rest|
  {
    if Peek(c.rest) == 0 {
      AtEof(env, c);
    } else {
      StepKept(env, c);
      Unrolled(env, c);
      var d := Step(env, c);
      if !d.state.ErrorState? {
        SkippedOnce(d.rest);
        IterateAgrees(env, Next(d));
      }
    }
  }

  lemma {:induction false} SkippedOnce(r: Bytes)
    ensures SkipSpaces(SkipSpaces(r)) == SkipSpaces(r)
  {
  }

  // A text that begins with a closing bracket, a comma or a colon.
  predicate BeginsBadly(text: Bytes) {
    Predict(StartState, Tokenize(Peek(SkipSpaces(text)))).ErrorState?
  }

  /** On every text and for every handler, both readers send the same events and come to the same
      error at the same place, with two exceptions: a text that begins with a closing bracket, a
      comma or a colon is called empty by the table-driven reader, and that reader reports a
      structural event that the handler refuses one byte earlier. */
  lemma IterativeAgrees(env: Env, text: Bytes)
    ensures IterativeParse(env, text) ==
            if BeginsBadly(text) then Result([], Failed(DocumentEmpty, |SkipSpaces(text)|))
            else Seen(Parse(env, text))
    ensures BeginsBadly(text) ==> Parse(env, text) == Fail([], SkipSpaces(text), ValueInvalid, |SkipSpaces(text)|)
  {
    var c := Config(StartState, [], [], SkipSpaces(text), Clear);
    SkippedOnce(text);
    if BeginsBadly(text) {
      NotAValue(env, [], SkipSpaces(text));
    } else {
      IterateAgrees(env, c);
    }
  }

  /** The verdicts agree without exception, and so do the events. */
  lemma SameVerdictAndEvents(env: Env, text: Bytes)
    ensures IterativeParse(env, text).failure.Clear? <==> Parse(env, text).failure.Clear?
    ensures IterativeParse(env, text).trace == Parse(env, text).trace
  {
    IterativeAgrees(env, text);
  }

  /** A root that begins badly: both parsers refuse "]", each with a code of its own. */
  lemma BadRoot(env: Env)
    ensures IterativeParse(env, [RIGHT_BRACKET]) == Result([], Failed(DocumentEmpty, 1))
    ensures Parse(env, [RIGHT_BRACKET]) == Fail([], [RIGHT_BRACKET], ValueInvalid, 1)
  {
    IterativeAgrees(env, [RIGHT_BRACKET]);
  }
}
