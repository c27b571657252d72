/** The table-driven reader: a pushdown automaton with an explicit stack. */
module JsonIterative {
  import opened BigIntBytes
  import opened JsonTree
  import opened JsonText
  import opened JsonReader

  datatype State =
    | FinishState | ErrorState | StartState
    | ObjectInitialState | MemberKeyState | MemberValueState | ObjectFinishState
    | ArrayInitialState | ElementState | ArrayFinishState
    | ValueState
    | ElementDelimiterState | MemberDelimiterState | KeyValueDelimiterState

  datatype Token =
    | LeftBracketToken | RightBracketToken | LeftCurlyBracketToken | RightCurlyBracketToken
    | CommaToken | ColonToken | StringToken | FalseToken | TrueToken | NullToken | NumberToken

  function Tokenize(c: byte): Token {
    if c == LEFT_BRACKET then LeftBracketToken
    else if c == RIGHT_BRACKET then RightBracketToken
    else if c == LEFT_BRACE then LeftCurlyBracketToken
    else if c == RIGHT_BRACE then RightCurlyBracketToken
    else if c == COMMA then CommaToken
    else if c == COLON then ColonToken
    else if c == QUOTE then StringToken
    else if c == LOWER_F then FalseToken
    else if c == LOWER_T then TrueToken
    else if c == LOWER_N then NullToken
    else NumberToken
  }

  // The rows of the table that lead to a value: what a scalar and a closing bracket lead to.
  function PredictValue(token: Token, scalar: State, closing: State): State {
    match token
    case LeftBracketToken => ArrayInitialState
    case LeftCurlyBracketToken => ObjectInitialState
    case RightBracketToken => closing
    case RightCurlyBracketToken => ErrorState
    case CommaToken => ErrorState
    case ColonToken => ErrorState
    case _ => scalar
  }

  // The table G.
  function Predict(state: State, token: Token): State {
    match state
    case StartState => PredictValue(token, ValueState, ErrorState)
    case ArrayInitialState => PredictValue(token, ElementState, ArrayFinishState)
    case ElementDelimiterState => PredictValue(token, ElementState, ArrayFinishState)
    case KeyValueDelimiterState => PredictValue(token, MemberValueState, ErrorState)
    case ElementState =>
      if token.CommaToken? then ElementDelimiterState
      else if token.RightBracketToken? then ArrayFinishState
      else ErrorState
    case ObjectInitialState =>
      if token.StringToken? then MemberKeyState
      else if token.RightCurlyBracketToken? then ObjectFinishState
      else ErrorState
    case MemberDelimiterState =>
      if token.StringToken? then MemberKeyState
      else if token.RightCurlyBracketToken? then ObjectFinishState
      else ErrorState
    case MemberKeyState => if token.ColonToken? then KeyValueDelimiterState else ErrorState
    case MemberValueState =>
      if token.CommaToken? then MemberDelimiterState
      else if token.RightCurlyBracketToken? then ObjectFinishState
      else ErrorState
    case _ => ErrorState
  }

  // ---------------------------------------------------------------------------
  // The stack of 32-bit numbers: states and counts.

  datatype Slot = Saved(state: State) | Count(n: nat)

  // Every level owns one saved state with one count above it; the lowest saved state is Start.
  predicate Framed(stack: seq<Slot>)
    decreases |stack|
  {
    stack != [] ==>
    && |stack| >= 2
    && stack[|stack| - 1].Count? && stack[|stack| - 2].Saved?
    && (if |stack| == 2 then stack[0].state.StartState?
        else stack[|stack| - 2].state.ElementState? || stack[|stack| - 2].state.MemberValueState?)
    && Framed(stack[..|stack| - 2])
  }

  function TopCount(stack: seq<Slot>): nat
    requires stack != [] && Framed(stack)
  {
    stack[|stack| - 1].n
  }

  function TopState(stack: seq<Slot>): State
    requires stack != [] && Framed(stack)
  {
    stack[|stack| - 2].state
  }

  function Below(stack: seq<Slot>): seq<Slot>
    requires stack != [] && Framed(stack)
  {
    stack[..|stack| - 2]
  }

  datatype Config = Config(state: State, stack: seq<Slot>, trace: seq<Event>, rest: Bytes, failure: Failure)

  predicate InArray(s: State) {
    s.ArrayInitialState? || s.ElementState? || s.ElementDelimiterState?
  }

  predicate InObject(s: State) {
    s.ObjectInitialState? || s.MemberKeyState? || s.MemberValueState? || s.MemberDelimiterState?
    || s.KeyValueDelimiterState?
  }

  // A state the loop can be in, with the stack that belongs to it.
  predicate Placed(c: Config) {
    && Framed(c.stack) && c.failure.Clear?
    && (if c.stack == [] then c.state.StartState? || c.state.FinishState?
        else InArray(c.state) || InObject(c.state))
    && (c.state.ArrayInitialState? || c.state.ObjectInitialState? ==> TopCount(c.stack) == 0)
  }

  function Stop(c: Config, o: Outcome): Config {
    Config(ErrorState, c.stack, o.trace, o.rest, o.failure)
  }

  // A value or key that ParseValue or ParseString deals with, then the next state.
  function Consumed(c: Config, o: Outcome, next: State): Config {
    if o.failure.Failed? then Stop(c, o) else Config(next, c.stack, o.trace, o.rest, Clear)
  }

  // Transit, for the state that the table predicts. Here a structural event is sent before its
  // bracket is taken.
  function Transit(env: Env, c: Config, dst: State): (d: Config)
    requires Placed(c) && Peek(c.rest) != 0 && dst == Predict(c.state, Tokenize(Peek(c.rest)))
  {
    match dst
    case ErrorState => Stop(c, Outcome(c.trace, c.rest, Clear))
    case ObjectInitialState => Open(env, c, dst, StartObject)
    case ArrayInitialState => Open(env, c, dst, StartArray)
    case MemberKeyState => Consumed(c, ParseString(env, c.trace, c.rest, true), dst)
    case KeyValueDelimiterState => c.(state := dst, rest := c.rest[1..])
    case MemberValueState => Consumed(c, ParseScalar(env, c.trace, c.rest), dst)
    case ElementState => Consumed(c, ParseScalar(env, c.trace, c.rest), dst)
    case MemberDelimiterState => Counted(c, dst)
    case ElementDelimiterState => Counted(c, dst)
    case ObjectFinishState =>
      if c.state.MemberDelimiterState? then Stop(c, Fail(c.trace, c.rest, ObjectMissName, |c.rest|))
      else
        Close(env, c, EndObject(if c.state.MemberValueState? then (TopCount(c.stack) + 1) % SIZE_LIMIT
                                else TopCount(c.stack)))
    case ArrayFinishState =>
      if c.state.ElementDelimiterState? then Stop(c, Fail(c.trace, c.rest, ValueInvalid, |c.rest|))
      else
        Close(env, c, EndArray(if c.state.ElementState? then (TopCount(c.stack) + 1) % SIZE_LIMIT
                               else TopCount(c.stack)))
    case _ => Consumed(c, ParseScalar(env, c.trace, c.rest), FinishState)
  }

  // The state to come back to when the array or object that begins here has ended.
  function Return(src: State): State {
    if src.ArrayInitialState? || src.ElementDelimiterState? then ElementState
    else if src.KeyValueDelimiterState? then MemberValueState
    else src
  }

  function Open(env: Env, c: Config, dst: State, e: Event): Config
    requires c.rest != []
  {
    var stack := c.stack + [Saved(Return(c.state)), Count(0)];
    var o := Send(env, c.trace, e, c.rest, |c.rest|);
    if o.failure.Failed? then Config(ErrorState, stack, o.trace, o.rest, o.failure)
    else Config(dst, stack, o.trace, c.rest[1..], Clear)
  }

  // A delimiter: one more element or member.
  function Counted(c: Config, dst: State): Config
    requires c.rest != [] && c.stack != [] && Framed(c.stack)
  {
    var top := |c.stack| - 1;
    c.(state := dst, rest := c.rest[1..], stack := c.stack[top := Count((TopCount(c.stack) + 1) % SIZE_LIMIT)])
  }

  function Close(env: Env, c: Config, e: Event): Config
    requires c.rest != [] && c.stack != [] && Framed(c.stack)
  {
    var saved := TopState(c.stack);
    var o := Send(env, c.trace, e, c.rest, |c.rest|);
    if o.failure.Failed? then Config(ErrorState, Below(c.stack), o.trace, o.rest, o.failure)
    else Config(if saved.StartState? then FinishState else saved, Below(c.stack), o.trace, c.rest[1..], Clear)
  }

  // HandleError: the error of a state that no token leads out of.
  function StuckIn(src: State): ParseError {
    match src
    case StartState => DocumentEmpty
    case FinishState => DocumentRootNotSingular
    case ObjectInitialState => ObjectMissName
    case MemberDelimiterState => ObjectMissName
    case MemberKeyState => ObjectMissColon
    case MemberValueState => ObjectMissCommaOrCurlyBracket
    case KeyValueDelimiterState => ValueInvalid
    case ArrayInitialState => ValueInvalid
    case ElementDelimiterState => ValueInvalid
    case _ => ArrayMissCommaOrSquareBracket
  }

  function HandleError(src: State, failure: Failure, r: Bytes): Failure {
    if failure.Failed? then failure else Failed(StuckIn(src), |r|)
  }

  // What a caller gets to see.
  datatype Result = Result(trace: seq<Event>, failure: Failure)

  function Step(env: Env, c: Config): Config
    requires Placed(c) && Peek(c.rest) != 0
  {
    Transit(env, c, Predict(c.state, Tokenize(Peek(c.rest))))
  }

  predicate ExpectsValue(s: State) {
    s.StartState? || s.ArrayInitialState? || s.ElementDelimiterState? || s.KeyValueDelimiterState?
  }

  // The table never leads from one kind of level into the other.
  lemma PredictStays(s: State, t: Token)
    ensures var dst := Predict(s, t);
            && (dst.ArrayInitialState? || dst.ObjectInitialState? ==> ExpectsValue(s))
            && (dst.ElementState? || dst.ElementDelimiterState? || dst.ArrayFinishState? ==> InArray(s))
            && (InObject(dst) && !dst.ObjectInitialState? ==> InObject(s))
            && (dst.ObjectFinishState? ==> InObject(s))
            && (dst.ValueState? ==> s.StartState?)
            && !dst.StartState? && !dst.FinishState?
  {
  }

  lemma FramedPush(stack: seq<Slot>, s: State)
    requires Framed(stack) && (if stack == [] then s.StartState? else s.ElementState? || s.MemberValueState?)
    ensures var pushed := stack + [Saved(s), Count(0)];
            && Framed(pushed) && Below(pushed) == stack && TopState(pushed) == s && TopCount(pushed) == 0
  {
    var pushed := stack + [Saved(s), Count(0)];
    assert pushed[..|pushed| - 2] == stack;
  }

  lemma OpenPlaced(env: Env, c: Config, dst: State, e: Event)
    requires Placed(c) && c.rest != [] && ExpectsValue(c.state)
    requires dst.ArrayInitialState? || dst.ObjectInitialState?
    ensures var d := Open(env, c, dst, e);
            d.failure.Clear? ==>
              Placed(d) && Below(d.stack) == c.stack && TopState(d.stack) == Return(c.state) && TopCount(d.stack) == 0
  {
    FramedPush(c.stack, Return(c.state));
  }

  lemma CountedPlaced(c: Config, dst: State)
    requires Placed(c) && c.rest != [] && c.stack != []
    requires dst.ElementDelimiterState? || dst.MemberDelimiterState?
    ensures var d := Counted(c, dst);
            && Placed(d) && Below(d.stack) == Below(c.stack) && TopState(d.stack) == TopState(c.stack)
            && TopCount(d.stack) == (TopCount(c.stack) + 1) % SIZE_LIMIT
  {
    var d := Counted(c, dst);
    assert d.stack[..|d.stack| - 2] == c.stack[..|c.stack| - 2];
  }

  lemma ClosePlaced(env: Env, c: Config, e: Event)
    requires Placed(c) && c.rest != [] && c.stack != []
    ensures Close(env, c, e).failure.Clear? ==> Placed(Close(env, c, e))
  {
  }

  lemma ConsumedPlaced(c: Config, o: Outcome, dst: State)
    requires Placed(c)
    requires if c.stack == [] then dst.FinishState?
             else dst.ElementState? || dst.MemberKeyState? || dst.MemberValueState?
    ensures o.failure.Clear? ==> Placed(Consumed(c, o, dst))
  {
  }

  lemma StepPlaced(env: Env, c: Config)
    requires Placed(c) && Peek(c.rest) != 0 && !Step(env, c).state.ErrorState?
    ensures Placed(Step(env, c)) && |Step(env, c).rest| < |c.rest| && !Step(env, c).state.StartState?
  {
    var t := Tokenize(Peek(c.rest));
    var dst := Predict(c.state, t);
    PredictStays(c.state, t);
    match dst
    case ObjectInitialState => OpenPlaced(env, c, dst, StartObject);
    case ArrayInitialState => OpenPlaced(env, c, dst, StartArray);
    case MemberDelimiterState => CountedPlaced(c, dst);
    case ElementDelimiterState => CountedPlaced(c, dst);
    case ObjectFinishState =>
      ClosePlaced(env, c, EndObject(if c.state.MemberValueState? then (TopCount(c.stack) + 1) % SIZE_LIMIT
                                    else TopCount(c.stack)));
    case ArrayFinishState =>
      ClosePlaced(env, c, EndArray(if c.state.ElementState? then (TopCount(c.stack) + 1) % SIZE_LIMIT
                                   else TopCount(c.stack)));
    case MemberKeyState => ConsumedPlaced(c, ParseString(env, c.trace, c.rest, true), dst);
    case MemberValueState => ConsumedPlaced(c, ParseScalar(env, c.trace, c.rest), dst);
    case ElementState => ConsumedPlaced(c, ParseScalar(env, c.trace, c.rest), dst);
    case ValueState => ConsumedPlaced(c, ParseScalar(env, c.trace, c.rest), FinishState);
    case _ =>
  }

  // The loop of IterativeParse.
  function Iterate(env: Env, c: Config): Result
    requires Placed(c)
    decreases |c.rest|
  {
    if Peek(c.rest) == 0 then
      Result(c.trace, if c.state.FinishState? then Clear else HandleError(c.state, Clear, c.rest))
    else
      var d := Step(env, c);
      if d.state.ErrorState? then Result(d.trace, HandleError(c.state, d.failure, d.rest))
      else
        StepPlaced(env, c);
        Iterate(env, d.(rest := SkipSpaces(d.rest)))
  }

  function IterativeParse(env: Env, text: Bytes): Result {
    Iterate(env, Config(StartState, [], [], SkipSpaces(text), Clear))
  }
}
