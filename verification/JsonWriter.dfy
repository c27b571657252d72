/** Writer and PrettyWriter: the text of a tree, and the writers as handlers of its events. */
module JsonWriter {
  import opened BigIntBytes
  import opened JsonTree
  import opened JsonText
  import opened Options

  // ---------------------------------------------------------------------------
  // Scalars.

  // The decimal digits of n, as the library's integer printing gives them.
  function DecimalText(n: nat): (digits: Bytes)
    ensures digits != [] && forall i | 0 <= i < |digits| :: IsDigit(digits[i])
  {
    var last := [(0x30 + n % 10) as byte];
    if n < 10 then last else DecimalText(n / 10) + last
  }

  function IntegerText(n: int): Bytes {
    if n < 0 then [MINUS] + DecimalText(-n) else DecimalText(n)
  }

  function HexLetter(n: nat): byte
    requires n < 16
  {
    if n < 10 then (0x30 + n) as byte else (0x41 + n - 10) as byte
  }

  // What one byte of a string is written as: the table `escape`.
  function EscapedByte(c: byte): Bytes {
    if c == QUOTE || c == BACKSLASH then [BACKSLASH, c]
    else if c == 0x08 then [BACKSLASH, LOWER_B]
    else if c == 0x09 then [BACKSLASH, LOWER_T]
    else if c == 0x0A then [BACKSLASH, LOWER_N]
    else if c == 0x0C then [BACKSLASH, LOWER_F]
    else if c == 0x0D then [BACKSLASH, LOWER_R]
    else if c < 0x20 then
      [BACKSLASH, LOWER_U, ZERO, ZERO, HexLetter(c as nat / 16), HexLetter(c as nat % 16)]
    else [c]
  }

  function Escaped(s: Bytes): Bytes {
    if s == [] then [] else EscapedByte(s[0]) + Escaped(s[1..])
  }

  function Quoted(s: Bytes): Bytes {
    [QUOTE] + Escaped(s) + [QUOTE]
  }

  // ---------------------------------------------------------------------------
  // Layout.

  // The plain writer, or the pretty one with its indentation and its array option.
  datatype Style = Plain | Pretty(indentChar: byte, indentCharCount: nat, singleLineArray: bool)

  predicate Proper(style: Style) {
    style.Pretty? ==> IsSpace(style.indentChar)
  }

  function Repeat(c: byte, n: nat): (r: Bytes)
    ensures |r| == n && forall i | 0 <= i < n :: r[i] == c
  {
    seq(n, i => c)
  }

  function NewLine(style: Style, depth: nat): Bytes
    requires style.Pretty?
  {
    [0x0A] + Repeat(style.indentChar, depth * style.indentCharCount)
  }

  // In front of an element or a name, behind the comma if there is one.
  function Gap(style: Style, inArray: bool, first: bool, depth: nat): Bytes {
    match style
    case Plain => []
    case Pretty(_, _, singleLineArray) =>
      if !inArray || !singleLineArray then NewLine(style, depth) else if first then [] else [0x20]
  }

  // In front of a closing bracket.
  function Tail(style: Style, inArray: bool, empty: bool, depth: nat): Bytes {
    if style.Plain? || empty || (inArray && style.singleLineArray) then [] else NewLine(style, depth)
  }

  function Comma(first: bool): Bytes {
    if first then [] else [COMMA]
  }

  function Colon(style: Style): Bytes {
    if style.Plain? then [COLON] else [COLON, 0x20]
  }

  // The text of a tree at this depth of nesting.
  function Text(style: Style, t: Json, depth: nat): Bytes
    decreases t, 2
  {
    match t
    case JNull => NULL_TEXT
    case JBool(b) => if b then TRUE_TEXT else FALSE_TEXT
    case JInt(n) => IntegerText(n)
    case JDouble(text) => text
    case JString(s) => Quoted(s)
    case JArray(elems) =>
      [LEFT_BRACKET] + ElementTexts(style, t, 0, depth) + Tail(style, true, elems == [], depth) + [RIGHT_BRACKET]
    case JObject(members) =>
      [LEFT_BRACE] + MemberTexts(style, t, 0, depth) + Tail(style, false, members == [], depth) + [RIGHT_BRACE]
  }

  // The k-th element or member, with what is in front of it.
  function ElementText(style: Style, x: Json, k: nat, depth: nat): Bytes
    decreases x, 3
  {
    Comma(k == 0) + Gap(style, true, k == 0, depth + 1) + Text(style, x, depth + 1)
  }

  function MemberText(style: Style, m: Member, k: nat, depth: nat): Bytes
    decreases m, 3
  {
    Comma(k == 0) + Gap(style, false, k == 0, depth + 1) + Quoted(m.name) + Colon(style)
    + Text(style, m.value, depth + 1)
  }

  // Those from the k-th on.
  function ElementTexts(style: Style, t: Json, k: nat, depth: nat): Bytes
    requires t.JArray? && k <= |t.elems|
    decreases t, 1, |t.elems| - k
  {
    if k == |t.elems| then []
    else ElementText(style, t.elems[k], k, depth) + ElementTexts(style, t, k + 1, depth)
  }

  function MemberTexts(style: Style, t: Json, k: nat, depth: nat): Bytes
    requires t.JObject? && k <= |t.members|
    decreases t, 1, |t.members| - k
  {
    if k == |t.members| then []
    else MemberText(style, t.members[k], k, depth) + MemberTexts(style, t, k + 1, depth)
  }

  // ---------------------------------------------------------------------------
  // The writers as handlers.

  datatype Level = Level(valueCount: nat, inArray: bool)

  datatype WriterState = WriterState(style: Style, out: Bytes, levels: seq<Level>, hasRoot: bool)

  // The event may come now: what the writers assert.
  predicate Expected(w: WriterState, e: Event) {
    match e
    case EndObject(_) =>
      w.levels != [] && !w.levels[|w.levels| - 1].inArray && w.levels[|w.levels| - 1].valueCount % 2 == 0
    case EndArray(_) => w.levels != [] && w.levels[|w.levels| - 1].inArray
    case _ =>
      if w.levels == [] then !w.hasRoot
      else
        var top := w.levels[|w.levels| - 1];
        !top.inArray && top.valueCount % 2 == 0 ==> e.Key? || e.String?
  }

  // Prefix and PrettyPrefix.
  function Separator(style: Style, top: Level, depth: nat): Bytes {
    if top.inArray then Comma(top.valueCount == 0) + Gap(style, true, top.valueCount == 0, depth)
    else if top.valueCount % 2 == 0 then Comma(top.valueCount == 0) + Gap(style, false, top.valueCount == 0, depth)
    else Colon(style)
  }

  function Prefix(w: WriterState): WriterState {
    if w.levels == [] then w.(hasRoot := true)
    else
      var top := w.levels[|w.levels| - 1];
      w.(out := w.out + Separator(w.style, top, |w.levels|),
         levels := w.levels[|w.levels| - 1 := Level(top.valueCount + 1, top.inArray)])
  }

  function ScalarText(e: Event): Bytes {
    match e
    case Null => NULL_TEXT
    case Bool(b) => if b then TRUE_TEXT else FALSE_TEXT
    case Int(n) => IntegerText(n)
    case Uint(n) => IntegerText(n)
    case Int64(n) => IntegerText(n)
    case Uint64(n) => IntegerText(n)
    case Double(text) => text
    case String(s) => Quoted(s)
    case Key(s) => Quoted(s)
    case _ => []
  }

  function Put(w: WriterState, e: Event): WriterState
    requires Expected(w, e)
  {
    match e
    case StartObject => Push(Prefix(w), false, LEFT_BRACE)
    case StartArray => Push(Prefix(w), true, LEFT_BRACKET)
    case EndObject(_) => Pop(w, RIGHT_BRACE)
    case EndArray(_) => Pop(w, RIGHT_BRACKET)
    case _ => var p := Prefix(w); p.(out := p.out + ScalarText(e))
  }

  function Push(w: WriterState, inArray: bool, bracket: byte): WriterState {
    w.(out := w.out + [bracket], levels := w.levels + [Level(0, inArray)])
  }

  function Pop(w: WriterState, bracket: byte): WriterState
    requires w.levels != []
  {
    var top, below := w.levels[|w.levels| - 1], w.levels[..|w.levels| - 1];
    w.(out := w.out + Tail(w.style, top.inArray, top.valueCount == 0, |below|) + [bracket], levels := below)
  }

  // All events in turn; none if one comes when the writer does not expect it.
  function PutAll(w: WriterState, es: seq<Event>): Option<WriterState>
    decreases |es|
  {
    if es == [] then Some(w)
    else if Expected(w, es[0]) then PutAll(Put(w, es[0]), es[1..])
    else None
  }

  lemma {:induction false} PutAllAppend(w: WriterState, a: seq<Event>, b: seq<Event>)
    ensures PutAll(w, a + b) == if PutAll(w, a).None? then None else PutAll(PutAll(w, a).value, b)
    decreases |a|
  {
    if a == [] {
      assert a + b == b;
    } else {
      assert (a + b)[1..] == a[1..] + b;
      if Expected(w, a[0]) { PutAllAppend(Put(w, a[0]), a[1..], b); }
    }
  }

  lemma PutAllOne(w: WriterState, e: Event, rest: seq<Event>)
    requires Expected(w, e)
    ensures PutAll(w, [e] + rest) == PutAll(Put(w, e), rest)
  {
    assert ([e] + rest)[1..] == rest;
  }

  // A value that is not a name may come now.
  predicate ValueExpected(w: WriterState) {
    if w.levels == [] then !w.hasRoot
    else
      var top := w.levels[|w.levels| - 1];
      top.inArray || top.valueCount % 2 == 1
  }

  function Written(w: WriterState, text: Bytes): WriterState {
    w.(out := w.out + text)
  }

  /** The events of a tree write its text, behind the separator that its place calls for. */
  lemma {:induction false} ValueWritten(w: WriterState, t: Json)
    requires ValueExpected(w)
    ensures PutAll(w, Events(t)) == Some(Written(Prefix(w), Text(w.style, t, |w.levels|)))
    decreases t, 3
  {
    match t
    case JArray(_) => ArrayWritten(w, t);
    case JObject(_) => ObjectWritten(w, t);
    case _ => PutAllOne(w, Events(t)[0], []);
  }

  // w with these levels, of which the last is on top.
  function InLevel(w: WriterState, below: seq<Level>, top: Level): WriterState {
    w.(levels := below + [top])
  }

  lemma PrefixInLevel(w: WriterState, below: seq<Level>, top: Level)
    requires w.levels == below + [top]
    ensures Prefix(w) ==
            InLevel(Written(w, Separator(w.style, top, |below| + 1)), below, Level(top.valueCount + 1, top.inArray))
  {
    assert w.levels[|w.levels| - 1 := Level(top.valueCount + 1, top.inArray)] ==
           below + [Level(top.valueCount + 1, top.inArray)];
  }

  // A level that opens behind p, with n values whose texts are `inside`, and its end.
  lemma LevelClosed(p: WriterState, inArray: bool, inside: Bytes, n: nat, e: Event)
    requires if inArray then e.EndArray? else e.EndObject? && n % 2 == 0
    ensures var open := if inArray then LEFT_BRACKET else LEFT_BRACE;
            var close := if inArray then RIGHT_BRACKET else RIGHT_BRACE;
            var w := InLevel(Written(Push(p, inArray, open), inside), p.levels, Level(n, inArray));
            && Expected(w, e)
            && Put(w, e) == Written(p, [open] + inside + Tail(p.style, inArray, n == 0, |p.levels|) + [close])
  {
    var open, close := if inArray then LEFT_BRACKET else LEFT_BRACE, if inArray then RIGHT_BRACKET else RIGHT_BRACE;
    var w := InLevel(Written(Push(p, inArray, open), inside), p.levels, Level(n, inArray));
    assert w.levels[..|p.levels|] == p.levels;
    var tail := Tail(p.style, inArray, n == 0, |p.levels|);
    assert ((p.out + [open]) + inside) + tail + [close] == p.out + ([open] + inside + tail + [close]);
  }

  // The three parts of the events of an array or object.
  lemma ThreeParts(w: WriterState, first: Event, w1: WriterState, es: seq<Event>, w2: WriterState, last: Event,
          end: WriterState)
    requires Expected(w, first) && Put(w, first) == w1
    requires PutAll(w1, es) == Some(w2)
    requires Expected(w2, last) && Put(w2, last) == end
    ensures PutAll(w, [first] + (es + [last])) == Some(end)
  {
    PutAllOne(w, first, es + [last]);
    PutAllAppend(w1, es, [last]);
    PutAllOne(w2, last, []);
  }

  lemma ArrayClosed(p: WriterState, t: Json, inside: Bytes)
    requires t.JArray? && inside == ElementTexts(p.style, t, 0, |p.levels|)
    ensures var n := |t.elems|;
            var w := InLevel(Written(Push(p, true, LEFT_BRACKET), inside), p.levels, Level(n, true));
            Expected(w, EndArray(n)) && Put(w, EndArray(n)) == Written(p, Text(p.style, t, |p.levels|))
  {
    LevelClosed(p, true, inside, |t.elems|, EndArray(|t.elems|));
  }

  lemma {:induction false} ArrayWritten(w: WriterState, t: Json)
    requires ValueExpected(w) && t.JArray?
    ensures PutAll(w, Events(t)) == Some(Written(Prefix(w), Text(w.style, t, |w.levels|)))
    decreases t, 2
  {
    var p, n := Prefix(w), |t.elems|;
    var w1, inside := Push(p, true, LEFT_BRACKET), ElementTexts(w.style, t, 0, |w.levels|);
    var w2 := InLevel(Written(w1, inside), p.levels, Level(n, true));
    ElementsWritten(w1, p.levels, t, 0);
    ArrayClosed(p, t, inside);
    ThreeParts(w, StartArray, w1, ElementEvents(t, 0), w2, EndArray(n), Written(p, Text(w.style, t, |w.levels|)));
    assert Events(t) == [StartArray] + (ElementEvents(t, 0) + [EndArray(n)]);
  }

  lemma WrittenTwice(w: WriterState, a: Bytes, b: Bytes)
    ensures Written(Written(w, a), b) == Written(w, a + b)
  {
    assert (w.out + a) + b == w.out + (a + b);
  }

  lemma {:induction false} ElementWritten(w: WriterState, below: seq<Level>, x: Json, k: nat)
    requires w.levels == below + [Level(k, true)]
    ensures PutAll(w, Events(x)) ==
            Some(InLevel(Written(w, ElementText(w.style, x, k, |below|)), below, Level(k + 1, true)))
    decreases x, 4
  {
    PrefixInLevel(w, below, Level(k, true));
    ValueWritten(w, x);
    WrittenTwice(w, Separator(w.style, Level(k, true), |below| + 1), Text(w.style, x, |below| + 1));
  }

  // One more piece of text in the same level.
  lemma PiecesWritten(w: WriterState, below: seq<Level>, a: seq<Event>, text: Bytes, top: Level, b: seq<Event>,
          texts: Bytes,
                      end: Level)
    requires PutAll(w, a) == Some(InLevel(Written(w, text), below, top))
    requires PutAll(InLevel(Written(w, text), below, top), b) ==
             Some(InLevel(Written(InLevel(Written(w, text), below, top), texts), below, end))
    ensures PutAll(w, a + b) == Some(InLevel(Written(w, text + texts), below, end))
  {
    PutAllAppend(w, a, b);
    WrittenTwice(w, text, texts);
  }

  lemma {:induction false} ElementsWritten(w: WriterState, below: seq<Level>, t: Json, k: nat)
    requires t.JArray? && k <= |t.elems| && w.levels == below + [Level(k, true)]
    ensures PutAll(w, ElementEvents(t, k)) ==
            Some(InLevel(Written(w, ElementTexts(w.style, t, k, |below|)), below, Level(|t.elems|, true)))
    decreases t, 1, |t.elems| - k
  {
    if k == |t.elems| {
      assert w.out + [] == w.out;
    } else {
      var text := ElementText(w.style, t.elems[k], k, |below|);
      ElementWritten(w, below, t.elems[k], k);
      ElementsWritten(InLevel(Written(w, text), below, Level(k + 1, true)), below, t, k + 1);
      PiecesWritten(w, below, Events(t.elems[k]), text, Level(k + 1, true), ElementEvents(t, k + 1),
                    ElementTexts(w.style, t, k + 1, |below|), Level(|t.elems|, true));
    }
  }

  lemma ObjectClosed(p: WriterState, t: Json, inside: Bytes)
    requires t.JObject? && inside == MemberTexts(p.style, t, 0, |p.levels|)
    ensures var n := |t.members|;
            var w := InLevel(Written(Push(p, false, LEFT_BRACE), inside), p.levels, Level(2 * n, false));
            Expected(w, EndObject(n)) && Put(w, EndObject(n)) == Written(p, Text(p.style, t, |p.levels|))
  {
    LevelClosed(p, false, inside, 2 * |t.members|, EndObject(|t.members|));
    assert (2 * |t.members| == 0) == (t.members == []);
  }

  lemma {:induction false} ObjectWritten(w: WriterState, t: Json)
    requires ValueExpected(w) && t.JObject?
    ensures PutAll(w, Events(t)) == Some(Written(Prefix(w), Text(w.style, t, |w.levels|)))
    decreases t, 2
  {
    var p, n := Prefix(w), |t.members|;
    var w1, inside := Push(p, false, LEFT_BRACE), MemberTexts(w.style, t, 0, |w.levels|);
    var w2 := InLevel(Written(w1, inside), p.levels, Level(2 * n, false));
    MembersWritten(w1, p.levels, t, 0);
    ObjectClosed(p, t, inside);
    ThreeParts(w, StartObject, w1, MemberEvents(t, 0), w2, EndObject(n), Written(p, Text(w.style, t, |w.levels|)));
    assert Events(t) == [StartObject] + (MemberEvents(t, 0) + [EndObject(n)]);
  }

  // A name, and then the value behind its colon.
  lemma NameWritten(w: WriterState, below: seq<Level>, name: Bytes, k: nat)
    requires w.levels == below + [Level(2 * k, false)]
    ensures Expected(w, Key(name))
    ensures Put(w, Key(name)) ==
            InLevel(Written(w, Separator(w.style, Level(2 * k, false), |below| + 1) + Quoted(name)), below,
                    Level(2 * k + 1, false))
  {
    PrefixInLevel(w, below, Level(2 * k, false));
    WrittenTwice(w, Separator(w.style, Level(2 * k, false), |below| + 1), Quoted(name));
  }

  lemma {:induction false} MemberValueWritten(w: WriterState, below: seq<Level>, x: Json, k: nat)
    requires w.levels == below + [Level(2 * k + 1, false)]
    ensures PutAll(w, Events(x)) ==
            Some(InLevel(Written(w, Colon(w.style) + Text(w.style, x, |below| + 1)), below, Level(2 * (k + 1), false)))
    decreases x, 4
  {
    PrefixInLevel(w, below, Level(2 * k + 1, false));
    ValueWritten(w, x);
    WrittenTwice(w, Colon(w.style), Text(w.style, x, |below| + 1));
  }

  lemma FourPieces(a: Bytes, b: Bytes, c: Bytes, d: Bytes)
    ensures (a + b) + (c + d) == a + b + c + d
  {
  }

  lemma NameSeparator(style: Style, k: nat, depth: nat)
    ensures Separator(style, Level(2 * k, false), depth) == Comma(k == 0) + Gap(style, false, k == 0, depth)
  {
  }

  lemma MemberTextParts(style: Style, m: Member, k: nat, depth: nat)
    ensures (Separator(style, Level(2 * k, false), depth + 1) + Quoted(m.name))
            + (Colon(style) + Text(style, m.value, depth + 1)) == MemberText(style, m, k, depth)
  {
    NameSeparator(style, k, depth + 1);
    FourPieces(Comma(k == 0) + Gap(style, false, k == 0, depth + 1), Quoted(m.name), Colon(style),
               Text(style, m.value, depth + 1));
  }

  lemma NameAndValueWritten(w: WriterState, below: seq<Level>, m: Member, w': WriterState, name: Bytes, value: Bytes,
          top: Level, end: Level)
    requires Expected(w, Key(m.name)) && Put(w, Key(m.name)) == w' == InLevel(Written(w, name), below, top)
    requires PutAll(w', Events(m.value)) == Some(InLevel(Written(w', value), below, end))
    ensures PutAll(w, [Key(m.name)] + Events(m.value)) == Some(InLevel(Written(w, name + value), below, end))
  {
    PutAllOne(w, Key(m.name), Events(m.value));
    WrittenTwice(w, name, value);
  }

  lemma {:induction false} MemberWritten(w: WriterState, below: seq<Level>, m: Member, k: nat)
    requires w.levels == below + [Level(2 * k, false)]
    ensures PutAll(w, [Key(m.name)] + Events(m.value)) ==
            Some(InLevel(Written(w, MemberText(w.style, m, k, |below|)), below, Level(2 * (k + 1), false)))
    decreases m, 4
  {
    var name := Separator(w.style, Level(2 * k, false), |below| + 1) + Quoted(m.name);
    var value := Colon(w.style) + Text(w.style, m.value, |below| + 1);
    var w' := InLevel(Written(w, name), below, Level(2 * k + 1, false));
    assert w'.levels == below + [Level(2 * k + 1, false)] && w'.style == w.style;
    MemberValueWritten(w', below, m.value, k);
    NameWritten(w, below, m.name, k);
    MemberTextParts(w.style, m, k, |below|);
    NameAndValueWritten(w, below, m, w', name, value, Level(2 * k + 1, false), Level(2 * (k + 1), false));
  }

  // A member in front of the others.
  lemma MembersJoined(w: WriterState, below: seq<Level>, t: Json, k: nat, text: Bytes, top: Level, end: Level)
    requires t.JObject? && k < |t.members| && text == MemberText(w.style, t.members[k], k, |below|)
    requires PutAll(w, [Key(t.members[k].name)] + Events(t.members[k].value)) ==
             Some(InLevel(Written(w, text), below, top))
    requires var w' := InLevel(Written(w, text), below, top);
             PutAll(w', MemberEvents(t, k + 1)) ==
             Some(InLevel(Written(w', MemberTexts(w.style, t, k + 1, |below|)), below, end))
    ensures PutAll(w, MemberEvents(t, k)) ==
            Some(InLevel(Written(w, MemberTexts(w.style, t, k, |below|)), below, end))
  {
    PiecesWritten(w, below, [Key(t.members[k].name)] + Events(t.members[k].value), text, top, MemberEvents(t, k + 1),
                  MemberTexts(w.style, t, k + 1, |below|), end);
  }

  lemma NothingWritten(w: WriterState, below: seq<Level>, top: Level)
    requires w.levels == below + [top]
    ensures PutAll(w, []) == Some(InLevel(Written(w, []), below, top))
  {
    assert w.out + [] == w.out;
  }

  lemma {:induction false} MembersWritten(w: WriterState, below: seq<Level>, t: Json, k: nat)
    requires t.JObject? && k <= |t.members| && w.levels == below + [Level(2 * k, false)]
    ensures PutAll(w, MemberEvents(t, k)) ==
            Some(InLevel(Written(w, MemberTexts(w.style, t, k, |below|)), below, Level(2 * |t.members|, false)))
    decreases t, 1, |t.members| - k
  {
    if k == |t.members| {
      NothingWritten(w, below, Level(2 * k, false));
    } else {
      var text := MemberText(w.style, t.members[k], k, |below|);
      var top := Level(2 * (k + 1), false);
      var w' := InLevel(Written(w, text), below, top);
      assert w'.levels == below + [top] && w'.style == w.style;
      MembersWritten(w', below, t, k + 1);
      MemberWritten(w, below, t.members[k], k);
      MembersJoined(w, below, t, k, text, top, Level(2 * |t.members|, false));
    }
  }

  /** A fresh writer, sent the events of any tree, writes its text and asserts nothing in vain. */
  lemma TreeWritten(style: Style, t: Json)
    ensures PutAll(WriterState(style, [], [], false), Events(t)) ==
            Some(WriterState(style, Text(style, t, 0), [], true))
  {
    ValueWritten(WriterState(style, [], [], false), t);
    assert [] + Text(style, t, 0) == Text(style, t, 0);
  }
}
