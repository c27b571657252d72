/** The object forms of the writers and of the document. */
module JsonObjects {
  import opened BigIntBytes
  import opened JsonTree
  import opened JsonText
  import opened JsonWriter
  import JsonDocument
  import ReaderNumbers
  import ReaderObjects
  import opened Options

  // The table `escape` of WriteString: 0 for a byte that is written as it is.
  function EscapeLetter(c: byte): byte {
    if c == QUOTE || c == BACKSLASH then c
    else if c == 0x08 then LOWER_B
    else if c == 0x09 then LOWER_T
    else if c == 0x0A then LOWER_N
    else if c == 0x0C then LOWER_F
    else if c == 0x0D then LOWER_R
    else if c < 0x20 then LOWER_U
    else 0
  }

  lemma {:induction false} EscapedNext(s: Bytes, i: nat)
    requires i < |s|
    ensures Escaped(s[..i + 1]) == Escaped(s[..i]) + EscapedByte(s[i])
    decreases i
  {
    if i == 0 {
      assert s[..1][1..] == [];
    } else {
      assert s[..i + 1][1..] == s[1..][..i] && s[..i][1..] == s[1..][..i - 1];
      EscapedNext(s[1..], i - 1);
    }
  }

  /** Writer and PrettyWriter, told apart by the style. */
  class Writer {
    const style: Style
    var out: Bytes
    var levels: seq<Level>
    var hasRoot: bool

    ghost function View(): WriterState
      reads this
    {
      WriterState(style, out, levels, hasRoot)
    }

    constructor (style: Style)
      ensures View() == WriterState(style, [], [], false)
    {
      this.style, out, levels, hasRoot := style, [], [], false;
    }

    // PutN.
    method WriteIndent()
      requires style.Pretty?
      modifies `out
      ensures out == old(out) + Repeat(style.indentChar, |levels| * style.indentCharCount)
    {
      var count := |levels| * style.indentCharCount;
      for i := 0 to count
        invariant out == old(out) + Repeat(style.indentChar, i)
      {
        out := out + [style.indentChar];
      }
    }

    // Prefix and PrettyPrefix up to the count of the level.
    method WriteSeparator(top: Level)
      modifies `out
      ensures out == old(out) + Separator(style, top, |levels|)
    {
      if style.Plain? {
        if top.valueCount > 0 {
          out := out + if top.inArray || top.valueCount % 2 == 0 then [COMMA] else [COLON];
        }
      } else if top.inArray {
        if top.valueCount > 0 {
          out := out + [COMMA];
          if style.singleLineArray { out := out + [0x20]; }
        }
        if !style.singleLineArray {
          out := out + [0x0A];
          WriteIndent();
        }
      } else {
        if top.valueCount > 0 {
          out := out + if top.valueCount % 2 == 0 then [COMMA, 0x0A] else [COLON, 0x20];
        } else {
          out := out + [0x0A];
        }
        if top.valueCount % 2 == 0 { WriteIndent(); }
      }
    }

    method WritePrefix()
      modifies `out, `levels, `hasRoot
      ensures View() == Prefix(old(View()))
    {
      if levels == [] {
        hasRoot := true;
      } else {
        var top := levels[|levels| - 1];
        WriteSeparator(top);
        levels := levels[|levels| - 1 := Level(top.valueCount + 1, top.inArray)];
      }
    }

    // One turn of the loop of WriteString.
    method WriteByte(c: byte)
      modifies `out
      ensures out == old(out) + EscapedByte(c)
    {
      var letter := EscapeLetter(c);
      if letter != 0 {
        out := out + [BACKSLASH, letter];
        if letter == LOWER_U {
          out := out + [ZERO, ZERO];
          out := out + [HexLetter(c as nat / 16), HexLetter(c as nat % 16)];
        }
      } else {
        out := out + [c];
      }
    }

    method WriteString(s: Bytes)
      modifies `out
      ensures out == old(out) + Quoted(s)
    {
      out := out + [QUOTE];
      ghost var start := out;
      var i := 0;
      while i < |s|
        invariant i <= |s| && out == start + Escaped(s[..i])
      {
        EscapedNext(s, i);
        WriteByte(s[i]);
        i := i + 1;
      }
      assert s[..i] == s;
      out := out + [QUOTE];
    }

    // WriteNull, WriteBool, WriteInt and so on; the digits of an integer are the library's.
    method WriteScalar(e: Event)
      modifies `out
      ensures out == old(out) + ScalarText(e)
    {
      match e
      case String(s) => WriteString(s);
      case Key(s) => WriteString(s);
      case _ => out := out + ScalarText(e);
    }

    // Null, Bool, Int, ..., String and Key.
    method HandleScalar(e: Event)
      requires Expected(View(), e) && ScalarEvent(e)
      modifies `out, `levels, `hasRoot
      ensures View() == Put(old(View()), e)
    {
      WritePrefix();
      WriteScalar(e);
    }

    // StartObject and StartArray.
    method HandleStart(e: Event)
      requires Expected(View(), e) && (e.StartObject? || e.StartArray?)
      modifies `out, `levels, `hasRoot
      ensures View() == Put(old(View()), e)
    {
      WritePrefix();
      levels := levels + [Level(0, e.StartArray?)];
      out := out + if e.StartArray? then [LEFT_BRACKET] else [LEFT_BRACE];
    }

    // EndObject and EndArray.
    method HandleEnd(e: Event)
      requires Expected(View(), e) && (e.EndObject? || e.EndArray?)
      modifies `out, `levels
      ensures View() == Put(old(View()), e)
    {
      var top := levels[|levels| - 1];
      levels := levels[..|levels| - 1];
      if style.Pretty? && top.valueCount != 0 && !(top.inArray && style.singleLineArray) {
        out := out + [0x0A];
        WriteIndent();
      }
      out := out + if e.EndArray? then [RIGHT_BRACKET] else [RIGHT_BRACE];
    }

    method Handle(e: Event)
      requires Expected(View(), e)
      modifies `out, `levels, `hasRoot
      ensures View() == Put(old(View()), e)
    {
      if e.StartObject? || e.StartArray? {
        HandleStart(e);
      } else if e.EndObject? || e.EndArray? {
        HandleEnd(e);
      } else {
        HandleScalar(e);
      }
    }
  }

  predicate ScalarEvent(e: Event) {
    !e.StartObject? && !e.StartArray? && !e.EndObject? && !e.EndArray?
  }

  // The events es come first in what is left.
  lemma PutFirst(w: WriterState, first: seq<Event>, rest: seq<Event>)
    requires PutAll(w, first + rest).Some?
    ensures PutAll(w, first).Some? && PutAll(PutAll(w, first).value, rest) == PutAll(w, first + rest)
    ensures |first| == 1 ==> Expected(w, first[0]) && PutAll(w, first).value == Put(w, first[0])
  {
    PutAllAppend(w, first, rest);
  }

  // GenericValue::Accept with a writer as the handler.
  method Accept(w: Writer, t: Json)
    requires PutAll(w.View(), Events(t)).Some?
    modifies w`out, w`levels, w`hasRoot
    ensures PutAll(old(w.View()), Events(t)) == Some(w.View())
    decreases t, 1
  {
    match t
    case JArray(_) => AcceptArray(w, t);
    case JObject(_) => AcceptObject(w, t);
    case _ =>
      PutFirst(w.View(), Events(t), []);
      w.Handle(Events(t)[0]);
  }

  method AcceptArray(w: Writer, t: Json)
    requires t.JArray? && PutAll(w.View(), Events(t)).Some?
    modifies w`out, w`levels, w`hasRoot
    ensures PutAll(old(w.View()), Events(t)) == Some(w.View())
    decreases t, 0
  {
    ghost var whole := PutAll(w.View(), Events(t));
    LeftAround(t);
    PutFirst(w.View(), [StartArray], ElementsLeft(t, 0));
    w.Handle(StartArray);
    var i := 0;
    while i < |t.elems|
      invariant i <= |t.elems|
      invariant PutAll(w.View(), ElementsLeft(t, i)) == whole
    {
      LeftFirst(t, i);
      PutFirst(w.View(), Events(t.elems[i]), ElementsLeft(t, i + 1));
      Accept(w, t.elems[i]);
      i := i + 1;
    }
    PutFirst(w.View(), [EndArray(|t.elems|)], []);
    w.Handle(EndArray(|t.elems|));
  }

  method AcceptMember(w: Writer, m: Member)
    requires PutAll(w.View(), MemberEvent(m)).Some?
    modifies w`out, w`levels, w`hasRoot
    ensures PutAll(old(w.View()), MemberEvent(m)) == Some(w.View())
    decreases m, 2
  {
    PutFirst(w.View(), [Key(m.name)], Events(m.value));
    w.Handle(Key(m.name));
    Accept(w, m.value);
  }

  method AcceptObject(w: Writer, t: Json)
    requires t.JObject? && PutAll(w.View(), Events(t)).Some?
    modifies w`out, w`levels, w`hasRoot
    ensures PutAll(old(w.View()), Events(t)) == Some(w.View())
    decreases t, 0
  {
    ghost var whole := PutAll(w.View(), Events(t));
    LeftAround(t);
    PutFirst(w.View(), [StartObject], MembersLeft(t, 0));
    w.Handle(StartObject);
    var i := 0;
    while i < |t.members|
      invariant i <= |t.members|
      invariant PutAll(w.View(), MembersLeft(t, i)) == whole
    {
      LeftFirst(t, i);
      PutFirst(w.View(), MemberEvent(t.members[i]), MembersLeft(t, i + 1));
      AcceptMember(w, t.members[i]);
      i := i + 1;
    }
    PutFirst(w.View(), [EndObject(|t.members|)], []);
    w.Handle(EndObject(|t.members|));
  }

  /** A tree written by a fresh writer: its text, for every tree. */
  method WriteTree(style: Style, t: Json) returns (text: Bytes)
    ensures text == Text(style, t, 0)
  {
    var w := new Writer(style);
    TreeWritten(style, t);
    Accept(w, t);
    text := w.out;
  }

  // ---------------------------------------------------------------------------
  // The document.

  /** The stack on which GenericDocument builds its tree. */
  class GenericDocument {
    var stack: seq<Json>

    constructor ()
      ensures stack == []
    {
      stack := [];
    }

    // EndObject: the members are taken from the top of the stack, in pairs.
    method EndObject(memberCount: nat) returns (ok: bool)
      modifies this
      ensures ok <==> JsonDocument.Build(old(stack), Event.EndObject(memberCount)).Some?
      ensures ok ==> stack == JsonDocument.Build(old(stack), Event.EndObject(memberCount)).value
    {
      if |stack| < 2 * memberCount + 1 { return false; }
      var rest := |stack| - 2 * memberCount;
      var values := stack[rest..];
      if !JsonDocument.ArePairs(values) { return false; }
      stack := stack[..rest];
      var members: seq<Member> := [];
      for i := 0 to memberCount
        invariant members == JsonDocument.Pairs(values)[..i]
      {
        members := members + [Member(values[2 * i].s, values[2 * i + 1])];
      }
      stack := stack[rest - 1 := JObject(members)];
      assert members == JsonDocument.Pairs(values);
      assert stack == old(stack)[..rest - 1] + [JObject(members)];
      return true;
    }

    method EndArray(elementCount: nat) returns (ok: bool)
      modifies this
      ensures ok <==> JsonDocument.Build(old(stack), Event.EndArray(elementCount)).Some?
      ensures ok ==> stack == JsonDocument.Build(old(stack), Event.EndArray(elementCount)).value
    {
      if |stack| < elementCount + 1 { return false; }
      var rest := |stack| - elementCount;
      var elements := stack[rest..];
      stack := stack[..rest];
      stack := stack[rest - 1 := JArray(elements)];
      return true;
    }

    // One event; false where the source would read below its stack.
    method Handle(e: Event) returns (ok: bool)
      modifies this
      ensures ok <==> JsonDocument.Build(old(stack), e).Some?
      ensures ok ==> stack == JsonDocument.Build(old(stack), e).value
    {
      ok := true;
      match e
      case EndObject(memberCount) => ok := EndObject(memberCount);
      case EndArray(elementCount) => ok := EndArray(elementCount);
      case _ => stack := stack + [JsonDocument.Pushed(e)];
    }
  }

  // A document that handles these events: its root, if they leave exactly one value.
  method BuildDocument(events: seq<Event>) returns (root: Option<Json>)
    ensures root == match JsonDocument.BuildAll([], events)
                    case Some(stack) => if |stack| == 1 then Some(stack[0]) else None
                    case None => None
  {
    var doc := new GenericDocument();
    var i := 0;
    while i < |events|
      invariant i <= |events|
      invariant JsonDocument.BuildAll(doc.stack, events[i..]) == JsonDocument.BuildAll([], events)
    {
      assert events[i..][1..] == events[i + 1..];
      var ok := doc.Handle(events[i]);
      if !ok { return None; }
      i := i + 1;
    }
    return if |doc.stack| == 1 then Some(doc.stack[0]) else None;
  }

  // GenericDocument::Parse, of a text that ends where the sequence does. The reader's events are
  // kept by a handler and then handled by the document one by one.
  method ParseDocument(overflows: Bytes -> bool, text: Bytes) returns (root: Option<Json>)
    ensures root == JsonDocument.ParsedTree(overflows, text)
  {
    var env := JsonDocument.DocumentEnv(overflows);
    var buffer := new byte[|text|](i requires 0 <= i < |text| => text[i]);
    var input := new ReaderNumbers.StringStream(buffer);
    assert input.Rest() == text;
    var handler := new ReaderObjects.Handler(env.accepts);
    var reader := new ReaderObjects.GenericReader(false, env.overflows);
    assert reader.Env(handler) == env;
    reader.Parse(input, handler);
    if reader.error.Some? { return None; }
    root := BuildDocument(handler.trace);
  }
}
