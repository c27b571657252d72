/** The server's messages: buildJson and the parsers of its five fields. */
module JsonController {
  import opened BigIntBytes
  import opened JsonTree
  import opened JsonWriter
  import opened JsonRoundTrip
  import opened JsonDocument
  import opened JsonObjects
  import DomEquality
  import opened Options

  // What a C string that begins here holds.
  function CString(s: Bytes): (c: Bytes)
    ensures 0 !in c && |c| <= |s|
  {
    if s == [] || s[0] == 0 then [] else [s[0]] + CString(s[1..])
  }

  lemma {:induction false} CStringWhole(s: Bytes)
    ensures CString(s) == s <==> 0 !in s
  {
    if s != [] && s[0] != 0 {
      CStringWhole(s[1..]);
      assert s == [s[0]] + s[1..];
    }
  }

  const TYPE: Bytes := [0x74, 0x79, 0x70, 0x65]
  const FROM: Bytes := [0x66, 0x72, 0x6F, 0x6D]
  const TO: Bytes := [0x74, 0x6F]
  const BODY: Bytes := [0x62, 0x6F, 0x64, 0x79]
  const IV: Bytes := [0x69, 0x76]

  // The document that buildJson fills, member by member.
  function Message(kind: int, from: Bytes, to: Bytes, body: Bytes, iv: Bytes): Json {
    JObject([Member(TYPE, JInt(kind)), Member(FROM, JString(CString(from))), Member(TO, JString(CString(to))),
             Member(BODY, JString(CString(body))), Member(IV, JString(CString(iv)))])
  }

  method BuildJson(kind: int, from: Bytes, to: Bytes, body: Bytes, iv: Bytes) returns (json: Bytes)
    requires INT32_MIN <= kind <= INT32_MAX
    ensures json == Text(Plain, Message(kind, from, to, body, iv), 0)
  {
    var members: seq<Member> := [];
    members := members + [Member(TYPE, JInt(kind))];
    members := members + [Member(FROM, JString(CString(from)))];
    members := members + [Member(TO, JString(CString(to)))];
    members := members + [Member(BODY, JString(CString(body)))];
    members := members + [Member(IV, JString(CString(iv)))];
    assert JObject(members) == Message(kind, from, to, body, iv);
    json := WriteTree(Plain, JObject(members));
    // The text is returned as a C string, which it is to its last byte.
    TextHasNoNul(Plain, Message(kind, from, to, body, iv), 0);
    CStringWhole(json);
    json := CString(json);
  }

  // A member of the document in the text; none where the source has none to return.
  function Field(overflows: Bytes -> bool, input: Bytes, name: Bytes): Option<Json> {
    match ParsedTree(overflows, CString(input))
    case Some(JObject(members)) => Found(members, name)
    case _ => None
  }

  method ParseField(overflows: Bytes -> bool, input: Bytes, name: Bytes) returns (value: Option<Json>)
    ensures value == Field(overflows, input, name)
  {
    var root := ParseDocument(overflows, CString(input));
    if root.None? || !root.value.JObject? { return None; }
    value := DomEquality.FindMember(root.value.members, name);
  }

  method ParseTypeFromJson(overflows: Bytes -> bool, input: Bytes) returns (kind: Option<int>)
    ensures kind == match Field(overflows, input, TYPE)
                    case Some(JInt(n)) => if INT32_MIN <= n <= INT32_MAX then Some(n) else None
                    case _ => None
  {
    var value := ParseField(overflows, input, TYPE);
    if value.Some? && value.value.JInt? && INT32_MIN <= value.value.n <= INT32_MAX {
      return Some(value.value.n);
    }
    return None;
  }

  // ParseFromFromJson, ParseToFromJson, ParseBodyFromJson and ParseIvFromJson.
  method ParseStringFromJson(overflows: Bytes -> bool, input: Bytes, name: Bytes) returns (text: Option<Bytes>)
    ensures text == match Field(overflows, input, name)
                    case Some(JString(s)) => Some(CString(s))
                    case _ => None
  {
    var value := ParseField(overflows, input, name);
    if value.Some? && value.value.JString? {
      return Some(CString(value.value.s));
    }
    return None;
  }

  // ---------------------------------------------------------------------------
  // No NUL is ever written.

  lemma {:induction false} DigitsHaveNoNul(n: nat)
    ensures 0 !in DecimalText(n)
  {
    if n >= 10 { DigitsHaveNoNul(n / 10); }
  }

  lemma {:induction false} EscapedHasNoNul(s: Bytes)
    ensures 0 !in Escaped(s)
  {
    if s != [] {
      EscapedHasNoNul(s[1..]);
    }
  }

  lemma LayoutHasNoNul(style: Style, inArray: bool, flag: bool, depth: nat)
    requires Proper(style)
    ensures 0 !in Gap(style, inArray, flag, depth) && 0 !in JsonWriter.Tail(style, inArray, flag, depth)
  {
  }

  lemma {:induction false} TextHasNoNul(style: Style, t: Json, depth: nat)
    requires Proper(style) && Writable(t)
    ensures 0 !in Text(style, t, depth)
    decreases t, 1
  {
    match t
    case JInt(n) => DigitsHaveNoNul(if n < 0 then -n else n);
    case JString(s) => EscapedHasNoNul(s);
    case JArray(elems) =>
      LayoutHasNoNul(style, true, elems == [], depth);
      ElementsHaveNoNul(style, t, 0, depth);
    case JObject(members) =>
      LayoutHasNoNul(style, false, members == [], depth);
      MembersHaveNoNul(style, t, 0, depth);
    case _ =>
  }

  lemma {:induction false} ElementsHaveNoNul(style: Style, t: Json, k: nat, depth: nat)
    requires Proper(style) && Writable(t) && t.JArray? && k <= |t.elems|
    ensures 0 !in ElementTexts(style, t, k, depth)
    decreases t, 0, |t.elems| - k
  {
    if k < |t.elems| {
      LayoutHasNoNul(style, true, k == 0, depth + 1);
      TextHasNoNul(style, t.elems[k], depth + 1);
      ElementsHaveNoNul(style, t, k + 1, depth);
    }
  }

  lemma {:induction false} MembersHaveNoNul(style: Style, t: Json, k: nat, depth: nat)
    requires Proper(style) && Writable(t) && t.JObject? && k <= |t.members|
    ensures 0 !in MemberTexts(style, t, k, depth)
    decreases t, 0, |t.members| - k
  {
    if k < |t.members| {
      var m := t.members[k];
      LayoutHasNoNul(style, false, k == 0, depth + 1);
      EscapedHasNoNul(m.name);
      TextHasNoNul(style, m.value, depth + 1);
      MembersHaveNoNul(style, t, k + 1, depth);
    }
  }

  lemma NamesDiffer()
    ensures TYPE != FROM && TYPE != TO && TYPE != BODY && TYPE != IV && FROM != TO && FROM != BODY && FROM != IV
    ensures TO != BODY && TO != IV && BODY != IV
  {
    assert |TO| == |IV| == 2 && |TYPE| == |FROM| == |BODY| == 4;
    assert TO[0] != IV[0] && TYPE[0] != FROM[0] && TYPE[0] != BODY[0] && FROM[0] != BODY[0];
  }

  // What buildJson has written is parsed into the document it was written from.
  lemma MessageReadBack(overflows: Bytes -> bool, kind: int, from: Bytes, to: Bytes, body: Bytes, iv: Bytes)
    requires INT32_MIN <= kind <= INT32_MAX
    ensures var t := Message(kind, from, to, body, iv);
            ParsedTree(overflows, CString(Text(Plain, t, 0))) == Some(t)
  {
    var t := Message(kind, from, to, body, iv);
    TextHasNoNul(Plain, t, 0);
    CStringWhole(Text(Plain, t, 0));
    TreeWritten(Plain, t);
    WritingThenParsing(overflows, Plain, t);
  }

  lemma FieldReadBack(overflows: Bytes -> bool, kind: int, from: Bytes, to: Bytes, body: Bytes, iv: Bytes, k: nat)
    requires INT32_MIN <= kind <= INT32_MAX && k < 5
    ensures var t := Message(kind, from, to, body, iv);
            Field(overflows, Text(Plain, t, 0), t.members[k].name) == Some(t.members[k].value)
  {
    MessageReadBack(overflows, kind, from, to, body, iv);
    NamesDiffer();
    DomEquality.FoundFirst(Message(kind, from, to, body, iv).members, k);
  }

  /** Each parser returns the field that buildJson was given, a string up to its first NUL. */
  lemma FieldsReadBack(overflows: Bytes -> bool, kind: int, from: Bytes, to: Bytes, body: Bytes, iv: Bytes)
    requires INT32_MIN <= kind <= INT32_MAX
    ensures var json := Text(Plain, Message(kind, from, to, body, iv), 0);
            && Field(overflows, json, TYPE) == Some(JInt(kind))
            && Field(overflows, json, FROM) == Some(JString(CString(from)))
            && Field(overflows, json, TO) == Some(JString(CString(to)))
            && Field(overflows, json, BODY) == Some(JString(CString(body)))
            && Field(overflows, json, IV) == Some(JString(CString(iv)))
  {
    FieldReadBack(overflows, kind, from, to, body, iv, 0);
    FieldReadBack(overflows, kind, from, to, body, iv, 1);
    FieldReadBack(overflows, kind, from, to, body, iv, 2);
    FieldReadBack(overflows, kind, from, to, body, iv, 3);
    FieldReadBack(overflows, kind, from, to, body, iv, 4);
  }

  /** buildJson and then a parser: the type always comes back, a string exactly when it has no NUL. */
  method BuildThenParse(overflows: Bytes -> bool, kind: int, from: Bytes, to: Bytes, body: Bytes, iv: Bytes)
    returns (kind': Option<int>, from': Option<Bytes>, to': Option<Bytes>, body': Option<Bytes>, iv': Option<Bytes>)
    requires INT32_MIN <= kind <= INT32_MAX
    ensures kind' == Some(kind)
    ensures (from' == Some(from) <==> 0 !in from) && (to' == Some(to) <==> 0 !in to)
    ensures (body' == Some(body) <==> 0 !in body) && (iv' == Some(iv) <==> 0 !in iv)
  {
    var json := BuildJson(kind, from, to, body, iv);
    FieldsReadBack(overflows, kind, from, to, body, iv);
    kind' := ParseTypeFromJson(overflows, json);
    from' := ParseStringFromJson(overflows, json, FROM);
    to' := ParseStringFromJson(overflows, json, TO);
    body' := ParseStringFromJson(overflows, json, BODY);
    iv' := ParseStringFromJson(overflows, json, IV);
    CStringTwice(from);
    CStringTwice(to);
    CStringTwice(body);
    CStringTwice(iv);
  }

  lemma CStringTwice(s: Bytes)
    ensures CString(CString(s)) == CString(s) && (CString(s) == s <==> 0 !in s)
  {
    CStringWhole(s);
    CStringWhole(CString(s));
  }
}
