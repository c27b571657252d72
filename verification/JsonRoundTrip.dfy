/** Parsing undoes writing: what both writers write for a tree is spelled by the grammar, and means the tree. */
module JsonRoundTrip {
  import opened BigIntBytes
  import opened JsonTree
  import opened JsonText
  import opened JsonReader
  import opened JsonWriter
  import opened JsonGrammar
  import opened JsonSpelling

  // A tree without doubles, with integers of 64 bits and with counts that fit SizeType.
  predicate Writable(t: Json)
    decreases t
  {
    match t
    case JInt(n) => INT64_MIN <= n <= UINT64_MAX
    case JDouble(_) => false
    case JArray(elems) => |elems| < SIZE_LIMIT && forall x | x in elems :: Writable(x)
    case JObject(members) => |members| < SIZE_LIMIT && forall m | m in members :: Writable(m.value)
    case _ => true
  }

  // ---------------------------------------------------------------------------
  // The syntax of what is written.

  function WrittenChar(c: byte): Char {
    if c in {0x22, 0x5C, 0x08, 0x09, 0x0A, 0x0C, 0x0D} then Short(c)
    else if c < 0x20 then
      Escape([Hex(0, false), Hex(0, false), Hex(c as nat / 16, false), Hex(c as nat % 16, false)])
    else Raw(c)
  }

  function WrittenChars(s: Bytes): seq<Char> {
    if s == [] then [] else [WrittenChar(s[0])] + WrittenChars(s[1..])
  }

  function WrittenDigits(n: nat): (ds: seq<Digit>)
    ensures ds != []
  {
    if n < 10 then [n] else WrittenDigits(n / 10) + [n % 10]
  }

  function WrittenNumber(n: int): Number {
    Number(n < 0, WrittenDigits(if n < 0 then 0 - n else n), [], NoExponent)
  }

  function Syntactic(style: Style, t: Json, depth: nat): Syntax
    decreases t, 2
  {
    match t
    case JNull => NullWord
    case JBool(b) => if b then TrueWord else FalseWord
    case JInt(n) => NumberOf(WrittenNumber(n))
    case JString(s) => StringOf(WrittenChars(s))
    case JArray(_) => ArrayOf([], WrittenItems(style, t, 0, depth))
    case JObject(_) => ObjectOf([], WrittenFields(style, t, 0, depth))
    case JDouble(_) => NullWord      // not Writable
  }

  // White space behind the k-th entry: the last one stands in front of the closing bracket.
  function Behind(style: Style, inArray: bool, last: bool, depth: nat): Bytes {
    if last then JsonWriter.Tail(style, inArray, false, depth) else []
  }

  function WrittenItem(style: Style, t: Json, k: nat, depth: nat): Item
    requires t.JArray? && k < |t.elems|
    decreases t, 0
  {
    Item(Gap(style, true, k == 0, depth + 1), Syntactic(style, t.elems[k], depth + 1),
         Behind(style, true, k + 1 == |t.elems|, depth))
  }

  function WrittenItems(style: Style, t: Json, k: nat, depth: nat): (items: seq<Item>)
    requires t.JArray? && k <= |t.elems|
    ensures |items| == |t.elems| - k
    decreases t, 1, |t.elems| - k
  {
    if k == |t.elems| then [] else [WrittenItem(style, t, k, depth)] + WrittenItems(style, t, k + 1, depth)
  }

  function WrittenField(style: Style, t: Json, k: nat, depth: nat): Field
    requires t.JObject? && k < |t.members|
    decreases t, 0
  {
    Field(Gap(style, false, k == 0, depth + 1), WrittenChars(t.members[k].name), [],
          if style.Plain? then [] else [0x20], Syntactic(style, t.members[k].value, depth + 1),
          Behind(style, false, k + 1 == |t.members|, depth))
  }

  function WrittenFields(style: Style, t: Json, k: nat, depth: nat): (fields: seq<Field>)
    requires t.JObject? && k <= |t.members|
    ensures |fields| == |t.members| - k
    decreases t, 1, |t.members| - k
  {
    if k == |t.members| then [] else [WrittenField(style, t, k, depth)] + WrittenFields(style, t, k + 1, depth)
  }

  // ---------------------------------------------------------------------------
  // Scalars.

  lemma CharWritten(c: byte)
    ensures ProperChar(WrittenChar(c)) && SpelledChar(WrittenChar(c)) == EscapedByte(c)
    ensures CharText(WrittenChar(c)) == [c]
  {
  }

  lemma {:induction false} CharsWritten(s: Bytes)
    ensures ProperChars(WrittenChars(s)) && SpelledChars(WrittenChars(s)) == Escaped(s)
    ensures CharsText(WrittenChars(s)) == s
  {
    if s != [] {
      CharWritten(s[0]);
      CharsWritten(s[1..]);
      var xs := WrittenChars(s);
      assert xs[1..] == WrittenChars(s[1..]);
      assert [s[0]] + s[1..] == s;
    }
  }

  lemma StringWritten(s: Bytes)
    ensures ProperChars(WrittenChars(s)) && SpelledString(WrittenChars(s)) == Quoted(s)
    ensures CharsText(WrittenChars(s)) == s
  {
    CharsWritten(s);
  }

  lemma {:induction false} DigitsWritten(n: nat)
    ensures SpelledDigits(WrittenDigits(n)) == DecimalText(n) && ValueOf(WrittenDigits(n)) == n
    ensures n > 0 ==> WrittenDigits(n)[0] > 0
  {
    var ds := WrittenDigits(n);
    if n < 10 {
      assert ds[..0] == [];
    } else {
      DigitsWritten(n / 10);
      assert ds[..|ds| - 1] == WrittenDigits(n / 10) && ds[0] == WrittenDigits(n / 10)[0];
    }
  }

  lemma NumberWritten(n: int)
    requires INT64_MIN <= n <= UINT64_MAX
    ensures ProperNumber(WrittenNumber(n)) && SpelledNumber(WrittenNumber(n)) == IntegerText(n)
    ensures !NumberEvent(WrittenNumber(n)).Double? && NumberMeaning(WrittenNumber(n)) == JInt(n)
  {
    var m: nat := if n < 0 then 0 - n else n;
    DigitsWritten(m);
    assert |WrittenDigits(m)| > 1 ==> m != 0;
    NumberSpelled(WrittenNumber(n));
  }

  lemma NumberSpelled(w: Number)
    requires w.fraction == [] && w.exponent.NoExponent?
    ensures SpelledNumber(w) == if w.minus then [MINUS] + SpelledDigits(w.integer) else SpelledDigits(w.integer)
  {
    WithoutTail(if w.minus then [MINUS] else [], SpelledDigits(w.integer));
  }

  lemma WithoutTail(a: Bytes, b: Bytes)
    ensures a + b + [] + [] == a + b && [] + b == b
  {
  }

  // ---------------------------------------------------------------------------
  // Trees.

  lemma GapsAreBlank(style: Style, inArray: bool, flag: bool, depth: nat)
    requires Proper(style)
    ensures Blank(Gap(style, inArray, flag, depth)) && Blank(Behind(style, inArray, flag, depth))
  {
  }

  // The syntax is that of the text, and means the tree.
  predicate WrittenWell(overflows: Bytes -> bool, style: Style, t: Json, depth: nat) {
    var g := Syntactic(style, t, depth);
    && ProperValue(g) && Countable(g) && Spelled(g) == Text(style, t, depth) && Meaning(g) == t
    && InRange(overflows, g)
  }

  predicate ItemsGood(overflows: Bytes -> bool, items: seq<Item>) {
    forall x | x in items :: ProperItem(x) && Countable(x.value) && InRange(overflows, x.value)
  }

  lemma ItemGood(overflows: Bytes -> bool, x: Item, items: seq<Item>)
    requires ItemsGood(overflows, items) && ProperItem(x) && Countable(x.value) && InRange(overflows, x.value)
    ensures ItemsGood(overflows, [x] + items)
  {
  }

  predicate ItemsWell(overflows: Bytes -> bool, style: Style, t: Json, k: nat, depth: nat)
    requires t.JArray? && k <= |t.elems|
  {
    var items := WrittenItems(style, t, k, depth);
    && ItemsGood(overflows, items)
    && ItemsMeaning(items) == t.elems[k..]
    && (k < |t.elems| ==> Comma(k == 0) + SpelledItems(items)
                          == ElementTexts(style, t, k, depth) + JsonWriter.Tail(style, true, false, depth))
  }

  lemma ItemText(comma: Bytes, gap: Bytes, text: Bytes, rest: Bytes, more: Bytes, tail: Bytes)
    requires more == rest + tail
    ensures comma + ((gap + text + []) + more) == ((comma + gap + text) + rest) + tail
  {
    assert comma + ((gap + text + []) + more) == (comma + gap + text) + more;
  }

  lemma LastItemText(comma: Bytes, gap: Bytes, text: Bytes, tail: Bytes)
    ensures comma + ((gap + text + tail) + []) == ((comma + gap + text) + []) + tail
  {
  }

  lemma ItemTextsFollow(overflows: Bytes -> bool, style: Style, t: Json, k: nat, depth: nat)
    requires t.JArray? && k < |t.elems|
    requires WrittenWell(overflows, style, t.elems[k], depth + 1) && ItemsWell(overflows, style, t, k + 1, depth)
    ensures Comma(k == 0) + SpelledItems(WrittenItems(style, t, k, depth))
            == ElementTexts(style, t, k, depth) + JsonWriter.Tail(style, true, false, depth)
  {
    var x, rest := WrittenItem(style, t, k, depth), WrittenItems(style, t, k + 1, depth);
    var gap, text := Gap(style, true, k == 0, depth + 1), Text(style, t.elems[k], depth + 1);
    var tail := JsonWriter.Tail(style, true, false, depth);
    assert ([x] + rest)[0] == x && ([x] + rest)[1..] == rest;
    if rest == [] {
      LastItemText(Comma(k == 0), gap, text, tail);
    } else {
      ItemText(Comma(k == 0), gap, text, ElementTexts(style, t, k + 1, depth), [COMMA] + SpelledItems(rest), tail);
    }
  }

  lemma ItemsFollow(overflows: Bytes -> bool, style: Style, t: Json, k: nat, depth: nat)
    requires Proper(style) && t.JArray? && k < |t.elems|
    requires WrittenWell(overflows, style, t.elems[k], depth + 1) && ItemsWell(overflows, style, t, k + 1, depth)
    ensures ItemsWell(overflows, style, t, k, depth)
  {
    var x, rest := WrittenItem(style, t, k, depth), WrittenItems(style, t, k + 1, depth);
    GapsAreBlank(style, true, k == 0, depth + 1);
    GapsAreBlank(style, true, k + 1 == |t.elems|, depth);
    ItemTextsFollow(overflows, style, t, k, depth);
    ItemGood(overflows, x, rest);
    FirstItemMeaning(x, rest, t.elems, k);
  }

  lemma FirstItemMeaning(x: Item, rest: seq<Item>, elems: seq<Json>, k: nat)
    requires k < |elems| && Meaning(x.value) == elems[k] && ItemsMeaning(rest) == elems[k + 1..]
    ensures ItemsMeaning([x] + rest) == elems[k..]
  {
    assert ([x] + rest)[1..] == rest;
  }

  lemma {:induction false} ItemsWritten(overflows: Bytes -> bool, style: Style, t: Json, k: nat, depth: nat)
    requires Proper(style) && Writable(t) && t.JArray? && k <= |t.elems|
    ensures ItemsWell(overflows, style, t, k, depth)
    decreases t, 0, |t.elems| - k
  {
    if k < |t.elems| {
      assert t.elems[k] in t.elems;
      TreeSpelled(overflows, style, t.elems[k], depth + 1);
      ItemsWritten(overflows, style, t, k + 1, depth);
      ItemsFollow(overflows, style, t, k, depth);
    }
  }

  predicate FieldsGood(overflows: Bytes -> bool, fields: seq<Field>) {
    forall x | x in fields :: ProperField(x) && Countable(x.value) && InRange(overflows, x.value)
  }

  lemma FieldGood(overflows: Bytes -> bool, x: Field, fields: seq<Field>)
    requires FieldsGood(overflows, fields) && ProperField(x) && Countable(x.value) && InRange(overflows, x.value)
    ensures FieldsGood(overflows, [x] + fields)
  {
  }

  predicate FieldsWell(overflows: Bytes -> bool, style: Style, t: Json, k: nat, depth: nat)
    requires t.JObject? && k <= |t.members|
  {
    var fields := WrittenFields(style, t, k, depth);
    && FieldsGood(overflows, fields)
    && FieldsMeaning(fields) == t.members[k..]
    && (k < |t.members| ==> Comma(k == 0) + SpelledFields(fields)
                            == MemberTexts(style, t, k, depth) + JsonWriter.Tail(style, false, false, depth))
  }

  lemma FieldWritten(overflows: Bytes -> bool, style: Style, t: Json, k: nat, depth: nat)
    requires Proper(style) && t.JObject? && k < |t.members|
    requires WrittenWell(overflows, style, t.members[k].value, depth + 1)
    ensures var x, m := WrittenField(style, t, k, depth), t.members[k];
            && ProperField(x) && Member(CharsText(x.name), Meaning(x.value)) == m
            && Comma(k == 0) + SpelledField(x)
               == MemberText(style, m, k, depth) + Behind(style, false, k + 1 == |t.members|, depth)
  {
    var m := t.members[k];
    GapsAreBlank(style, false, k == 0, depth + 1);
    GapsAreBlank(style, false, k + 1 == |t.members|, depth);
    StringWritten(m.name);
    FieldPieces(Comma(k == 0), Gap(style, false, k == 0, depth + 1), Quoted(m.name),
                if style.Plain? then [] else [0x20], Colon(style), Text(style, m.value, depth + 1),
                Behind(style, false, k + 1 == |t.members|, depth));
  }

  lemma FieldPieces(comma: Bytes, gap: Bytes, name: Bytes, space: Bytes, colon: Bytes, text: Bytes, behind: Bytes)
    requires colon == [COLON] + space
    ensures comma + (gap + name + [] + [COLON] + space + text + behind) == (comma + gap + name + colon + text) + behind
  {
    assert gap + name + [] + [COLON] + space == gap + name + colon;
    assert comma + (gap + name + colon + text + behind) == (comma + gap + name + colon + text) + behind;
  }

  lemma MoreFieldTexts(comma: Bytes, field: Bytes, more: Bytes, text: Bytes, behind: Bytes, rest: Bytes, tail: Bytes)
    requires comma + field == text + behind && behind + more == rest + tail
    ensures comma + (field + more) == (text + rest) + tail
  {
    assert comma + (field + more) == (comma + field) + more;
    assert (text + behind) + more == text + (behind + more);
    assert text + (rest + tail) == (text + rest) + tail;
  }

  lemma FieldTextsFollow(overflows: Bytes -> bool, style: Style, t: Json, k: nat, depth: nat)
    requires Proper(style) && t.JObject? && k < |t.members|
    requires WrittenWell(overflows, style, t.members[k].value, depth + 1)
    requires FieldsWell(overflows, style, t, k + 1, depth)
    ensures Comma(k == 0) + SpelledFields(WrittenFields(style, t, k, depth))
            == MemberTexts(style, t, k, depth) + JsonWriter.Tail(style, false, false, depth)
  {
    var x, rest := WrittenField(style, t, k, depth), WrittenFields(style, t, k + 1, depth);
    FieldWritten(overflows, style, t, k, depth);
    assert ([x] + rest)[0] == x && ([x] + rest)[1..] == rest;
    var more := if rest == [] then [] else [COMMA] + SpelledFields(rest);
    MoreFieldTexts(Comma(k == 0), SpelledField(x), more, MemberText(style, t.members[k], k, depth),
                   Behind(style, false, k + 1 == |t.members|, depth), MemberTexts(style, t, k + 1, depth),
                   JsonWriter.Tail(style, false, false, depth));
  }

  lemma FieldsFollow(overflows: Bytes -> bool, style: Style, t: Json, k: nat, depth: nat)
    requires Proper(style) && t.JObject? && k < |t.members|
    requires WrittenWell(overflows, style, t.members[k].value, depth + 1)
    requires FieldsWell(overflows, style, t, k + 1, depth)
    ensures FieldsWell(overflows, style, t, k, depth)
  {
    var x, rest := WrittenField(style, t, k, depth), WrittenFields(style, t, k + 1, depth);
    FieldWritten(overflows, style, t, k, depth);
    FieldTextsFollow(overflows, style, t, k, depth);
    FieldGood(overflows, x, rest);
    FirstMeaning(x, rest, t.members, k);
  }

  lemma FirstMeaning(x: Field, rest: seq<Field>, members: seq<Member>, k: nat)
    requires k < |members| && Member(CharsText(x.name), Meaning(x.value)) == members[k]
    requires FieldsMeaning(rest) == members[k + 1..]
    ensures FieldsMeaning([x] + rest) == members[k..]
  {
    assert ([x] + rest)[1..] == rest;
  }

  lemma {:induction false} FieldsWritten(overflows: Bytes -> bool, style: Style, t: Json, k: nat, depth: nat)
    requires Proper(style) && Writable(t) && t.JObject? && k <= |t.members|
    ensures FieldsWell(overflows, style, t, k, depth)
    decreases t, 0, |t.members| - k
  {
    if k < |t.members| {
      FieldsWritten(overflows, style, t, k + 1, depth);
      assert t.members[k] in t.members;
      TreeSpelled(overflows, style, t.members[k].value, depth + 1);
      FieldsFollow(overflows, style, t, k, depth);
    }
  }

  lemma IntegerSpelled(overflows: Bytes -> bool, style: Style, n: int, depth: nat)
    requires INT64_MIN <= n <= UINT64_MAX
    ensures WrittenWell(overflows, style, JInt(n), depth)
  {
    NumberWritten(n);
    var g := NumberOf(WrittenNumber(n));
    assert Spelled(g) == IntegerText(n);
  }

  lemma StringSpelled(overflows: Bytes -> bool, style: Style, s: Bytes, depth: nat)
    ensures WrittenWell(overflows, style, JString(s), depth)
  {
    StringWritten(s);
    var g := StringOf(WrittenChars(s));
    assert Spelled(g) == Quoted(s);
  }

  lemma Enclosed(open: byte, texts: Bytes, tail: Bytes, close: byte, inside: Bytes)
    requires inside == texts + tail
    ensures [open] + inside + [close] == [open] + texts + tail + [close]
  {
  }

  lemma ArrayText(overflows: Bytes -> bool, style: Style, t: Json, depth: nat)
    requires t.JArray? && ItemsWell(overflows, style, t, 0, depth)
    ensures Spelled(Syntactic(style, t, depth)) == Text(style, t, depth)
  {
    var texts, tail := ElementTexts(style, t, 0, depth), JsonWriter.Tail(style, true, t.elems == [], depth);
    var items := WrittenItems(style, t, 0, depth);
    var inside := if items == [] then [] else SpelledItems(items);
    assert [] + SpelledItems(items) == SpelledItems(items);
    Enclosed(LEFT_BRACKET, texts, tail, RIGHT_BRACKET, inside);
  }

  lemma ArrayProper(overflows: Bytes -> bool, style: Style, t: Json, depth: nat)
    requires Writable(t) && t.JArray? && ItemsWell(overflows, style, t, 0, depth)
    ensures var g := Syntactic(style, t, depth);
            && ProperValue(g) && Countable(g) && Meaning(g) == t
            && InRange(overflows, g)
  {
  }

  lemma ObjectText(overflows: Bytes -> bool, style: Style, t: Json, depth: nat)
    requires t.JObject? && FieldsWell(overflows, style, t, 0, depth)
    ensures Spelled(Syntactic(style, t, depth)) == Text(style, t, depth)
  {
    var texts, tail := MemberTexts(style, t, 0, depth), JsonWriter.Tail(style, false, t.members == [], depth);
    var fields := WrittenFields(style, t, 0, depth);
    var inside := if fields == [] then [] else SpelledFields(fields);
    assert [] + SpelledFields(fields) == SpelledFields(fields);
    Enclosed(LEFT_BRACE, texts, tail, RIGHT_BRACE, inside);
  }

  lemma ObjectProper(overflows: Bytes -> bool, style: Style, t: Json, depth: nat)
    requires Writable(t) && t.JObject? && FieldsWell(overflows, style, t, 0, depth)
    ensures var g := Syntactic(style, t, depth);
            && ProperValue(g) && Countable(g) && Meaning(g) == t
            && InRange(overflows, g)
  {
  }

  /** What either writer writes for a tree is the spelling of a syntax tree that means the tree. */
  lemma {:induction false} TreeSpelled(overflows: Bytes -> bool, style: Style, t: Json, depth: nat)
    requires Proper(style) && Writable(t)
    ensures WrittenWell(overflows, style, t, depth)
    decreases t, 1
  {
    match t
    case JArray(_) =>
      ItemsWritten(overflows, style, t, 0, depth);
      ArrayText(overflows, style, t, depth);
      ArrayProper(overflows, style, t, depth);
    case JObject(_) =>
      FieldsWritten(overflows, style, t, 0, depth);
      ObjectText(overflows, style, t, depth);
      ObjectProper(overflows, style, t, depth);
    case JInt(n) => IntegerSpelled(overflows, style, n, depth);
    case JString(s) => StringSpelled(overflows, style, s, depth);
    case _ =>
  }

  lemma TextSpelled(overflows: Bytes -> bool, style: Style, t: Json)
    requires Proper(style) && Writable(t)
    ensures var d := Document([], Syntactic(style, t, 0), [], []);
            Spells(overflows, d, Text(style, t, 0)) && Countable(d.value) && Meaning(d.value) == t
  {
    TreeSpelled(overflows, style, t, 0);
    assert Text(style, t, 0) == [] + Text(style, t, 0) + [] + [];
  }
}
