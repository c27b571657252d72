/** Writer writes the shortest text there is for a tree. */
module JsonShortest {
  import opened BigIntBytes
  import opened JsonTree
  import opened JsonText
  import opened JsonReader
  import opened JsonWriter
  import opened JsonGrammar
  import opened JsonSpelling
  import opened JsonLanguage
  import opened JsonDocument
  import opened Options

  // ---------------------------------------------------------------------------
  // Scalars.

  lemma {:induction false} EscapedAppend(a: Bytes, b: Bytes)
    ensures Escaped(a + b) == Escaped(a) + Escaped(b)
  {
    if a == [] {
      assert a + b == b;
    } else {
      assert (a + b)[1..] == a[1..] + b;
      EscapedAppend(a[1..], b);
    }
  }

  // What is not a control character nor a quote or backslash takes one byte.
  lemma {:induction false} EscapedPlain(s: Bytes)
    requires forall i | 0 <= i < |s| :: s[i] >= 0x80
    ensures |Escaped(s)| == |s|
  {
    if s != [] {
      assert forall i | 0 <= i < |s[1..]| :: s[1..][i] == s[i + 1];
      EscapedPlain(s[1..]);
    }
  }

  lemma EscapedLength(codepoint: nat)
    requires codepoint <= 0x10_FFFF
    ensures |Escaped(Utf8(codepoint))| <= 6
  {
    var s := Utf8(codepoint);
    if codepoint <= 0x7F {
      assert s[1..] == [];
    } else {
      EscapedPlain(s);
    }
  }

  lemma CharShortest(x: Char)
    requires ProperChar(x)
    ensures |Escaped(CharText(x))| <= |SpelledChar(x)|
  {
    match x
    case Raw(c) => assert [c][1..] == [];
    case Short(c) => assert [c][1..] == [];
    case Escape(u) => EscapedLength(UnitValue(u));
    case Pair(high, low) => EscapedLength(0x1_0000 + 0x400 * (UnitValue(high) % 0x400) + UnitValue(low) % 0x400);
  }

  lemma {:induction false} CharsShortest(xs: seq<Char>)
    requires ProperChars(xs)
    ensures |Escaped(CharsText(xs))| <= |SpelledChars(xs)|
  {
    if xs != [] {
      CharShortest(xs[0]);
      CharsShortest(xs[1..]);
      EscapedAppend(CharText(xs[0]), CharsText(xs[1..]));
    }
  }

  // A number of k digits is below 10^k, so that it needs no more.
  lemma {:induction false} DigitsShortest(ds: seq<Digit>)
    requires ds != []
    ensures |DecimalText(ValueOf(ds))| <= |ds|
  {
    var front := ds[..|ds| - 1];
    if front == [] {
      assert ValueOf(front) == 0;
    } else {
      DigitsShortest(front);
      assert ValueOf(ds) / 10 == ValueOf(front);
    }
  }

  lemma NumberShortest(n: Number)
    requires ProperNumber(n)
    ensures |Text(Plain, NumberMeaning(n), 0)| <= |SpelledNumber(n)|
  {
    DigitsShortest(n.integer);
    assert |DecimalText(0)| == 1;
  }

  // ---------------------------------------------------------------------------
  // Values, at any depth: Writer has no indentation.

  lemma {:induction false} ItemsShortest(items: seq<Item>, t: Json, k: nat, depth: nat)
    requires (forall x | x in items :: ProperItem(x)) && t.JArray? && k <= |t.elems|
    requires t.elems[k..] == ItemsMeaning(items)
    ensures |ElementTexts(Plain, t, k, depth)| <= |SpelledItems(items)| + (if items != [] && k > 0 then 1 else 0)
    decreases items, 0
  {
    if items != [] {
      var x := items[0];
      assert x in items && ProperItem(x);
      assert t.elems[k] == t.elems[k..][0] && t.elems[k + 1..] == t.elems[k..][1..];
      ValueShortest(x.value, depth + 1);
      ItemsShortest(items[1..], t, k + 1, depth);
    }
  }

  lemma {:induction false} FieldsShortest(fields: seq<Field>, t: Json, k: nat, depth: nat)
    requires (forall x | x in fields :: ProperField(x)) && t.JObject? && k <= |t.members|
    requires t.members[k..] == FieldsMeaning(fields)
    ensures |MemberTexts(Plain, t, k, depth)| <= |SpelledFields(fields)| + (if fields != [] && k > 0 then 1 else 0)
    decreases fields, 0
  {
    if fields != [] {
      var x := fields[0];
      assert x in fields && ProperField(x);
      assert t.members[k] == t.members[k..][0] && t.members[k + 1..] == t.members[k..][1..];
      CharsShortest(x.name);
      ValueShortest(x.value, depth + 1);
      FieldsShortest(fields[1..], t, k + 1, depth);
    }
  }

  lemma {:induction false} ValueShortest(g: Syntax, depth: nat)
    requires ProperValue(g)
    ensures |Text(Plain, Meaning(g), depth)| <= |Spelled(g)|
    decreases g, 1
  {
    match g
    case NumberOf(n) => NumberShortest(n);
    case StringOf(xs) => CharsShortest(xs);
    case ArrayOf(_, items) =>
      ItemsShortest(items, Meaning(g), 0, depth);
      ArrayLengths(g, depth);
    case ObjectOf(_, fields) =>
      FieldsShortest(fields, Meaning(g), 0, depth);
      ObjectLengths(g, depth);
    case _ =>
  }

  lemma ArrayLengths(g: Syntax, depth: nat)
    requires g.ArrayOf?
    ensures |Text(Plain, Meaning(g), depth)| == 2 + |ElementTexts(Plain, Meaning(g), 0, depth)|
    ensures |Spelled(g)| == 2 + if g.items == [] then |g.inside| else |SpelledItems(g.items)|
  {
  }

  lemma ObjectLengths(g: Syntax, depth: nat)
    requires g.ObjectOf?
    ensures |Text(Plain, Meaning(g), depth)| == 2 + |MemberTexts(Plain, Meaning(g), 0, depth)|
    ensures |Spelled(g)| == 2 + if g.fields == [] then |g.inside| else |SpelledFields(g.fields)|
  {
  }

  // ---------------------------------------------------------------------------
  // Whole texts. Counts fit 32 bits in a text of fewer bytes.

  lemma SomethingSpelled(g: Syntax)
    requires ProperValue(g)
    ensures |Spelled(g)| > 0
  {
  }

  lemma {:induction false} ItemsCounted(items: seq<Item>)
    requires (forall x | x in items :: ProperItem(x)) && |SpelledItems(items)| < SIZE_LIMIT
    ensures |items| <= |SpelledItems(items)| && forall x | x in items :: Countable(x.value)
    decreases items, 0
  {
    if items != [] {
      var x := items[0];
      assert x in items && ProperItem(x);
      SomethingSpelled(x.value);
      ValueCounted(x.value);
      ItemsCounted(items[1..]);
      forall y | y in items ensures Countable(y.value) { assert y == x || y in items[1..]; }
    }
  }

  lemma {:induction false} FieldsCounted(fields: seq<Field>)
    requires (forall x | x in fields :: ProperField(x)) && |SpelledFields(fields)| < SIZE_LIMIT
    ensures |fields| <= |SpelledFields(fields)| && forall x | x in fields :: Countable(x.value)
    decreases fields, 0
  {
    if fields != [] {
      var x := fields[0];
      assert x in fields && ProperField(x);
      ValueCounted(x.value);
      FieldsCounted(fields[1..]);
      forall y | y in fields ensures Countable(y.value) { assert y == x || y in fields[1..]; }
    }
  }

  lemma {:induction false} ValueCounted(g: Syntax)
    requires ProperValue(g) && |Spelled(g)| < SIZE_LIMIT
    ensures Countable(g)
    decreases g, 1
  {
    match g
    case ArrayOf(_, items) => ItemsCounted(items);
    case ObjectOf(_, fields) => FieldsCounted(fields);
    case _ =>
  }

  /** Of all texts that are parsed to a tree, none is shorter than the one that Writer writes for it. */
  lemma WriterIsShortest(overflows: Bytes -> bool, text: Bytes, t: Json)
    requires ParsedTree(overflows, text) == Some(t) && |text| < SIZE_LIMIT
    ensures |Text(Plain, t, 0)| <= |text|
  {
    var d := DocumentTaken(DocumentEnv(overflows), text);
    ValueCounted(d.value);
    TextMeans(overflows, d, text);
    ValueShortest(d.value, 0);
  }
}
