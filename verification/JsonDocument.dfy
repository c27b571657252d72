/** GenericDocument as the handler of a parse: the tree is built on a stack of values. */
module JsonDocument {
  import opened BigIntBytes
  import opened JsonTree
  import opened JsonReader
  import opened JsonGrammar
  import opened JsonSpelling
  import opened JsonWriter
  import opened JsonRoundTrip
  import opened Options

  // The value an event other than an end pushes.
  function Pushed(e: Event): Json
    requires !e.EndObject? && !e.EndArray?
  {
    match e
    case Null => JNull
    case Bool(b) => JBool(b)
    case Int(n) => JInt(n)
    case Uint(n) => JInt(n)
    case Int64(n) => JInt(n)
    case Uint64(n) => JInt(n)
    case Double(text) => JDouble(text)
    case String(s) => JString(s)
    case Key(s) => JString(s)
    case StartObject => JObject([])
    case StartArray => JArray([])
  }

  // Pairs of a name and a value, as the members of an object lie on the stack.
  predicate ArePairs(values: seq<Json>) {
    |values| % 2 == 0 && forall i | 0 <= i < |values| / 2 :: values[2 * i].JString?
  }

  function Pairs(values: seq<Json>): seq<Member>
    requires ArePairs(values)
  {
    seq(|values| / 2, i requires 0 <= i < |values| / 2 => Member(values[2 * i].s, values[2 * i + 1]))
  }

  // One event; none where the document asserts or reads below its stack.
  function Build(stack: seq<Json>, e: Event): Option<seq<Json>> {
    match e
    case EndObject(n) =>
      if |stack| < 2 * n + 1 then None
      else
        var values := stack[|stack| - 2 * n..];
        if !ArePairs(values) then None
        else Some(stack[..|stack| - 2 * n - 1] + [JObject(Pairs(values))])
    case EndArray(n) =>
      if |stack| < n + 1 then None
      else Some(stack[..|stack| - n - 1] + [JArray(stack[|stack| - n..])])
    case _ => Some(stack + [Pushed(e)])
  }

  function BuildAll(stack: seq<Json>, es: seq<Event>): Option<seq<Json>>
    decreases |es|
  {
    if es == [] then Some(stack)
    else match Build(stack, es[0]) case None => None case Some(next) => BuildAll(next, es[1..])
  }

  lemma {:induction false} BuildAllAppend(stack: seq<Json>, a: seq<Event>, b: seq<Event>)
    ensures BuildAll(stack, a + b) == if BuildAll(stack, a).None? then None else BuildAll(BuildAll(stack, a).value, b)
    decreases |a|
  {
    if a == [] {
      assert a + b == b;
    } else {
      assert (a + b)[1..] == a[1..] + b;
      if Build(stack, a[0]).Some? { BuildAllAppend(Build(stack, a[0]).value, a[1..], b); }
    }
  }

  lemma BuildOne(stack: seq<Json>, e: Event)
    ensures BuildAll(stack, [e]) == Build(stack, e)
  {
    if Build(stack, e).Some? { assert BuildAll(Build(stack, e).value, [e][1..]) == Build(stack, e); }
  }

  function Flat(members: seq<Member>): (values: seq<Json>)
    ensures |values| == 2 * |members|
  {
    if members == [] then [] else [JString(members[0].name), members[0].value] + Flat(members[1..])
  }

  lemma {:induction false} FlatPairs(members: seq<Member>)
    ensures ArePairs(Flat(members)) && Pairs(Flat(members)) == members
  {
    if members != [] {
      var values, rest := Flat(members), Flat(members[1..]);
      FlatPairs(members[1..]);
      forall i | 0 <= i < |members|
        ensures values[2 * i].JString? && Member(values[2 * i].s, values[2 * i + 1]) == members[i]
      {
        if i > 0 {
          assert values[2 * i] == rest[2 * (i - 1)] && values[2 * i + 1] == rest[2 * (i - 1) + 1];
          assert Pairs(rest)[i - 1] == members[1..][i - 1];
        }
      }
    }
  }

  /** The events that a value says push what it means. */
  lemma {:induction false} ValueBuilt(stack: seq<Json>, g: Syntax)
    requires Countable(g)
    ensures BuildAll(stack, Said(g)) == Some(stack + [Meaning(g)])
    decreases g, 2
  {
    match g
    case ArrayOf(_, items) => ArrayBuilt(stack, items);
    case ObjectOf(_, fields) => ObjectBuilt(stack, fields);
    case _ => BuildOne(stack, Said(g)[0]);
  }

  // An opening event, what is pushed behind it, and the end.
  lemma Enclosed(stack: seq<Json>, open: Event, inside: seq<Event>, close: Event, values: seq<Json>)
    requires !open.EndArray? && !open.EndObject?
    requires BuildAll(stack + [Pushed(open)], inside) == Some(stack + [Pushed(open)] + values)
    ensures BuildAll(stack, [open] + inside + [close]) == Build(stack + [Pushed(open)] + values, close)
  {
    BuildOne(stack, open);
    BuildAllAppend(stack, [open], inside);
    BuildAllAppend(stack, [open] + inside, [close]);
    BuildOne(stack + [Pushed(open)] + values, close);
  }

  lemma {:induction false} ArrayBuilt(stack: seq<Json>, items: seq<Item>)
    requires |items| < SIZE_LIMIT && forall x | x in items :: Countable(x.value)
    ensures BuildAll(stack, [StartArray] + ItemsSaid(items) + [EndArray(|items| % SIZE_LIMIT)])
            == Some(stack + [JArray(ItemsMeaning(items))])
    decreases items, 1
  {
    ItemsBuilt(stack + [JArray([])], items);
    Enclosed(stack, StartArray, ItemsSaid(items), EndArray(|items|), ItemsMeaning(items));
    ArrayEnds(stack, ItemsMeaning(items));
    SmallCount(|items|);
  }

  lemma ArrayEnds(stack: seq<Json>, elems: seq<Json>)
    ensures Build(stack + [JArray([])] + elems, EndArray(|elems|)) == Some(stack + [JArray(elems)])
  {
    var full, n := stack + [JArray([])] + elems, |elems|;
    assert full[|full| - n..] == elems && full[..|full| - n - 1] == stack;
  }

  lemma {:induction false} ItemsBuilt(stack: seq<Json>, items: seq<Item>)
    requires forall x | x in items :: Countable(x.value)
    ensures BuildAll(stack, ItemsSaid(items)) == Some(stack + ItemsMeaning(items))
    decreases items, 0
  {
    if items == [] {
      assert stack + [] == stack;
    } else {
      var first, rest := Meaning(items[0].value), ItemsMeaning(items[1..]);
      assert items[0] in items;
      BuildAllAppend(stack, Said(items[0].value), ItemsSaid(items[1..]));
      ValueBuilt(stack, items[0].value);
      ItemsBuilt(stack + [first], items[1..]);
      assert (stack + [first]) + rest == stack + ([first] + rest);
    }
  }

  lemma {:induction false} ObjectBuilt(stack: seq<Json>, fields: seq<Field>)
    requires |fields| < SIZE_LIMIT && forall x | x in fields :: Countable(x.value)
    ensures BuildAll(stack, [StartObject] + FieldsSaid(fields) + [EndObject(|fields| % SIZE_LIMIT)])
            == Some(stack + [JObject(FieldsMeaning(fields))])
    decreases fields, 1
  {
    FieldsBuilt(stack + [JObject([])], fields);
    Enclosed(stack, StartObject, FieldsSaid(fields), EndObject(|fields|), Flat(FieldsMeaning(fields)));
    ObjectEnds(stack, FieldsMeaning(fields));
    SmallCount(|fields|);
  }

  lemma ObjectEnds(stack: seq<Json>, members: seq<Member>)
    ensures Build(stack + [JObject([])] + Flat(members), EndObject(|members|)) == Some(stack + [JObject(members)])
  {
    var full, n := stack + [JObject([])] + Flat(members), |members|;
    FlatPairs(members);
    var values := full[|full| - 2 * n..];
    assert values == Flat(members);
    assert full[..|full| - 2 * n - 1] == stack;
    assert Build(full, EndObject(n)) == Some(full[..|full| - 2 * n - 1] + [JObject(Pairs(values))]);
  }

  lemma {:induction false} FieldsBuilt(stack: seq<Json>, fields: seq<Field>)
    requires forall x | x in fields :: Countable(x.value)
    ensures BuildAll(stack, FieldsSaid(fields)) == Some(stack + Flat(FieldsMeaning(fields)))
    decreases fields, 0
  {
    if fields == [] {
      assert stack + Flat([]) == stack;
    } else {
      var x := fields[0];
      assert x in fields;
      FieldBuilt(stack, x);
      FieldsBuilt(stack + [JString(CharsText(x.name)), Meaning(x.value)], fields[1..]);
      BuildAllAppend(stack, FieldSaid(x), FieldsSaid(fields[1..]));
      FlatFirst(stack, Member(CharsText(x.name), Meaning(x.value)), FieldsMeaning(fields[1..]));
    }
  }

  lemma FlatFirst(stack: seq<Json>, m: Member, members: seq<Member>)
    ensures stack + [JString(m.name), m.value] + Flat(members) == stack + Flat([m] + members)
  {
    assert ([m] + members)[1..] == members;
  }

  lemma {:induction false} FieldBuilt(stack: seq<Json>, x: Field)
    requires Countable(x.value)
    ensures BuildAll(stack, FieldSaid(x)) == Some(stack + [JString(CharsText(x.name)), Meaning(x.value)])
    decreases x, 0
  {
    var name := JString(CharsText(x.name));
    BuildOne(stack, Key(CharsText(x.name)));
    BuildAllAppend(stack, [Key(CharsText(x.name))], Said(x.value));
    ValueBuilt(stack + [name], x.value);
    assert (stack + [name]) + [Meaning(x.value)] == stack + [name, Meaning(x.value)];
  }

  // A document accepts every event.
  function DocumentEnv(overflows: Bytes -> bool): Env {
    Env(trace => true, overflows)
  }

  // GenericDocument::Parse: the tree of a text, or none after an error.
  function ParsedTree(overflows: Bytes -> bool, text: Bytes): Option<Json> {
    var o := Parse(DocumentEnv(overflows), text);
    if o.failure.Failed? then None
    else match BuildAll([], o.trace)
      case Some(stack) => if |stack| == 1 then Some(stack[0]) else None
      case None => None
  }

  /** The tree of any text that the grammar spells is what the text means. */
  lemma TextMeans(overflows: Bytes -> bool, d: Document, text: Bytes)
    requires Spells(overflows, d, text) && Countable(d.value)
    ensures ParsedTree(overflows, text) == Some(Meaning(d.value))
  {
    DocumentRead(DocumentEnv(overflows), d, text);
    ValueBuilt([], d.value);
    assert [] + [Meaning(d.value)] == [Meaning(d.value)];
  }

  /** Parsing what either writer has written for a tree gives the tree back. */
  lemma WritingThenParsing(overflows: Bytes -> bool, style: Style, t: Json)
    requires Proper(style) && Writable(t)
    ensures var w := PutAll(WriterState(style, [], [], false), Events(t));
            w.Some? && ParsedTree(overflows, w.value.out) == Some(t)
  {
    TreeWritten(style, t);
    TextSpelled(overflows, style, t);
    TextMeans(overflows, Document([], Syntactic(style, t, 0), [], []), Text(style, t, 0));
  }
}
