/** The main induction: over the tree, and under it over the nesting of the schema. */
module SchemaTheorem {
  import opened BigIntBytes
  import opened JsonTree
  import opened Schema
  import opened SchemaValidator
  import opened SchemaProofs
  import opened Options

  function Front(v: Validator): seq<Context>
    requires v.schemaStack != []
  {
    v.schemaStack[..|v.schemaStack| - 1]
  }

  // From v to v' the events es went by inside the value of the top context.
  ghost predicate Progressed(v: Validator, v': Validator, es: seq<Event>)
    requires v.schemaStack != [] && StackNested(v.schemaStack)
  {
    && v'.valid && v'.root == v.root && v'.schemaStack != []
    && StackNested(Front(v)) && AllNested(Top(v.schemaStack).validators)
    && Front(v') == FedStack(Front(v), es)
    && Top(v'.schemaStack).schema == Top(v.schemaStack).schema
    && Top(v'.schemaStack).inArray == Top(v.schemaStack).inArray
    && Top(v'.schemaStack).validators == FedAll(Top(v.schemaStack).validators, es)
  }

  lemma PartsNested(v: Validator)
    requires v.schemaStack != [] && Nested(v)
    ensures StackNested(v.schemaStack) && StackNested(Front(v)) && AllNested(Top(v.schemaStack).validators)
  {
    FitsIsNested(v.schemaStack, Size(v.root));
    assert Top(v.schemaStack) in v.schemaStack;
    forall c | c in Front(v) ensures AllNested(c.validators) { assert c in v.schemaStack; }
  }

  lemma ProgressedAppend(v: Validator, v1: Validator, v2: Validator, a: seq<Event>, b: seq<Event>)
    requires Nested(v) && Nested(v1) && v.schemaStack != [] && v1.schemaStack != []
    requires StackNested(v.schemaStack) && StackNested(v1.schemaStack)
    requires Progressed(v, v1, a) && Progressed(v1, v2, b)
    ensures Progressed(v, v2, a + b)
  {
    PartsNested(v);
    FedStackAppend(Front(v), a, b);
    FedAllAppend(Top(v.schemaStack).validators, a, b);
  }

  lemma FedStackPush(cs: seq<Context>, c: Context, es: seq<Event>)
    requires StackNested(cs + [c])
    ensures StackNested(cs) && AllNested(c.validators)
    ensures FedStack(cs + [c], es) == FedStack(cs, es) + [FedContext(c, es)]
  {
    assert (cs + [c])[|cs|] == c;
    assert c in cs + [c];
    forall x | x in cs ensures AllNested(x.validators) { assert x in cs + [c]; }
  }

  lemma ItemLoaded(s: Schema, i: nat)
    requires Loaded(s) && ItemSchema(s, i).Some?
    ensures Loaded(ItemSchema(s, i).value)
  {
  }

  lemma MemberLoaded(s: Schema, name: Bytes)
    requires Loaded(s) && MemberSchema(s, name).Some?
    ensures Loaded(MemberSchema(s, name).value)
  {
    if FindProperty(s.properties, name).Some? {
      assert s.properties[FindProperty(s.properties, name).value] in s.properties;
    }
  }

  lemma SubschemaLoaded(s: Schema, x: Schema)
    requires Loaded(s) && x in Subschemas(s)
    ensures Loaded(x) && (x in s.allOf || x in s.anyOf || x in s.oneOf || s.not == Some(x))
  {
  }

  // The parallel validators of a new context, after the events of t.
  ghost function Parallels(s: Schema, t: Json): seq<Validator> {
    FedAll(Parallel(NewContext(s)).validators, Events(t))
  }

  // An event that ends the value t of the top context.
  lemma ValueEnds(v: Validator, t: Json, e: Event)
    requires Nested(v) && v.valid && v.schemaStack != []
    requires (t.JArray? && e == EndArray(|t.elems|)) || (t.JObject? && e == EndObject(|t.members|))
    requires AllNested(Top(v.schemaStack).validators)
    requires Flags(FedAll(Top(v.schemaStack).validators, [e])) == Verdicts(Subschemas(Top(v.schemaStack).schema), t)
    requires t.JObject? ==>
               (EndObjectHolds(Top(v.schemaStack), e.count) <==> CountsHold(Top(v.schemaStack).schema, t))
    ensures StackNested(Front(v))
    ensures var s := Top(v.schemaStack).schema;
            && (Feed(v, e).valid <==> CountsHold(s, t) && CombinationHolds(s, t))
            && (Feed(v, e).valid ==> Feed(v, e) == v.(schemaStack := FedStack(Front(v), [e])))
  {
    PartsNested(v);
    var c := Top(v.schemaStack);
    BeforeFits(v, e);
    FedContexts(v.schemaStack, e, Size(v.root));
    assert v.schemaStack == Front(v) + [c];
    FedStackPush(Front(v), c, [e]);
    var c' := FedContext(c, [e]);
    assert Top(FedStack(v.schemaStack, [e])) == c';
    assert FedStack(v.schemaStack, [e])[..|v.schemaStack| - 1] == FedStack(Front(v), [e]);
    JudgedCombination(c', t);
  }

  // The first event of an array or object: one more context, in which its inside is then fed.
  lemma CompoundBegins(v: Validator, x: Schema, e: Event) returns (v1: Validator)
    requires Nested(v) && v.valid && NextSchema(v) == Some(x) && (e.StartArray? || e.StartObject?)
    requires Start(NewContext(x), e).Some?
    ensures Nested(v1) && v1 == Feed(v, e) && v1.valid && v1.root == v.root && v1.schemaStack != []
    ensures StackNested(Around(v)) && Front(v1) == FedStack(Around(v), [e])
    ensures var c := Start(NewContext(x), e).value;
            AllNested(c.validators) && Top(v1.schemaStack) == FedContext(c, [e])
  {
    ValueBegins(v, e);
    FeedKeepsNested(v, e);
    v1 := Feed(v, e);
    FedStackPush(Around(v), Start(NewContext(x), e).value, [e]);
  }

  // What the existence marks say after the first k members.
  ghost predicate Marked(c: Context, t: Json, k: nat)
    requires t.JObject? && k <= |t.members|
  {
    HasRequired(c.schema) ==>
      && |c.propertyExist| == |c.schema.properties|
      && forall i | 0 <= i < |c.propertyExist| ::
           c.propertyExist[i] <==> HasMember(t.members[..k], c.schema.properties[i].name)
  }

  lemma MarkedAll(c: Context, t: Json)
    requires t.JObject? && Marked(c, t, |t.members|)
    ensures EndObjectHolds(c, |t.members|) <==> CountsHold(c.schema, t)
  {
    assert t.members[..|t.members|] == t.members;
    if HasRequired(c.schema) {
      forall p | p in c.schema.properties
        ensures exists i | 0 <= i < |c.schema.properties| :: c.schema.properties[i] == p { }
    }
  }

  lemma HasMemberStep(members: seq<Member>, k: nat, name: Bytes)
    requires k < |members|
    ensures HasMember(members[..k + 1], name) <==> HasMember(members[..k], name) || members[k].name == name
  {
    assert members[..k + 1] == members[..k] + [members[k]];
    if m :| m in members[..k] && m.name == name { assert m in members[..k + 1]; }
    if members[k].name == name { assert members[k] in members[..k + 1]; }
  }

  lemma KeyMarks(c: Context, t: Json, k: nat)
    requires t.JObject? && k < |t.members| && Marked(c, t, k)
    requires forall i, j | 0 <= i < j < |c.schema.properties| ::
               c.schema.properties[i].name != c.schema.properties[j].name
    requires KeyInside(c, t.members[k].name).Some?
    ensures Marked(KeyInside(c, t.members[k].name).value, t, k + 1)
  {
    var name := t.members[k].name;
    var c' := KeyInside(c, name).value;
    if HasRequired(c.schema) {
      forall i | 0 <= i < |c'.propertyExist|
        ensures c'.propertyExist[i] <==> HasMember(t.members[..k + 1], c.schema.properties[i].name)
      {
        HasMemberStep(t.members, k, c.schema.properties[i].name);
        assert c.schema.properties[i] in c.schema.properties;
      }
    }
  }

  // ---------------------------------------------------------------------------
  // The induction.

  lemma {:induction false} ParallelsJudge(x: Schema, t: Json)
    requires Loaded(x)
    ensures Flags(Parallels(x, t)) == Verdicts(Subschemas(x), t)
    decreases t, x, 0, 0
  {
    var news := Parallel(NewContext(x)).validators;
    forall i | 0 <= i < |Subschemas(x)| ensures Flags(Parallels(x, t))[i] == Verdicts(Subschemas(x), t)[i] {
      var sub := Subschemas(x)[i];
      assert sub in Subschemas(x);
      SubschemaLoaded(x, sub);
      assert news[i] == NewValidator(sub);
      ValueFed(NewValidator(sub), sub, t);
    }
  }

  /** The streaming validator on one value, within whatever is open around it: it stays valid
      exactly when the value is valid against the schema that is next, and then every open
      context's parallel validators have seen exactly the events of that value. */
  lemma {:induction false} ValueFed(v: Validator, x: Schema, t: Json)
    requires Nested(v) && v.valid && Loaded(x) && NextSchema(v) == Some(x)
    ensures StackNested(Around(v))
    ensures var v' := FeedMany(v, Events(t));
            && (v'.valid <==> Valid(x, t))
            && (v'.valid ==> v' == v.(schemaStack := FedStack(Around(v), Events(t))))
    decreases t, x, 2, 0
  {
    AroundNested(v);
    ValidInParts(x, t);
    ParallelsJudge(x, t);
    match t
    case JArray(_) => ArrayFed(v, x, t);
    case JObject(_) => ObjectFed(v, x, t);
    case _ => LeafFed(v, x, t);
  }

  lemma StartAllowed(x: Schema, t: Json)
    ensures var start := Start(NewContext(x), Events(t)[0]);
            && (start.Some? <==> TypeAllowed(x, t))
            && (start.Some? ==> start.value.schema == x
                                && start.value.validators == Parallel(NewContext(x)).validators)
  {
    match t
    case JArray(_) =>
    case JObject(_) =>
    case _ =>
  }

  // A leaf is one event, which both begins and ends the value.
  lemma LeafEnds(v: Validator, cs: seq<Context>, c: Context, t: Json, e: Event)
    requires v.valid && BeginsValue(e) && !e.StartArray? && !e.StartObject?
    requires StackNested(cs + [c])
    requires AllNested(c.validators) && Flags(FedAll(c.validators, [e])) == Verdicts(Subschemas(c.schema), t)
    ensures StackNested(cs)
    ensures var v' := After(v, FedStack(cs + [c], [e]), e);
            && (v'.valid <==> CombinationHolds(c.schema, t))
            && (v'.valid ==> v' == v.(schemaStack := FedStack(cs, [e])))
  {
    FedStackPush(cs, c, [e]);
    var fed := FedStack(cs + [c], [e]);
    assert Top(fed) == FedContext(c, [e]) && fed[..|fed| - 1] == FedStack(cs, [e]);
    JudgedCombination(Top(fed), t);
  }

  lemma LeafFed(v: Validator, x: Schema, t: Json)
    requires Nested(v) && v.valid && NextSchema(v) == Some(x) && !t.JArray? && !t.JObject?
    requires Flags(Parallels(x, t)) == Verdicts(Subschemas(x), t)
    ensures StackNested(Around(v))
    ensures var v' := FeedMany(v, Events(t));
            && (v'.valid <==> TypeAllowed(x, t) && CombinationHolds(x, t))
            && (v'.valid ==> v' == v.(schemaStack := FedStack(Around(v), Events(t))))
  {
    AroundNested(v);
    var e := Events(t)[0];
    assert Events(t) == [e];
    FeedManyOne(v, e);
    ValueBegins(v, e);
    StartAllowed(x, t);
    if TypeAllowed(x, t) {
      LeafEnds(v, Around(v), Start(NewContext(x), e).value, t, e);
    }
  }

  lemma {:induction false} ArrayFed(v: Validator, x: Schema, t: Json)
    requires Nested(v) && v.valid && Loaded(x) && NextSchema(v) == Some(x) && t.JArray?
    requires Flags(Parallels(x, t)) == Verdicts(Subschemas(x), t)
    ensures StackNested(Around(v))
    ensures var v' := FeedMany(v, Events(t));
            && (v'.valid <==> TypeAllowed(x, t) && CombinationHolds(x, t) && CountsHold(x, t) && ItemsHold(x, t, 0))
            && (v'.valid ==> v' == v.(schemaStack := FedStack(Around(v), Events(t))))
    decreases t, x, 1, 1
  {
    AroundNested(v);
    var first, inside, last := [StartArray], ElementEvents(t, 0), EndArray(|t.elems|);
    assert Events(t) == first + (inside + [last]) == (first + inside) + [last];
    FeedManyAppend(v, first, inside + [last]);
    FeedManyOne(v, StartArray);
    if !TypeAllowed(x, t) {
      ValueBegins(v, StartArray);
      FeedManyInvalid(Feed(v, StartArray), inside + [last]);
    } else {
      var v1 := CompoundBegins(v, x, StartArray);
      ElementsFed(v1, x, t, 0);
      FeedManyAppend(v1, inside, [last]);
      var v2 := FeedMany(v1, inside);
      FeedManyOne(v2, last);
      if v2.valid {
        FedBefore(Around(v), Parallel(NewContext(x)).validators, v1, v2, StartArray, inside);
        CompoundEnds(Around(v), x, t, v2, first + inside, StartArray, last);
      } else {
        FeedManyInvalid(v2, [last]);
      }
    }
  }

  predicate Brackets(t: Json, first: Event, last: Event) {
    match t
    case JArray(elems) => first == StartArray && last == EndArray(|elems|)
    case JObject(members) => first == StartObject && last == EndObject(|members|)
    case _ => false
  }

  // The parallel validators of a context that has been open for the whole inside of t.
  lemma ParallelsAtEnd(x: Schema, t: Json, us: seq<Validator>, before: seq<Event>, last: Event)
    requires Events(t) == before + [last]
    requires Flags(Parallels(x, t)) == Verdicts(Subschemas(x), t)
    requires us == FedAll(Parallel(NewContext(x)).validators, before)
    ensures AllNested(us) && Flags(FedAll(us, [last])) == Verdicts(Subschemas(x), t)
  {
    FedAllAppend(Parallel(NewContext(x)).validators, before, [last]);
  }

  // The last event, after the inside has gone well.
  lemma CompoundEnds(around: seq<Context>, x: Schema, t: Json, v2: Validator, before: seq<Event>,
                     first: Event, last: Event)
    requires StackNested(around) && Brackets(t, first, last) && Events(t) == before + [last]
    requires Flags(Parallels(x, t)) == Verdicts(Subschemas(x), t)
    requires Nested(v2) && v2.valid && v2.schemaStack != [] && Front(v2) == FedStack(around, before)
    requires Top(v2.schemaStack).schema == x
    requires Top(v2.schemaStack).validators == FedAll(Parallel(NewContext(x)).validators, before)
    requires t.JObject? ==> (EndObjectHolds(Top(v2.schemaStack), |t.members|) <==> CountsHold(x, t))
    ensures Feed(v2, last).valid <==> CountsHold(x, t) && CombinationHolds(x, t)
    ensures Feed(v2, last).valid ==> Feed(v2, last) == v2.(schemaStack := FedStack(around, Events(t)))
  {
    ParallelsAtEnd(x, t, Top(v2.schemaStack).validators, before, last);
    ValueEnds(v2, t, last);
    FedStackAppend(around, before, [last]);
  }

  // What the first event and the inside have fed.
  lemma FedBefore(around: seq<Context>, news: seq<Validator>, v1: Validator, v2: Validator, first: Event,
                  inside: seq<Event>)
    requires StackNested(around) && AllNested(news)
    requires Nested(v1) && v1.schemaStack != [] && StackNested(v1.schemaStack)
    requires Front(v1) == FedStack(around, [first])
    requires Top(v1.schemaStack).validators == FedAll(news, [first])
    requires Progressed(v1, v2, inside)
    ensures Front(v2) == FedStack(around, [first] + inside)
    ensures Top(v2.schemaStack).validators == FedAll(news, [first] + inside)
  {
    FedAllAppend(news, [first], inside);
    FedStackAppend(around, [first], inside);
  }

  lemma FirstEvent(t: Json)
    ensures Events(t) != [] && BeginsValue(Events(t)[0])
  {
  }

  lemma ValueRefused(v: Validator, t: Json)
    requires Nested(v) && v.valid && NextSchema(v).None?
    ensures !FeedMany(v, Events(t)).valid
  {
    FirstEvent(t);
    ValueBegins(v, Events(t)[0]);
    FeedKeepsNested(v, Events(t)[0]);
    FeedManyInvalid(Feed(v, Events(t)[0]), Events(t)[1..]);
  }

  lemma ItemsHoldFrom(x: Schema, t: Json, k: nat)
    requires t.JArray? && k < |t.elems|
    ensures ItemsHold(x, t, k) <==>
              (ItemSchema(x, k).Some? && Valid(ItemSchema(x, k).value, t.elems[k])) && ItemsHold(x, t, k + 1)
  {
  }

  // One element of the array of the top context.
  lemma {:induction false} ElementFed(v: Validator, x: Schema, t: Json, k: nat) returns (v1: Validator)
    requires Nested(v) && v.valid && Loaded(x) && t.JArray? && k < |t.elems|
    requires v.schemaStack != [] && Top(v.schemaStack).schema == x
    requires Top(v.schemaStack).inArray && Top(v.schemaStack).arrayElementIndex == k
    ensures StackNested(v.schemaStack)
    ensures v1 == FeedMany(v, Events(t.elems[k])) && Nested(v1)
    ensures v1.valid <==> ItemSchema(x, k).Some? && Valid(ItemSchema(x, k).value, t.elems[k])
    ensures v1.valid ==>
              Progressed(v, v1, Events(t.elems[k])) && Top(v1.schemaStack).arrayElementIndex == k + 1
    decreases t, x, 1, 0, 0
  {
    PartsNested(v);
    v1 := FeedMany(v, Events(t.elems[k]));
    FeedManyNested(v, Events(t.elems[k]));
    if ItemSchema(x, k).None? {
      ValueRefused(v, t.elems[k]);
    } else {
      ItemLoaded(x, k);
      ValueFed(v, ItemSchema(x, k).value, t.elems[k]);
      if v1.valid {
        ValueProgress(v, v1, Events(t.elems[k]));
      }
    }
  }

  // From v to v' the events es went by inside the value of the top context, without objection
  // exactly if `ok`.
  ghost predicate InsideFed(v: Validator, v': Validator, ok: bool, es: seq<Event>)
    requires v.schemaStack != [] && StackNested(v.schemaStack)
  {
    Nested(v') && (v'.valid <==> ok) && (v'.valid ==> Progressed(v, v', es))
  }

  lemma NothingFed(v: Validator)
    requires Nested(v) && v.valid && v.schemaStack != [] && StackNested(v.schemaStack)
    ensures InsideFed(v, FeedMany(v, []), true, [])
  {
    NoProgress(v);
  }

  // Two such parts, of which the second is only looked at after the first has gone well.
  lemma FedTwice(v: Validator, here: seq<Event>, rest: seq<Event>, ok1: bool, ok2: bool)
    requires Nested(v) && v.schemaStack != [] && StackNested(v.schemaStack)
    requires InsideFed(v, FeedMany(v, here), ok1, here)
    requires ok1 ==>
               var v1 := FeedMany(v, here);
               v1.schemaStack != [] && StackNested(v1.schemaStack) && InsideFed(v1, FeedMany(v1, rest), ok2, rest)
    ensures InsideFed(v, FeedMany(v, here + rest), ok1 && ok2, here + rest)
  {
    FeedManyAppend(v, here, rest);
    if ok1 {
      ProgressedTwice(v, FeedMany(v, here), here, rest);
    } else {
      FeedManyInvalid(FeedMany(v, here), rest);
    }
  }

  lemma {:induction false} ElementsFed(v: Validator, x: Schema, t: Json, k: nat)
    requires Nested(v) && v.valid && Loaded(x) && t.JArray? && k <= |t.elems|
    requires v.schemaStack != [] && Top(v.schemaStack).schema == x
    requires Top(v.schemaStack).inArray && Top(v.schemaStack).arrayElementIndex == k
    ensures StackNested(v.schemaStack)
    ensures InsideFed(v, FeedMany(v, ElementEvents(t, k)), ItemsHold(x, t, k), ElementEvents(t, k))
    decreases t, x, 1, 0, |t.elems| - k + 1
  {
    PartsNested(v);
    if k == |t.elems| {
      NothingFed(v);
      assert ElementEvents(t, k) == [] && ItemsHold(x, t, k);
    } else {
      var here, rest := Events(t.elems[k]), ElementEvents(t, k + 1);
      assert ElementEvents(t, k) == here + rest;
      var v1 := ElementFed(v, x, t, k);
      var ok := v1.valid;
      if ok {
        PartsNested(v1);
        ElementsFed(v1, x, t, k + 1);
      }
      FedTwice(v, here, rest, ok, ItemsHold(x, t, k + 1));
      ItemsHoldFrom(x, t, k);
    }
  }

  lemma ProgressedTwice(v: Validator, v1: Validator, here: seq<Event>, rest: seq<Event>)
    requires Nested(v) && Nested(v1) && v.schemaStack != [] && v1.schemaStack != []
    requires StackNested(v.schemaStack) && StackNested(v1.schemaStack)
    requires v1 == FeedMany(v, here) && Progressed(v, v1, here)
    ensures FeedMany(v1, rest).valid && Progressed(v1, FeedMany(v1, rest), rest) ==>
              Progressed(v, FeedMany(v1, rest), here + rest)
  {
    if FeedMany(v1, rest).valid && Progressed(v1, FeedMany(v1, rest), rest) {
      ProgressedAppend(v, v1, FeedMany(v1, rest), here, rest);
    }
  }

  lemma NoProgress(v: Validator)
    requires Nested(v) && v.valid && v.schemaStack != [] && StackNested(v.schemaStack)
    ensures Progressed(v, v, [])
  {
    PartsNested(v);
    assert FedAll(Top(v.schemaStack).validators, []) == Top(v.schemaStack).validators;
    forall i | 0 <= i < |Front(v)| ensures FedStack(Front(v), [])[i] == Front(v)[i] {
      assert Front(v)[i] in Front(v);
      assert FedAll(Front(v)[i].validators, []) == Front(v)[i].validators;
    }
  }

  // One value inside the top context.
  lemma ValueProgress(v: Validator, v1: Validator, es: seq<Event>)
    requires Nested(v) && v.valid && v.schemaStack != [] && StackNested(v.schemaStack)
    requires NextSchema(v).Some? && StackNested(Around(v))
    requires v1 == v.(schemaStack := FedStack(Around(v), es)) && Nested(v1)
    ensures Progressed(v, v1, es) && StackNested(v1.schemaStack)
    ensures Top(v1.schemaStack) == FedContext(BeginInside(Top(v.schemaStack)).value, es)
  {
    PartsNested(v);
    PartsNested(v1);
    FedStackPush(Front(v), BeginInside(Top(v.schemaStack)).value, es);
  }

  lemma {:induction false} ObjectFed(v: Validator, x: Schema, t: Json)
    requires Nested(v) && v.valid && Loaded(x) && NextSchema(v) == Some(x) && t.JObject?
    requires Flags(Parallels(x, t)) == Verdicts(Subschemas(x), t)
    ensures StackNested(Around(v))
    ensures var v' := FeedMany(v, Events(t));
            && (v'.valid <==> TypeAllowed(x, t) && CombinationHolds(x, t) && CountsHold(x, t) && MembersHold(x, t, 0))
            && (v'.valid ==> v' == v.(schemaStack := FedStack(Around(v), Events(t))))
    decreases t, x, 1, 1
  {
    AroundNested(v);
    var first, inside, last := [StartObject], MemberEvents(t, 0), EndObject(|t.members|);
    assert Events(t) == first + (inside + [last]) == (first + inside) + [last];
    FeedManyAppend(v, first, inside + [last]);
    FeedManyOne(v, StartObject);
    if !TypeAllowed(x, t) {
      ValueBegins(v, StartObject);
      FeedManyInvalid(Feed(v, StartObject), inside + [last]);
    } else {
      var v1 := CompoundBegins(v, x, StartObject);
      MembersFed(v1, x, t, 0);
      FeedManyAppend(v1, inside, [last]);
      var v2 := FeedMany(v1, inside);
      FeedManyOne(v2, last);
      if v2.valid {
        MarkedAll(Top(v2.schemaStack), t);
        FedBefore(Around(v), Parallel(NewContext(x)).validators, v1, v2, StartObject, inside);
        CompoundEnds(Around(v), x, t, v2, first + inside, StartObject, last);
      } else {
        FeedManyInvalid(v2, [last]);
      }
    }
  }

  lemma KeyAccepted(v: Validator, name: Bytes)
    requires Nested(v) && v.valid && v.schemaStack != [] && StackNested(v.schemaStack)
    requires KeyInside(Top(v.schemaStack), name).Some?
    ensures var c, v1 := KeyInside(Top(v.schemaStack), name).value, Feed(v, Key(name));
            && Progressed(v, v1, [Key(name)])
            && AllNested(c.validators) && Top(v1.schemaStack) == FedContext(c, [Key(name)])
  {
    PartsNested(v);
    var c := KeyInside(Top(v.schemaStack), name).value;
    BeforeFits(v, Key(name));
    FedContexts(WithTop(v.schemaStack, c), Key(name), Size(v.root));
    FedStackPush(Front(v), c, [Key(name)]);
  }

  // The key of a member: it picks the schema of the value that follows, or is refused.
  lemma KeyFed(v: Validator, x: Schema, t: Json, k: nat)
    requires Nested(v) && v.valid && Loaded(x) && t.JObject? && k < |t.members|
    requires v.schemaStack != [] && Top(v.schemaStack).schema == x
    requires !Top(v.schemaStack).inArray && Marked(Top(v.schemaStack), t, k)
    ensures StackNested(v.schemaStack)
    ensures var name := t.members[k].name;
            var v1 := Feed(v, Key(name));
            && Nested(v1)
            && (v1.valid <==> MemberSchema(x, name).Some?)
            && (v1.valid ==>
                  && Progressed(v, v1, [Key(name)]) && NextSchema(v1) == MemberSchema(x, name)
                  && Marked(Top(v1.schemaStack), t, k + 1))
  {
    PartsNested(v);
    var c, name := Top(v.schemaStack), t.members[k].name;
    FeedKeepsNested(v, Key(name));
    if KeyInside(c, name).Some? {
      KeyMarks(c, t, k);
      KeyAccepted(v, name);
    }
  }

  lemma MembersHoldFrom(x: Schema, t: Json, k: nat)
    requires t.JObject? && k < |t.members|
    ensures var inside := MemberSchema(x, t.members[k].name);
            MembersHold(x, t, k) <==>
              (inside.Some? && Valid(inside.value, t.members[k].value)) && MembersHold(x, t, k + 1)
  {
  }

  // One member, key and value, of the object of the top context.
  lemma {:induction false} MemberFed(v: Validator, x: Schema, t: Json, k: nat) returns (v2: Validator)
    requires Nested(v) && v.valid && Loaded(x) && t.JObject? && k < |t.members|
    requires v.schemaStack != [] && Top(v.schemaStack).schema == x
    requires !Top(v.schemaStack).inArray && Marked(Top(v.schemaStack), t, k)
    ensures StackNested(v.schemaStack)
    ensures v2 == FeedMany(v, [Key(t.members[k].name)] + Events(t.members[k].value)) && Nested(v2)
    ensures var inside := MemberSchema(x, t.members[k].name);
            v2.valid <==> inside.Some? && Valid(inside.value, t.members[k].value)
    ensures v2.valid ==>
              && Progressed(v, v2, [Key(t.members[k].name)] + Events(t.members[k].value))
              && Marked(Top(v2.schemaStack), t, k + 1)
    decreases t, x, 1, 0, 0
  {
    PartsNested(v);
    var key, here := Key(t.members[k].name), Events(t.members[k].value);
    FeedManyAppend(v, [key], here);
    FeedManyNested(v, [key] + here);
    FeedManyOne(v, key);
    KeyFed(v, x, t, k);
    var v1 := Feed(v, key);
    v2 := FeedMany(v1, here);
    if v1.valid {
      MemberLoaded(x, t.members[k].name);
      PartsNested(v1);
      ValueFed(v1, MemberSchema(x, t.members[k].name).value, t.members[k].value);
      if v2.valid {
        ValueProgress(v1, v2, here);
        ProgressedAppend(v, v1, v2, [key], here);
      }
    } else {
      FeedManyInvalid(v1, here);
    }
  }

  lemma {:induction false} MembersFed(v: Validator, x: Schema, t: Json, k: nat)
    requires Nested(v) && v.valid && Loaded(x) && t.JObject? && k <= |t.members|
    requires v.schemaStack != [] && Top(v.schemaStack).schema == x
    requires !Top(v.schemaStack).inArray && Marked(Top(v.schemaStack), t, k)
    ensures StackNested(v.schemaStack)
    ensures var v' := FeedMany(v, MemberEvents(t, k));
            && Nested(v')
            && (v'.valid <==> MembersHold(x, t, k))
            && (v'.valid ==> Progressed(v, v', MemberEvents(t, k)) && Marked(Top(v'.schemaStack), t, |t.members|))
    decreases t, x, 1, 0, |t.members| - k + 1
  {
    PartsNested(v);
    if k == |t.members| {
      NoProgress(v);
    } else {
      var here, rest := [Key(t.members[k].name)] + Events(t.members[k].value), MemberEvents(t, k + 1);
      FeedManyAppend(v, here, rest);
      MembersHoldFrom(x, t, k);
      var v1 := MemberFed(v, x, t, k);
      if v1.valid {
        PartsNested(v1);
        MembersFed(v1, x, t, k + 1);
        ProgressedTwice(v, v1, here, rest);
      } else {
        FeedManyInvalid(v1, rest);
      }
    }
  }

  /** The streaming validator of a schema, fed the events of any JSON tree, ends valid exactly
      when the tree is valid against the schema. */
  lemma StreamingValidity(s: Schema, t: Json)
    requires Loaded(s)
    ensures Nested(NewValidator(s))
    ensures FeedMany(NewValidator(s), Events(t)).valid <==> Valid(s, t)
  {
    ValueFed(NewValidator(s), s, t);
  }
}
