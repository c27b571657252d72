/** The streaming validator, fed the events of any tree, ends valid exactly when the tree is valid. */
module SchemaProofs {
  import opened JsonTree
  import opened Schema
  import opened SchemaValidator
  import opened Options

  // ---------------------------------------------------------------------------
  // Many events.

  lemma FitsPrefix(cs: seq<Context>, n: nat)
    requires cs != [] && Fits(cs, n)
    ensures Fits(cs[..|cs| - 1], n)
  {
    forall c | c in cs[..|cs| - 1] ensures c in cs { }
  }

  lemma FitsMakesNested(v: Validator, cs: seq<Context>)
    requires Fits(cs, Size(v.root)) && v.schemaStack == cs
    ensures Nested(v)
  {
  }

  lemma NestedMakesFits(v: Validator)
    requires Nested(v)
    ensures Fits(v.schemaStack, Size(v.root))
  {
  }

  // The stack is what it was, or what the event made of it, or that without its top.
  lemma AfterStack(v: Validator, cs: seq<Context>, e: Event)
    requires cs != []
    ensures var v' := After(v, cs, e);
            && v'.root == v.root
            && (v'.schemaStack == cs || v'.schemaStack == cs[..|cs| - 1] || v'.schemaStack == v.schemaStack)
  {
  }

  lemma AfterKeepsNested(v: Validator, cs: seq<Context>, e: Event)
    requires cs != [] && Fits(cs, Size(v.root)) && Nested(v)
    ensures Nested(After(v, cs, e)) && After(v, cs, e).root == v.root
  {
    FitsPrefix(cs, Size(v.root));
    NestedMakesFits(v);
    AfterStack(v, cs, e);
    var v' := After(v, cs, e);
    FitsMakesNested(v', v'.schemaStack);
  }

  lemma FeedEachKeepsNested(us: seq<Validator>, e: Event, n: nat)
    requires forall u | u in us :: Size(u.root) < n && Nested(u)
    ensures forall u | u in FeedEach(us, e) :: Size(u.root) < n && Nested(u)
    decreases n, 0
  {
    forall u | u in FeedEach(us, e) ensures Size(u.root) < n && Nested(u) {
      var j :| 0 <= j < |us| && FeedEach(us, e)[j] == u;
      FeedKeepsNested(us[j], e);
    }
  }

  lemma FeedContextsFit(cs: seq<Context>, e: Event, n: nat)
    requires Fits(cs, n)
    ensures Fits(FeedContexts(cs, e, n), n)
    decreases n, 1
  {
    var fed := FeedContexts(cs, e, n);
    forall c | c in fed
      ensures Size(c.schema) <= n
      ensures c.valueSchema.Some? ==> Size(c.valueSchema.value) <= n
      ensures forall u | u in c.validators :: Size(u.root) < n && Nested(u)
    {
      var i :| 0 <= i < |fed| && fed[i] == c;
      assert cs[i] in cs;
      FeedEachKeepsNested(cs[i].validators, e, n);
    }
  }

  lemma FeedKeepsNested(v: Validator, e: Event)
    requires Nested(v)
    ensures Nested(Feed(v, e)) && Feed(v, e).root == v.root
    decreases Size(v.root), 2
  {
    if v.valid && Before(v, e).Some? {
      BeforeFits(v, e);
      FeedContextsFit(Before(v, e).value, e, Size(v.root));
      AfterKeepsNested(v, FeedContexts(Before(v, e).value, e, Size(v.root)), e);
    }
  }

  function FeedMany(v: Validator, es: seq<Event>): Validator
    requires Nested(v)
    decreases |es|
  {
    if es == [] then v
    else
      FeedKeepsNested(v, es[0]);
      FeedMany(Feed(v, es[0]), es[1..])
  }

  lemma {:induction false} FeedManyNested(v: Validator, es: seq<Event>)
    requires Nested(v)
    ensures Nested(FeedMany(v, es)) && FeedMany(v, es).root == v.root
    decreases |es|
  {
    if es != [] {
      FeedKeepsNested(v, es[0]);
      FeedManyNested(Feed(v, es[0]), es[1..]);
    }
  }

  lemma {:induction false} FeedManyInvalid(v: Validator, es: seq<Event>)
    requires Nested(v) && !v.valid
    ensures FeedMany(v, es) == v
    decreases |es|
  {
    if es != [] {
      FeedManyInvalid(v, es[1..]);
    }
  }

  lemma {:induction false} FeedManyAppend(v: Validator, a: seq<Event>, b: seq<Event>)
    requires Nested(v)
    ensures Nested(FeedMany(v, a)) && FeedMany(v, a + b) == FeedMany(FeedMany(v, a), b)
    decreases |a|
  {
    FeedManyNested(v, a);
    if a == [] {
      assert a + b == b;
    } else {
      FeedKeepsNested(v, a[0]);
      assert (a + b)[1..] == a[1..] + b;
      FeedManyAppend(Feed(v, a[0]), a[1..], b);
    }
  }

  lemma FeedManyOne(v: Validator, e: Event)
    requires Nested(v)
    ensures FeedMany(v, [e]) == Feed(v, e)
  {
    FeedKeepsNested(v, e);
    assert [e][1..] == [];
  }

  ghost predicate AllNested(us: seq<Validator>) {
    forall u | u in us :: Nested(u)
  }

  // Every one of the parallel validators after the same events.
  function FedAll(us: seq<Validator>, es: seq<Event>): seq<Validator>
    requires AllNested(us)
  {
    seq(|us|, j requires 0 <= j < |us| => FeedMany(us[j], es))
  }

  ghost predicate StackNested(cs: seq<Context>) {
    forall c | c in cs :: AllNested(c.validators)
  }

  function FedContext(c: Context, es: seq<Event>): Context
    requires AllNested(c.validators)
  {
    c.(validators := FedAll(c.validators, es))
  }

  // Every open context after its parallel validators have seen these events.
  function FedStack(cs: seq<Context>, es: seq<Event>): seq<Context>
    requires StackNested(cs)
  {
    seq(|cs|, i requires 0 <= i < |cs| => assert cs[i] in cs; FedContext(cs[i], es))
  }

  lemma FedAllNested(us: seq<Validator>, es: seq<Event>)
    requires AllNested(us)
    ensures AllNested(FedAll(us, es))
  {
    forall u | u in FedAll(us, es) ensures Nested(u) {
      var j :| 0 <= j < |us| && FedAll(us, es)[j] == u;
      FeedManyNested(us[j], es);
    }
  }

  lemma FedAllAppend(us: seq<Validator>, a: seq<Event>, b: seq<Event>)
    requires AllNested(us)
    ensures AllNested(FedAll(us, a)) && FedAll(FedAll(us, a), b) == FedAll(us, a + b)
  {
    FedAllNested(us, a);
    forall j | 0 <= j < |us| ensures FedAll(FedAll(us, a), b)[j] == FedAll(us, a + b)[j] {
      FeedManyAppend(us[j], a, b);
    }
  }

  lemma FedStackNested(cs: seq<Context>, es: seq<Event>)
    requires StackNested(cs)
    ensures StackNested(FedStack(cs, es))
  {
    forall c | c in FedStack(cs, es) ensures AllNested(c.validators) {
      var i :| 0 <= i < |cs| && FedStack(cs, es)[i] == c;
      assert cs[i] in cs;
      FedAllNested(cs[i].validators, es);
    }
  }

  lemma FedStackAppend(cs: seq<Context>, a: seq<Event>, b: seq<Event>)
    requires StackNested(cs)
    ensures StackNested(FedStack(cs, a)) && FedStack(FedStack(cs, a), b) == FedStack(cs, a + b)
  {
    FedStackNested(cs, a);
    forall i | 0 <= i < |cs| ensures FedStack(FedStack(cs, a), b)[i] == FedStack(cs, a + b)[i] {
      assert cs[i] in cs;
      assert FedStack(cs, a)[i] in FedStack(cs, a);
      FedAllAppend(cs[i].validators, a, b);
    }
  }

  lemma FedEach(us: seq<Validator>, e: Event)
    requires AllNested(us)
    ensures FeedEach(us, e) == FedAll(us, [e])
  {
    forall j | 0 <= j < |us| ensures FeedEach(us, e)[j] == FedAll(us, [e])[j] {
      FeedManyOne(us[j], e);
    }
  }

  lemma FitsIsNested(cs: seq<Context>, n: nat)
    requires Fits(cs, n)
    ensures StackNested(cs)
  {
    forall c | c in cs ensures AllNested(c.validators) { }
  }

  lemma FedContexts(cs: seq<Context>, e: Event, n: nat)
    requires Fits(cs, n)
    ensures StackNested(cs) && FeedContexts(cs, e, n) == FedStack(cs, [e])
  {
    FitsIsNested(cs, n);
    forall i | 0 <= i < |cs| ensures FeedContexts(cs, e, n)[i] == FedStack(cs, [e])[i] {
      assert cs[i] in cs;
      FedEach(cs[i].validators, e);
    }
  }

  // ---------------------------------------------------------------------------
  // A value begins.

  // The schema that the next value will be held against.
  function NextSchema(v: Validator): Option<Schema> {
    if v.schemaStack == [] then Some(v.root)
    else match BeginInside(Top(v.schemaStack))
      case None => None
      case Some(c) => c.valueSchema
  }

  // The contexts around it, once it has begun.
  function Around(v: Validator): seq<Context>
    requires NextSchema(v).Some?
  {
    if v.schemaStack == [] then []
    else WithTop(v.schemaStack, BeginInside(Top(v.schemaStack)).value)
  }

  predicate BeginsValue(e: Event) {
    !e.Key? && !e.EndObject? && !e.EndArray?
  }

  lemma AroundNested(v: Validator)
    requires Nested(v) && NextSchema(v).Some?
    ensures StackNested(Around(v))
  {
    FitsIsNested(v.schemaStack, Size(v.root));
    forall c | c in Around(v) ensures AllNested(c.validators) {
      assert Top(v.schemaStack) in v.schemaStack;
      assert c in v.schemaStack || c == BeginInside(Top(v.schemaStack)).value;
    }
  }

  lemma BeginAround(v: Validator)
    ensures BeginValue(v) ==
            if NextSchema(v).None? then None else Some(Around(v) + [NewContext(NextSchema(v).value)])
  {
    if v.schemaStack == [] {
      assert Around(v) + [NewContext(v.root)] == [NewContext(v.root)];
    }
  }

  // The contexts when a value's first event reaches the parallel validators.
  lemma BeforeAround(v: Validator, e: Event)
    requires BeginsValue(e)
    ensures Before(v, e) ==
            if NextSchema(v).None? || Start(NewContext(NextSchema(v).value), e).None? then None
            else Some(Around(v) + [Start(NewContext(NextSchema(v).value), e).value])
  {
    BeginAround(v);
    if NextSchema(v).Some? {
      var begun := NewContext(NextSchema(v).value);
      var cs := Around(v) + [begun];
      assert cs[..|cs| - 1] == Around(v) && Top(cs) == begun;
    }
  }

  lemma FedBegun(v: Validator, e: Event, cs: seq<Context>)
    requires Nested(v) && v.valid && Before(v, e) == Some(cs) && cs != []
    ensures StackNested(cs) && Feed(v, e) == After(v, FedStack(cs, [e]), e)
  {
    BeforeFits(v, e);
    FedContexts(cs, e, Size(v.root));
  }

  // The first event of a value, up to the test of its end.
  lemma ValueBegins(v: Validator, e: Event)
    requires Nested(v) && v.valid && BeginsValue(e)
    ensures NextSchema(v).None? || Start(NewContext(NextSchema(v).value), e).None? ==> !Feed(v, e).valid
    ensures NextSchema(v).Some? && Start(NewContext(NextSchema(v).value), e).Some? ==>
              var cs := Around(v) + [Start(NewContext(NextSchema(v).value), e).value];
              && StackNested(Around(v)) && StackNested(cs)
              && Feed(v, e) == After(v, FedStack(cs, [e]), e)
  {
    BeforeAround(v, e);
    if NextSchema(v).Some? {
      AroundNested(v);
      var c := Start(NewContext(NextSchema(v).value), e);
      if c.Some? {
        FedBegun(v, e, Around(v) + [c.value]);
      }
    }
  }

  // ---------------------------------------------------------------------------
  // A value ends.

  // What the parallel validators of these schemas have to find.
  function Verdicts(ss: seq<Schema>, t: Json): (verdicts: seq<bool>)
    ensures |verdicts| == |ss|
  {
    seq(|ss|, i requires 0 <= i < |ss| => Valid(ss[i], t))
  }

  predicate CombinationHolds(s: Schema, t: Json) {
    && AllHold(s.allOf, t)
    && (s.anyOf != [] ==> SomeHolds(s.anyOf, t))
    && (s.oneOf != [] ==> OneHolds(s.oneOf, t))
    && (s.not.Some? ==> !Valid(s.not.value, t))
  }

  predicate ItemsHold(s: Schema, t: Json, from: nat) {
    t.JArray? ==>
      forall i | from <= i < |t.elems| ::
        ItemSchema(s, i).Some? && Valid(ItemSchema(s, i).value, t.elems[i])
  }

  predicate MembersHold(s: Schema, t: Json, from: nat) {
    t.JObject? ==>
      forall i | from <= i < |t.members| ::
        MemberSchema(s, t.members[i].name).Some?
        && Valid(MemberSchema(s, t.members[i].name).value, t.members[i].value)
  }

  predicate CountsHold(s: Schema, t: Json) {
    && (t.JArray? ==> s.minItems <= |t.elems| <= s.maxItems)
    && (t.JObject? ==>
          && s.minProperties <= |t.members| <= s.maxProperties
          && forall p | p in s.properties && p.required :: HasMember(t.members, p.name) || p.schema.hasDefault)
  }

  lemma ValidInParts(s: Schema, t: Json)
    ensures Valid(s, t) <==>
              TypeAllowed(s, t) && CombinationHolds(s, t) && CountsHold(s, t)
              && ItemsHold(s, t, 0) && MembersHold(s, t, 0)
  {
  }

  lemma SlicedVerdicts(ss: seq<Schema>, t: Json, lo: nat, hi: nat)
    requires lo <= hi <= |ss|
    ensures Verdicts(ss, t)[lo..hi] == Verdicts(ss[lo..hi], t)
  {
  }

  lemma SubschemasInParts(s: Schema)
    ensures var subs, any := Subschemas(s), |s.allOf|;
            var one := any + |s.anyOf|;
            var neg := one + |s.oneOf|;
            && |subs| == neg + (if s.not.Some? then 1 else 0)
            && subs[0..any] == s.allOf && subs[any..one] == s.anyOf && subs[one..neg] == s.oneOf
            && (s.not.Some? ==> subs[neg] == s.not.value)
  {
  }

  lemma VerdictsInParts(s: Schema, t: Json)
    ensures var verdicts, any := Verdicts(Subschemas(s), t), |s.allOf|;
            var one := any + |s.anyOf|;
            var neg := one + |s.oneOf|;
            && |verdicts| == |Subschemas(s)| == neg + (if s.not.Some? then 1 else 0)
            && verdicts[..any] == Verdicts(s.allOf, t)
            && verdicts[any..one] == Verdicts(s.anyOf, t)
            && verdicts[one..neg] == Verdicts(s.oneOf, t)
            && (s.not.Some? ==> verdicts[neg] == Valid(s.not.value, t))
  {
    SubschemasInParts(s);
    var subs, any := Subschemas(s), |s.allOf|;
    var one := any + |s.anyOf|;
    SlicedVerdicts(subs, t, 0, any);
    SlicedVerdicts(subs, t, any, one);
    SlicedVerdicts(subs, t, one, one + |s.oneOf|);
    assert Verdicts(subs, t)[..any] == Verdicts(subs, t)[0..any];
  }

  lemma AllVerdicts(ss: seq<Schema>, t: Json)
    ensures AllTrue(Verdicts(ss, t)) <==> AllHold(ss, t)
  {
    var verdicts := Verdicts(ss, t);
    assert forall i | 0 <= i < |ss| :: verdicts[i] <==> Valid(ss[i], t);
  }

  lemma SomeVerdict(ss: seq<Schema>, t: Json)
    ensures SomeTrue(Verdicts(ss, t)) <==> SomeHolds(ss, t)
  {
    var verdicts := Verdicts(ss, t);
    assert forall i | 0 <= i < |ss| :: verdicts[i] <==> Valid(ss[i], t);
  }

  lemma OneVerdict(ss: seq<Schema>, t: Json)
    ensures OneTrue(Verdicts(ss, t)) <==> OneHolds(ss, t)
  {
    var verdicts := Verdicts(ss, t);
    assert forall i | 0 <= i < |ss| :: verdicts[i] <==> Valid(ss[i], t);
  }

  lemma CombinationOfVerdicts(s: Schema, t: Json)
    ensures CombinationHolds(s, t) <==>
              && AllTrue(Verdicts(s.allOf, t))
              && (s.anyOf != [] ==> SomeTrue(Verdicts(s.anyOf, t)))
              && (s.oneOf != [] ==> OneTrue(Verdicts(s.oneOf, t)))
              && (s.not.Some? ==> !Valid(s.not.value, t))
  {
    AllVerdicts(s.allOf, t);
    SomeVerdict(s.anyOf, t);
    OneVerdict(s.oneOf, t);
  }

  // When the parallel validators of a context have found, for every subschema, whether it
  // accepts t, the tests of EndValue are those of the combinators.
  lemma JudgedCombination(c: Context, t: Json)
    requires Flags(c.validators) == Verdicts(Subschemas(c.schema), t)
    ensures EndValueHolds(c) <==> CombinationHolds(c.schema, t)
  {
    VerdictsInParts(c.schema, t);
    CombinationOfVerdicts(c.schema, t);
  }
}
