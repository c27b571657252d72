/** When the validator's verdict is that of JSON Schema draft-04. */
module SchemaDraft {
  import opened BigIntBytes
  import opened JsonText
  import opened JsonTree
  import opened JsonWriter
  import opened Schema
  import opened SchemaValidator
  import opened SchemaProofs
  import opened SchemaTheorem
  import opened Options

  // ---------------------------------------------------------------------------
  // Sections 5.3 to 5.5 of the draft-04 validation document, without exceptions.

  // An integer is a number without fraction or exponent, of any size.
  predicate IntegerText(text: Bytes) {
    DOT !in text && LOWER_E !in text && UPPER_E !in text
  }

  // The primitive types of section 3.5 of the draft-04 core document.
  predicate OfType(t: Json, primitive: SchemaType) {
    match primitive
    case NullType => t.JNull?
    case BooleanType => t.JBool?
    case ObjectType => t.JObject?
    case ArrayType => t.JArray?
    case StringType => t.JString?
    case NumberType => t.JInt? || t.JDouble?
    case IntegerType => t.JInt? || (t.JDouble? && IntegerText(t.text))
  }

  predicate DraftType(s: Schema, t: Json) {
    exists p | p in s.types :: OfType(t, p)
  }

  lemma TypesCompared(s: Schema, t: Json)
    ensures DraftType(s, t) <==> TypeAllowed(s, t) || (t.JDouble? && IntegerText(t.text) && IntegerType in s.types)
  {
    if DraftType(s, t) {
      var p :| p in s.types && OfType(t, p);
    } else {
      assert forall p | p in s.types :: !OfType(t, p);
      assert !OfType(t, NullType) || NullType !in s.types;
      assert !OfType(t, BooleanType) || BooleanType !in s.types;
      assert !OfType(t, ObjectType) || ObjectType !in s.types;
      assert !OfType(t, ArrayType) || ArrayType !in s.types;
      assert !OfType(t, StringType) || StringType !in s.types;
      assert !OfType(t, NumberType) || NumberType !in s.types;
      assert !OfType(t, IntegerType) || IntegerType !in s.types;
    }
  }

  function DraftItem(s: Schema, index: nat): Option<Schema> {
    match s.items
    case AnyItems => Some(TYPELESS)
    case ListItems(x) => Some(x)
    case TupleItems(xs, others) =>
      if index < |xs| then Some(xs[index])
      else match others
        case Matching(x) => Some(x)
        case Allowed => Some(TYPELESS)
        case Disallowed => None
  }

  // Section 5.4.4: a name that is not under "properties" is an additional one.
  function DraftMember(s: Schema, name: Bytes): Option<Schema> {
    match FindProperty(Listed(s.properties), name)
    case Some(i) => Some(Listed(s.properties)[i].schema)
    case None =>
      match s.additionalProperties
      case Matching(x) => Some(x)
      case Allowed => Some(TYPELESS)
      case Disallowed => None
  }

  function Listed(ps: seq<Property>): (listed: seq<Property>)
    ensures forall p :: p in listed <==> p in ps && p.listed
  {
    if ps == [] then [] else (if ps[0].listed then [ps[0]] else []) + Listed(ps[1..])
  }

  // A required property is missing.
  predicate Missing(s: Schema, members: seq<Member>) {
    exists p | p in s.properties :: p.required && forall m | m in members :: m.name != p.name
  }

  // Sections 5.5.3 to 5.5.5: the value is valid against all of the schemas, at least one, exactly one.
  predicate EachAccepts(ss: seq<Schema>, t: Json)
    decreases t, ss
  {
    forall i | 0 <= i < |ss| :: Draft4(ss[i], t)
  }

  predicate SomeAccepts(ss: seq<Schema>, t: Json)
    decreases t, ss
  {
    exists i | 0 <= i < |ss| :: Draft4(ss[i], t)
  }

  predicate JustOneAccepts(ss: seq<Schema>, t: Json)
    decreases t, ss
  {
    exists i | 0 <= i < |ss| :: Draft4(ss[i], t) && forall j | 0 <= j < |ss| && j != i :: !Draft4(ss[j], t)
  }

  predicate Draft4(s: Schema, t: Json)
    decreases t, s
  {
    && DraftType(s, t)
    && EachAccepts(s.allOf, t)
    && (s.anyOf != [] ==> SomeAccepts(s.anyOf, t))
    && (s.oneOf != [] ==> JustOneAccepts(s.oneOf, t))
    && (s.not.Some? ==> !Draft4(s.not.value, t))
    && (t.JArray? ==>
          && s.minItems <= |t.elems| <= s.maxItems
          && forall i | 0 <= i < |t.elems| ::
               DraftItem(s, i).Some? && Draft4(DraftItem(s, i).value, t.elems[i]))
    && (t.JObject? ==>
          && s.minProperties <= |t.members| <= s.maxProperties
          && !Missing(s, t.members)
          && forall i | 0 <= i < |t.members| ::
               DraftMember(s, t.members[i].name).Some?
               && Draft4(DraftMember(s, t.members[i].name).value, t.members[i].value))
  }

  // ---------------------------------------------------------------------------
  // The schemas on which the two never differ.

  predicate EmptyTuple(s: Schema) {
    s.items.TupleItems? && s.items.schemas == [] && !s.items.others.Allowed?
  }

  // A name is only required, and additional properties are restricted.
  predicate Unlisted(s: Schema) {
    !s.additionalProperties.Allowed? && exists p | p in s.properties :: !p.listed
  }

  // No required property with a default, no name that is only required where additional properties are
  // restricted, and no empty tuple that restricts anything.
  predicate NoException(s: Schema) {
    (forall p | p in s.properties :: p.required ==> !p.schema.hasDefault) && !Unlisted(s) && !EmptyTuple(s)
  }

  predicate PartsConform(s: Schema)
    decreases s, 0
  {
    && (forall x | x in s.allOf :: Conforming(x))
    && (forall x | x in s.anyOf :: Conforming(x))
    && (forall x | x in s.oneOf :: Conforming(x))
    && (s.not.Some? ==> Conforming(s.not.value))
    && (forall p | p in s.properties :: Conforming(p.schema))
    && (s.additionalProperties.Matching? ==> Conforming(s.additionalProperties.schema))
    && (match s.items
        case AnyItems => true
        case ListItems(x) => Conforming(x)
        case TupleItems(xs, others) =>
          (forall x | x in xs :: Conforming(x)) && (others.Matching? ==> Conforming(others.schema)))
  }

  predicate Conforming(s: Schema)
    decreases s, 1
  {
    NoException(s) && PartsConform(s)
  }

  // ---------------------------------------------------------------------------
  // One level: what the exceptions come to where the parts conform.

  // What the draft asks of the elements behind an empty tuple.
  predicate EmptyTupleHolds(s: Schema, t: Json) {
    t.JArray? && EmptyTuple(s) ==>
      forall i | 0 <= i < |t.elems| ::
        s.items.others.Matching? && Draft4(s.items.others.schema, t.elems[i])
  }

  // What the draft asks of the members whose names are only required.
  predicate UnlistedHold(s: Schema, t: Json) {
    t.JObject? && Unlisted(s) ==>
      forall i | 0 <= i < |t.members| && OnlyRequired(s, t.members[i].name) ::
        s.additionalProperties.Matching? && Draft4(s.additionalProperties.schema, t.members[i].value)
  }

  predicate OnlyRequired(s: Schema, name: Bytes) {
    var i := FindProperty(s.properties, name);
    i.Some? && !s.properties[i.value].listed
  }

  lemma TypelessConforms()
    ensures Loaded(TYPELESS) && Conforming(TYPELESS)
  {
  }

  lemma MemberConforms(s: Schema, name: Bytes)
    requires Loaded(s) && PartsConform(s) && MemberSchema(s, name).Some?
    ensures Loaded(MemberSchema(s, name).value) && Conforming(MemberSchema(s, name).value)
  {
    TypelessConforms();
  }

  lemma ItemConforms(s: Schema, i: nat)
    requires Loaded(s) && PartsConform(s) && ItemSchema(s, i).Some?
    ensures Loaded(ItemSchema(s, i).value) && Conforming(ItemSchema(s, i).value)
  {
    TypelessConforms();
  }

  // The draft's schema for a member next to the code's.
  lemma DraftMemberIs(s: Schema, name: Bytes)
    requires Loaded(s)
    ensures OnlyRequired(s, name) ==> MemberSchema(s, name) == Some(TYPELESS)
    ensures DraftMember(s, name) ==
            if !OnlyRequired(s, name) then MemberSchema(s, name)
            else match s.additionalProperties
              case Matching(x) => Some(x)
              case Allowed => Some(TYPELESS)
              case Disallowed => None
  {
    var ps, listed := s.properties, Listed(s.properties);
    var i, j := FindProperty(ps, name), FindProperty(listed, name);
    if i.Some? { assert ps[i.value] in ps; }
    if j.Some? {
      assert listed[j.value] in listed;
      var k :| 0 <= k < |ps| && ps[k] == listed[j.value];
      assert i.Some? && i.value == k;
    }
    assert i.Some? ==> (ps[i.value].listed <==> ps[i.value] in listed);
  }

  // No integer is so large that the reader makes a double of it.
  predicate PlainNumbers(t: Json)
    decreases t
  {
    match t
    case JDouble(text) => !IntegerText(text)
    case JArray(elems) => forall x | x in elems :: PlainNumbers(x)
    case JObject(members) => forall m | m in members :: PlainNumbers(m.value)
    case _ => true
  }

  // Arrays and objects count their entries in 32 bits.
  predicate Representable(t: Json)
    decreases t
  {
    match t
    case JArray(elems) => |elems| <= SIZE_MAX && forall x | x in elems :: Representable(x)
    case JObject(members) => |members| <= SIZE_MAX && forall m | m in members :: Representable(m.value)
    case _ => true
  }

  // The empty schema accepts everything.
  lemma {:induction false} TypelessValid(t: Json)
    requires Representable(t)
    ensures Valid(TYPELESS, t)
    decreases t
  {
    match t
    case JArray(elems) =>
      forall i | 0 <= i < |elems| ensures Valid(TYPELESS, elems[i]) { TypelessValid(elems[i]); }
    case JObject(members) =>
      forall i | 0 <= i < |members| ensures Valid(TYPELESS, members[i].value) { TypelessValid(members[i].value); }
    case _ =>
  }

  predicate DraftCombination(s: Schema, t: Json) {
    && EachAccepts(s.allOf, t)
    && (s.anyOf != [] ==> SomeAccepts(s.anyOf, t))
    && (s.oneOf != [] ==> JustOneAccepts(s.oneOf, t))
    && (s.not.Some? ==> !Draft4(s.not.value, t))
  }

  lemma {:induction false} SameAll(ss: seq<Schema>, t: Json)
    requires PlainNumbers(t) && forall x | x in ss :: Loaded(x) && Conforming(x)
    ensures AllHold(ss, t) <==> EachAccepts(ss, t)
    decreases t, ss
  {
    forall i | 0 <= i < |ss| ensures Valid(ss[i], t) <==> Draft4(ss[i], t) { SameVerdict(ss[i], t); }
  }

  lemma {:induction false} SameSome(ss: seq<Schema>, t: Json)
    requires PlainNumbers(t) && forall x | x in ss :: Loaded(x) && Conforming(x)
    ensures SomeHolds(ss, t) <==> SomeAccepts(ss, t)
    decreases t, ss
  {
    forall i | 0 <= i < |ss| ensures Valid(ss[i], t) <==> Draft4(ss[i], t) { SameVerdict(ss[i], t); }
  }

  lemma {:induction false} SameOne(ss: seq<Schema>, t: Json)
    requires PlainNumbers(t) && forall x | x in ss :: Loaded(x) && Conforming(x)
    ensures OneHolds(ss, t) <==> JustOneAccepts(ss, t)
    decreases t, ss
  {
    forall i | 0 <= i < |ss| ensures Valid(ss[i], t) <==> Draft4(ss[i], t) { SameVerdict(ss[i], t); }
  }

  lemma {:induction false} SameCombination(s: Schema, t: Json)
    requires PlainNumbers(t) && Loaded(s) && PartsConform(s)
    ensures CombinationHolds(s, t) <==> DraftCombination(s, t)
    decreases t, s, 0
  {
    SameAll(s.allOf, t);
    SameSome(s.anyOf, t);
    SameOne(s.oneOf, t);
    if s.not.Some? {
      SameVerdict(s.not.value, t);
    }
  }

  predicate DraftItems(s: Schema, t: Json) {
    t.JArray? ==>
      forall i | 0 <= i < |t.elems| :: DraftItem(s, i).Some? && Draft4(DraftItem(s, i).value, t.elems[i])
  }

  lemma EmptyTupleItems(s: Schema, t: Json)
    requires EmptyTuple(s) && t.JArray?
    ensures DraftItems(s, t) <==> EmptyTupleHolds(s, t)
  {
    var others := s.items.others;
    forall i: nat
      ensures DraftItem(s, i) == if others.Matching? then Some(others.schema) else None
    {
    }
    if others.Matching? {
      assert DraftItems(s, t) <==> forall i | 0 <= i < |t.elems| :: Draft4(others.schema, t.elems[i]);
    } else {
      if t.elems == [] {
      } else {
        assert t.elems[0] in t.elems && DraftItem(s, 0).None?;
      }
    }
  }

  lemma {:induction false} SameItems(s: Schema, t: Json)
    requires PlainNumbers(t) && Loaded(s) && PartsConform(s) && (EmptyTuple(s) ==> Representable(t))
    ensures if !EmptyTuple(s) then DraftItems(s, t) <==> ItemsHold(s, t, 0)
            else ItemsHold(s, t, 0) && (DraftItems(s, t) <==> EmptyTupleHolds(s, t))
    decreases t, s, 0
  {
    if t.JArray? {
      forall i | 0 <= i < |t.elems| && ItemSchema(s, i).Some?
        ensures Valid(ItemSchema(s, i).value, t.elems[i]) <==> Draft4(ItemSchema(s, i).value, t.elems[i])
        ensures EmptyTuple(s) ==> Valid(ItemSchema(s, i).value, t.elems[i])
      {
        ItemConforms(s, i);
        SameVerdict(ItemSchema(s, i).value, t.elems[i]);
        if EmptyTuple(s) { TypelessValid(t.elems[i]); }
      }
      if EmptyTuple(s) {
        EmptyTupleItems(s, t);
      } else {
        assert forall i | 0 <= i < |t.elems| :: DraftItem(s, i) == ItemSchema(s, i);
      }
    }
  }

  predicate DraftMembers(s: Schema, t: Json) {
    t.JObject? ==>
      forall i | 0 <= i < |t.members| ::
        DraftMember(s, t.members[i].name).Some?
        && Draft4(DraftMember(s, t.members[i].name).value, t.members[i].value)
  }

  predicate DraftMemberHolds(s: Schema, m: Member) {
    DraftMember(s, m.name).Some? && Draft4(DraftMember(s, m.name).value, m.value)
  }

  predicate MemberHolds(s: Schema, m: Member) {
    MemberSchema(s, m.name).Some? && Valid(MemberSchema(s, m.name).value, m.value)
  }

  predicate UnlistedMemberHolds(s: Schema, m: Member) {
    Unlisted(s) && OnlyRequired(s, m.name) ==>
      s.additionalProperties.Matching? && Draft4(s.additionalProperties.schema, m.value)
  }

  lemma {:induction false} SameMember(s: Schema, m: Member)
    requires PlainNumbers(m.value) && Loaded(s) && PartsConform(s) && (Unlisted(s) ==> Representable(m.value))
    ensures DraftMemberHolds(s, m) <==> MemberHolds(s, m) && UnlistedMemberHolds(s, m)
    decreases m
  {
    DraftMemberIs(s, m.name);
    if MemberSchema(s, m.name).Some? {
      MemberConforms(s, m.name);
      SameVerdict(MemberSchema(s, m.name).value, m.value);
    }
    if OnlyRequired(s, m.name) {
      assert s.properties[FindProperty(s.properties, m.name).value] in s.properties;
      if Unlisted(s) { TypelessValid(m.value); }
    }
  }

  // The three predicates, member by member.
  lemma MemberByMember(s: Schema, t: Json)
    requires t.JObject?
    ensures DraftMembers(s, t) <==> forall i | 0 <= i < |t.members| :: DraftMemberHolds(s, t.members[i])
    ensures MembersHold(s, t, 0) <==> forall i | 0 <= i < |t.members| :: MemberHolds(s, t.members[i])
  {
  }

  lemma UnlistedByMember(s: Schema, t: Json)
    requires t.JObject?
    ensures UnlistedHold(s, t) <==> forall i | 0 <= i < |t.members| :: UnlistedMemberHolds(s, t.members[i])
  {
  }

  lemma {:induction false} SameMembers(s: Schema, t: Json)
    requires PlainNumbers(t) && Loaded(s) && PartsConform(s) && (Unlisted(s) ==> Representable(t))
    ensures DraftMembers(s, t) <==> MembersHold(s, t, 0) && UnlistedHold(s, t)
    decreases t, s, 0
  {
    if t.JObject? {
      MemberByMember(s, t);
      UnlistedByMember(s, t);
      forall i | 0 <= i < |t.members|
        ensures DraftMemberHolds(s, t.members[i]) <==>
                  MemberHolds(s, t.members[i]) && UnlistedMemberHolds(s, t.members[i])
      {
        assert t.members[i] in t.members;
        SameMember(s, t.members[i]);
      }
    }
  }

  predicate DraftCounts(s: Schema, t: Json) {
    && (t.JArray? ==> s.minItems <= |t.elems| <= s.maxItems)
    && (t.JObject? ==> s.minProperties <= |t.members| <= s.maxProperties && !Missing(s, t.members))
  }

  lemma DraftInParts(s: Schema, t: Json)
    ensures Draft4(s, t) <==>
              DraftType(s, t) && DraftCombination(s, t) && DraftCounts(s, t) && DraftItems(s, t) && DraftMembers(s, t)
  {
  }

  lemma SameCounts(s: Schema, t: Json)
    ensures DraftCounts(s, t) <==> CountsHold(s, t) && (t.JObject? ==> !Missing(s, t.members))
  {
  }

  /** Where the parts of a schema conform, draft-04 accepts exactly what the code accepts if no required
      property is missing, members whose names are only required meet the restriction of additional ones, and
      elements that stand behind an empty tuple meet that of additional items. */
  lemma {:induction false} OneLevel(s: Schema, t: Json)
    requires PlainNumbers(t) && Loaded(s) && PartsConform(s) && (EmptyTuple(s) || Unlisted(s) ==> Representable(t))
    ensures Draft4(s, t) <==>
              && Valid(s, t) && (t.JObject? ==> !Missing(s, t.members))
              && UnlistedHold(s, t) && EmptyTupleHolds(s, t)
    decreases t, s, 1
  {
    ValidInParts(s, t);
    DraftInParts(s, t);
    TypesCompared(s, t);
    SameCombination(s, t);
    SameCounts(s, t);
    SameItems(s, t);
    SameMembers(s, t);
  }

  /** On a conforming schema the two are the same for every tree without such large integers. */
  lemma {:induction false} SameVerdict(s: Schema, t: Json)
    requires PlainNumbers(t) && Loaded(s) && Conforming(s)
    ensures Valid(s, t) <==> Draft4(s, t)
    decreases t, s, 2
  {
    OneLevel(s, t);
  }

  /** Fed the events of any tree without such large integers, the validator of a conforming schema ends
      valid exactly if the tree is valid by draft-04. */
  lemma StreamMeetsDraft4(s: Schema, t: Json)
    requires PlainNumbers(t) && Loaded(s) && Conforming(s)
    ensures Nested(NewValidator(s))
    ensures FeedMany(NewValidator(s), Events(t)).valid <==> Draft4(s, t)
  {
    StreamingValidity(s, t);
    SameVerdict(s, t);
  }

  /** At the end of an object, with the names marked that occurred: the test accepts although a required
      name is missing exactly if the counts are right and every missing required property has a default. */
  lemma RequiredExactly(c: Context, t: Json)
    requires t.JObject? && Marked(c, t, |t.members|)
    ensures var s := c.schema;
            EndObjectHolds(c, |t.members|) && Missing(s, t.members) <==>
              && s.minProperties <= |t.members| <= s.maxProperties
              && Missing(s, t.members)
              && forall p | p in s.properties && p.required && (forall m | m in t.members :: m.name != p.name) ::
                    p.schema.hasDefault
  {
    MarkedAll(c, t);
  }

  /** The type test differs from the draft's exactly on an integer too large for 64 bits, where integers are
      allowed and other numbers are not. */
  lemma TypeExactly(s: Schema, t: Json)
    ensures (TypeAllowed(s, t) <==> DraftType(s, t)) <==>
            !(t.JDouble? && IntegerText(t.text) && IntegerType in s.types && NumberType !in s.types)
  {
    TypesCompared(s, t);
  }

  // ---------------------------------------------------------------------------
  // The exceptions.

  const A: Bytes := [0x61]

  /** The stream of {} ends valid for a schema that requires "a", which has a default. */
  lemma DefaultExcuses()
    ensures var s := TYPELESS.(properties := [Property(A, TYPELESS.(hasDefault := true), true, true)]);
            var t := JObject([]);
            && Loaded(s) && Nested(NewValidator(s))
            && FeedMany(NewValidator(s), Events(t)).valid && !Draft4(s, t)
  {
    var p := Property(A, TYPELESS.(hasDefault := true), true, true);
    var s, t := TYPELESS.(properties := [p]), JObject([]);
    assert p in s.properties && Missing(s, t.members);
    assert Valid(s, t);
    StreamingValidity(s, t);
  }

  /** The stream of {"a":true} ends valid for a schema that requires "a" and allows no additional
      properties. */
  lemma OnlyRequiredPasses()
    ensures var s := TYPELESS.(properties := [Property(A, TYPELESS, true, false)], additionalProperties := Disallowed);
            var t := JObject([Member(A, JBool(true))]);
            && Loaded(s) && Nested(NewValidator(s))
            && FeedMany(NewValidator(s), Events(t)).valid && !Draft4(s, t)
  {
    var p, m := Property(A, TYPELESS, true, false), Member(A, JBool(true));
    var s, t := TYPELESS.(properties := [p], additionalProperties := Disallowed), JObject([m]);
    assert FindProperty([p], A) == Some(0) && [p][0] == p;
    TypelessValid(m.value);
    assert MemberSchema(s, A) == Some(TYPELESS) && t.members[0] == m;
    assert m in t.members && HasMember(t.members, A);
    assert Valid(s, t);
    StreamingValidity(s, t);
    DraftMemberIs(s, A);
    assert OnlyRequired(s, A) && t.members[0] == m;
  }

  /** The stream of [null] ends valid for an empty tuple that allows no further items. */
  lemma EmptyTupleForgotten()
    ensures var s := TYPELESS.(items := TupleItems([], Disallowed));
            var t := JArray([JNull]);
            && Loaded(s) && Nested(NewValidator(s))
            && FeedMany(NewValidator(s), Events(t)).valid && !Draft4(s, t)
  {
    var s, t := TYPELESS.(items := TupleItems([], Disallowed)), JArray([JNull]);
    TypelessValid(JNull);
    assert Valid(s, t);
    StreamingValidity(s, t);
    assert DraftItem(s, 0).None?;
  }

  /** A schema of integers refuses 2^64, which the reader makes a double of. */
  lemma LargeIntegerRefused()
    ensures var s := TYPELESS.(types := {IntegerType});
            var t := JDouble(DecimalText(UINT64_MAX + 1));
            && Loaded(s) && Nested(NewValidator(s))
            && !FeedMany(NewValidator(s), Events(t)).valid && Draft4(s, t)
  {
    var s, t := TYPELESS.(types := {IntegerType}), JDouble(DecimalText(UINT64_MAX + 1));
    assert !Valid(s, t);
    StreamingValidity(s, t);
  }
}
