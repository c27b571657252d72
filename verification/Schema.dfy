/** The streaming validator of schema.h: schemas, contexts, and what each event does. */
module Schema {
  import opened BigIntBytes
  import opened JsonTree
  import opened Options

  datatype SchemaType = NullType | BooleanType | ObjectType | ArrayType | StringType | NumberType | IntegerType

  datatype Items = AnyItems | ListItems(schema: Schema) | TupleItems(schemas: seq<Schema>, others: Others)

  // additionalItems and additionalProperties: a boolean or a schema.
  datatype Others = Allowed | Disallowed | Matching(schema: Schema)

  // A property that is only required, but not `listed` under "properties", is one of the code's all the same.
  datatype Property = Property(name: Bytes, schema: Schema, required: bool, listed: bool)

  // `hasDefault`: the schema has a non-empty default string.
  datatype Schema = Schema(
    types: set<SchemaType>,
    allOf: seq<Schema>, anyOf: seq<Schema>, oneOf: seq<Schema>, not: Option<Schema>,
    properties: seq<Property>, additionalProperties: Others, minProperties: nat, maxProperties: nat,
    items: Items, minItems: nat, maxItems: nat,
    hasDefault: bool)

  const ALL_TYPES: set<SchemaType> :=
    {NullType, BooleanType, ObjectType, ArrayType, StringType, NumberType, IntegerType}

  const SIZE_MAX: nat := 0xffff_ffff

  // The schema of values that nothing is said about.
  const TYPELESS: Schema :=
    Schema(ALL_TYPES, [], [], [], None, [], Allowed, 0, SIZE_MAX, AnyItems, 0, SIZE_MAX, false)

  // ---------------------------------------------------------------------------
  // The size of a schema, which bounds how deep validators nest.

  function Size(s: Schema): (n: nat)
    ensures n > 0
    decreases s, 0
  {
    1 + Sizes(s.allOf) + Sizes(s.anyOf) + Sizes(s.oneOf)
    + (match s.not case None => 0 case Some(x) => Size(x))
    + PropertySizes(s.properties)
    + (match s.additionalProperties case Matching(x) => Size(x) case _ => 0)
    + (match s.items
       case AnyItems => 0
       case ListItems(x) => Size(x)
       case TupleItems(xs, others) => Sizes(xs) + (match others case Matching(x) => Size(x) case _ => 0))
  }

  function Sizes(ss: seq<Schema>): nat
    decreases ss, 0
  {
    if ss == [] then 0 else Size(ss[0]) + Sizes(ss[1..])
  }

  function PropertySizes(ps: seq<Property>): nat
    decreases ps, 0
  {
    if ps == [] then 0 else Size(ps[0].schema) + PropertySizes(ps[1..])
  }

  // What the loader guarantees: every property has its own name (AddUniqueElement), and one that is not
  // listed has no schema of its own.
  predicate Loaded(s: Schema)
    decreases s
  {
    && (forall x | x in s.allOf :: Loaded(x))
    && (forall x | x in s.anyOf :: Loaded(x))
    && (forall x | x in s.oneOf :: Loaded(x))
    && (s.not.Some? ==> Loaded(s.not.value))
    && (forall i, j | 0 <= i < j < |s.properties| :: s.properties[i].name != s.properties[j].name)
    && (forall p | p in s.properties :: Loaded(p.schema) && (!p.listed ==> p.schema == TYPELESS))
    && (s.additionalProperties.Matching? ==> Loaded(s.additionalProperties.schema))
    && (match s.items
        case AnyItems => true
        case ListItems(x) => Loaded(x)
        case TupleItems(xs, others) =>
          (forall x | x in xs :: Loaded(x)) && (others.Matching? ==> Loaded(others.schema)))
  }

  // ---------------------------------------------------------------------------
  // Validity of a tree, on its own, as the code means it: section 5 of the JSON Schema draft-04
  // validation document, except that a required property may be missing if its schema has a default,
  // that a name which is only required is not an additional one, and that an empty tuple of items is no
  // tuple. SchemaDraft is about these three exceptions.

  predicate TypeAllowed(s: Schema, t: Json) {
    match t
    case JNull => NullType in s.types
    case JBool(_) => BooleanType in s.types
    case JInt(_) => IntegerType in s.types || NumberType in s.types
    case JDouble(_) => NumberType in s.types
    case JString(_) => StringType in s.types
    case JArray(_) => ArrayType in s.types
    case JObject(_) => ObjectType in s.types
  }

  function FindProperty(ps: seq<Property>, name: Bytes): (i: Option<nat>)
    ensures i.Some? ==> i.value < |ps| && ps[i.value].name == name
    ensures i.None? ==> forall p | p in ps :: p.name != name
  {
    if ps == [] then None
    else if ps[0].name == name then Some(0)
    else match FindProperty(ps[1..], name) case None => None case Some(i) => Some(i + 1)
  }

  // The schema for a member of this name, or none if the name is not allowed.
  function MemberSchema(s: Schema, name: Bytes): Option<Schema> {
    match FindProperty(s.properties, name)
    case Some(i) => Some(s.properties[i].schema)
    case None =>
      match s.additionalProperties
      case Matching(x) => Some(x)
      case Allowed => Some(TYPELESS)
      case Disallowed => None
  }

  // The schema for the element at this index, or none if there must not be one.
  function ItemSchema(s: Schema, index: nat): Option<Schema> {
    match s.items
    case AnyItems => Some(TYPELESS)
    case ListItems(x) => Some(x)
    case TupleItems(xs, others) =>
      // The memory for an empty tuple is a null pointer.
      if xs == [] then Some(TYPELESS)
      else if index < |xs| then Some(xs[index])
      else match others
        case Matching(x) => Some(x)
        case Allowed => Some(TYPELESS)
        case Disallowed => None
  }

  predicate HasMember(members: seq<Member>, name: Bytes) {
    exists m | m in members :: m.name == name
  }

  predicate AllTrue(verdicts: seq<bool>) {
    forall i | 0 <= i < |verdicts| :: verdicts[i]
  }

  predicate SomeTrue(verdicts: seq<bool>) {
    exists i | 0 <= i < |verdicts| :: verdicts[i]
  }

  predicate OneTrue(verdicts: seq<bool>) {
    exists i | 0 <= i < |verdicts| :: verdicts[i] && forall j | 0 <= j < |verdicts| && j != i :: !verdicts[j]
  }

  predicate AllHold(ss: seq<Schema>, t: Json)
    decreases t, ss
  {
    forall i | 0 <= i < |ss| :: Valid(ss[i], t)
  }

  predicate SomeHolds(ss: seq<Schema>, t: Json)
    decreases t, ss
  {
    exists i | 0 <= i < |ss| :: Valid(ss[i], t)
  }

  predicate OneHolds(ss: seq<Schema>, t: Json)
    decreases t, ss
  {
    exists i | 0 <= i < |ss| :: Valid(ss[i], t) && forall j | 0 <= j < |ss| && j != i :: !Valid(ss[j], t)
  }

  predicate Valid(s: Schema, t: Json)
    decreases t, s
  {
    && TypeAllowed(s, t)
    && AllHold(s.allOf, t)
    && (s.anyOf != [] ==> SomeHolds(s.anyOf, t))
    && (s.oneOf != [] ==> OneHolds(s.oneOf, t))
    && (s.not.Some? ==> !Valid(s.not.value, t))
    && (t.JArray? ==>
          && s.minItems <= |t.elems| <= s.maxItems
          && forall i | 0 <= i < |t.elems| ::
               ItemSchema(s, i).Some? && Valid(ItemSchema(s, i).value, t.elems[i]))
    && (t.JObject? ==>
          && s.minProperties <= |t.members| <= s.maxProperties
          && (forall p | p in s.properties && p.required :: HasMember(t.members, p.name) || p.schema.hasDefault)
          && forall i | 0 <= i < |t.members| ::
               MemberSchema(s, t.members[i].name).Some?
               && Valid(MemberSchema(s, t.members[i].name).value, t.members[i].value))
  }
}
