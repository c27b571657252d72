/** GenericSchemaValidator: a stack of contexts, each with validators of its own that see the
    same events. On values; SchemaObjects ties the object to these functions. */
module SchemaValidator {
  import opened BigIntBytes
  import opened JsonTree
  import opened Schema
  import opened Options

  datatype Context = Context(
    schema: Schema,
    valueSchema: Option<Schema>,     // the schema of the next value inside
    inArray: bool,
    arrayElementIndex: nat,
    propertyExist: seq<bool>,        // empty unless the schema requires some property
    validators: seq<Validator>)      // of allOf, anyOf, oneOf and not, in this order

  datatype Validator = Validator(root: Schema, schemaStack: seq<Context>, valid: bool)

  function NewValidator(s: Schema): Validator {
    Validator(s, [], true)
  }

  function NewContext(s: Schema): Context {
    Context(s, None, false, 0, [], [])
  }

  function Subschemas(s: Schema): seq<Schema> {
    s.allOf + s.anyOf + s.oneOf + (if s.not.Some? then [s.not.value] else [])
  }

  // ---------------------------------------------------------------------------
  // The members of Schema that test one event in one context.

  // Schema::BeginValue: inside an array, find the schema of the next element.
  function BeginInside(c: Context): Option<Context> {
    if !c.inArray then Some(c)
    else match ItemSchema(c.schema, c.arrayElementIndex)
      case None => None
      case Some(x) => Some(c.(valueSchema := Some(x), arrayElementIndex := c.arrayElementIndex + 1))
  }

  predicate HasRequired(s: Schema) {
    exists p | p in s.properties :: p.required
  }

  // CreateParallelValidator.
  function Parallel(c: Context): Context {
    c.(validators := seq(|Subschemas(c.schema)|, i requires 0 <= i < |Subschemas(c.schema)| =>
                           NewValidator(Subschemas(c.schema)[i])))
  }

  // Schema::Null, Bool, Int, ..., StartObject and StartArray.
  function Start(c: Context, e: Event): Option<Context> {
    var s := c.schema;
    match e
    case Null => if NullType in s.types then Some(Parallel(c)) else None
    case Bool(_) => if BooleanType in s.types then Some(Parallel(c)) else None
    case Int(_) => if IntegerType in s.types || NumberType in s.types then Some(Parallel(c)) else None
    case Uint(_) => if IntegerType in s.types || NumberType in s.types then Some(Parallel(c)) else None
    case Int64(_) => if IntegerType in s.types || NumberType in s.types then Some(Parallel(c)) else None
    case Uint64(_) => if IntegerType in s.types || NumberType in s.types then Some(Parallel(c)) else None
    case Double(_) => if NumberType in s.types then Some(Parallel(c)) else None
    case String(_) => if StringType in s.types then Some(Parallel(c)) else None
    case StartObject =>
      if ObjectType in s.types then
        Some(Parallel(if HasRequired(s) then c.(propertyExist := seq(|s.properties|, i => false)) else c))
      else None
    case StartArray =>
      if ArrayType in s.types then Some(Parallel(c.(inArray := true, arrayElementIndex := 0))) else None
    case _ => None
  }

  // Schema::Key.
  function KeyInside(c: Context, name: Bytes): Option<Context> {
    match FindProperty(c.schema.properties, name)
    case Some(i) =>
      Some(c.(valueSchema := Some(c.schema.properties[i].schema),
              propertyExist := if i < |c.propertyExist| then c.propertyExist[i := true] else c.propertyExist))
    case None =>
      match c.schema.additionalProperties
      case Matching(x) => Some(c.(valueSchema := Some(x)))
      case Allowed => Some(c.(valueSchema := Some(TYPELESS)))
      case Disallowed => None
  }

  // Schema::EndObject.
  predicate EndObjectHolds(c: Context, count: nat) {
    && (HasRequired(c.schema) ==>
          forall i | 0 <= i < |c.schema.properties| ::
            c.schema.properties[i].required && !(i < |c.propertyExist| && c.propertyExist[i]) ==>
              c.schema.properties[i].schema.hasDefault)
    && c.schema.minProperties <= count <= c.schema.maxProperties
  }

  // Schema::EndArray.
  predicate EndArrayHolds(c: Context, count: nat) {
    c.schema.minItems <= count <= c.schema.maxItems
  }

  function Flags(us: seq<Validator>): (flags: seq<bool>)
    ensures |flags| == |us|
  {
    seq(|us|, i requires 0 <= i < |us| => us[i].valid)
  }

  // Schema::EndValue: what the parallel validators must have found.
  predicate EndValueHolds(c: Context) {
    var s, flags := c.schema, Flags(c.validators);
    var any := |s.allOf|;
    var one := any + |s.anyOf|;
    var neg := one + |s.oneOf|;
    && |flags| == |Subschemas(s)|
    && AllTrue(flags[..any])
    && (s.anyOf != [] ==> SomeTrue(flags[any..one]))
    && (s.oneOf != [] ==> OneTrue(flags[one..neg]))
    && (s.not.Some? ==> !flags[neg])
  }

  // ---------------------------------------------------------------------------
  // One event.

  // Validators nest with ever smaller schemas.
  ghost predicate Nested(v: Validator)
    decreases v
  {
    forall c | c in v.schemaStack ::
      && Size(c.schema) <= Size(v.root)
      && (c.valueSchema.Some? ==> Size(c.valueSchema.value) <= Size(v.root))
      && forall u | u in c.validators :: Size(u.root) < Size(v.root) && Nested(u)
  }

  ghost predicate Fits(cs: seq<Context>, n: nat) {
    forall c | c in cs ::
      && Size(c.schema) <= n
      && (c.valueSchema.Some? ==> Size(c.valueSchema.value) <= n)
      && forall u | u in c.validators :: Size(u.root) < n && Nested(u)
  }

  function Top(cs: seq<Context>): Context
    requires cs != []
  {
    cs[|cs| - 1]
  }

  function WithTop(cs: seq<Context>, c: Context): seq<Context>
    requires cs != []
  {
    cs[..|cs| - 1] + [c]
  }

  // GenericSchemaValidator::BeginValue: the contexts with one more for the value that begins.
  function BeginValue(v: Validator): Option<seq<Context>> {
    if v.schemaStack == [] then Some([NewContext(v.root)])
    else match BeginInside(Top(v.schemaStack))
      case None => None
      case Some(c) =>
        // A value outside an array and without a key before it is no JSON.
        if c.valueSchema.None? then None
        else Some(WithTop(v.schemaStack, c) + [NewContext(c.valueSchema.value)])
  }

  // What happens to the contexts before the event reaches the parallel validators.
  function Before(v: Validator, e: Event): Option<seq<Context>> {
    match e
    case Key(name) =>
      if v.schemaStack == [] then None
      else (match KeyInside(Top(v.schemaStack), name)
            case None => None
            case Some(c) => Some(WithTop(v.schemaStack, c)))
    case EndObject(_) => if v.schemaStack == [] then None else Some(v.schemaStack)
    case EndArray(_) => if v.schemaStack == [] then None else Some(v.schemaStack)
    case _ =>
      match BeginValue(v)
      case None => None
      case Some(cs) =>
        match Start(Top(cs), e)
        case None => None
        case Some(c) => Some(WithTop(cs, c))
  }

  // GenericSchemaValidator::EndValue. The stack of an invalid validator is never looked at again.
  function EndValue(v: Validator, cs: seq<Context>): Validator
    requires cs != []
  {
    if EndValueHolds(Top(cs)) then v.(schemaStack := cs[..|cs| - 1]) else v.(valid := false)
  }

  // What happens after it: the end of an object or array is tested, and a value that ends is closed.
  function After(v: Validator, cs: seq<Context>, e: Event): Validator
    requires cs != []
  {
    match e
    case Key(_) => v.(schemaStack := cs)
    case StartObject => v.(schemaStack := cs)
    case StartArray => v.(schemaStack := cs)
    case EndObject(count) =>
      if EndObjectHolds(Top(cs), count) then EndValue(v, cs) else v.(valid := false)
    case EndArray(count) =>
      if EndArrayHolds(Top(cs), count) then EndValue(v, cs) else v.(valid := false)
    case _ => EndValue(v, cs)
  }

  lemma {:induction false} SizesCover(ss: seq<Schema>, x: Schema)
    requires x in ss
    ensures Size(x) <= Sizes(ss)
  {
    if ss[0] != x {
      SizesCover(ss[1..], x);
    }
  }

  lemma {:induction false} PropertySizesCover(ps: seq<Property>, p: Property)
    requires p in ps
    ensures Size(p.schema) <= PropertySizes(ps)
  {
    if ps[0] != p {
      PropertySizesCover(ps[1..], p);
    }
  }

  lemma PartsOfSize(s: Schema)
    ensures Size(s) > Sizes(s.allOf) && Size(s) > Sizes(s.anyOf) && Size(s) > Sizes(s.oneOf)
    ensures s.not.Some? ==> Size(s) > Size(s.not.value)
    ensures Size(s) > PropertySizes(s.properties)
  {
  }

  lemma SubschemaSmaller(s: Schema, x: Schema)
    requires x in Subschemas(s)
    ensures Size(x) < Size(s)
  {
    PartsOfSize(s);
    if x in s.allOf {
      SizesCover(s.allOf, x);
    } else if x in s.anyOf {
      SizesCover(s.anyOf, x);
    } else if x in s.oneOf {
      SizesCover(s.oneOf, x);
    } else {
      assert s.not.Some? && x == s.not.value;
    }
  }

  lemma ItemSchemaFits(s: Schema, i: nat)
    requires ItemSchema(s, i).Some?
    ensures Size(ItemSchema(s, i).value) <= Size(s)
  {
    if s.items.TupleItems? && i < |s.items.schemas| {
      SizesCover(s.items.schemas, s.items.schemas[i]);
    }
    assert Size(TYPELESS) == 1;
  }

  lemma MemberSchemaFits(s: Schema, name: Bytes)
    requires MemberSchema(s, name).Some?
    ensures Size(MemberSchema(s, name).value) <= Size(s)
  {
    if FindProperty(s.properties, name).Some? {
      PropertySizesCover(s.properties, s.properties[FindProperty(s.properties, name).value]);
    }
    assert Size(TYPELESS) == 1;
  }

  lemma BeginValueFits(v: Validator)
    requires Nested(v) && BeginValue(v).Some?
    ensures BeginValue(v).value != [] && Fits(BeginValue(v).value, Size(v.root))
    ensures Top(BeginValue(v).value).validators == []
  {
    if v.schemaStack != [] {
      var c := Top(v.schemaStack);
      assert c in v.schemaStack;
      if c.inArray { ItemSchemaFits(c.schema, c.arrayElementIndex); }
    }
  }

  lemma StartFits(c: Context, e: Event, n: nat)
    requires Fits([c], n) && Start(c, e).Some?
    ensures Fits([Start(c, e).value], n)
  {
    assert c in [c];
    var c' := Start(c, e).value;
    assert c'.schema == c.schema && c'.valueSchema == c.valueSchema && c'.validators == Parallel(c).validators;
    forall u | u in c'.validators ensures Size(u.root) < n && Nested(u) {
      assert u.root in Subschemas(c.schema);
      SubschemaSmaller(c.schema, u.root);
    }
  }

  lemma WithTopFits(cs: seq<Context>, c: Context, n: nat)
    requires cs != [] && Fits(cs, n) && Fits([c], n)
    ensures Fits(WithTop(cs, c), n)
  {
    assert c in [c];
    forall x | x in WithTop(cs, c) ensures x == c || x in cs { }
  }

  lemma KeyFits(v: Validator, name: Bytes)
    requires Nested(v) && v.schemaStack != [] && KeyInside(Top(v.schemaStack), name).Some?
    ensures Fits(WithTop(v.schemaStack, KeyInside(Top(v.schemaStack), name).value), Size(v.root))
  {
    var c := Top(v.schemaStack);
    assert c in v.schemaStack;
    MemberSchemaFits(c.schema, name);
    WithTopFits(v.schemaStack, KeyInside(c, name).value, Size(v.root));
  }

  lemma ValueFits(v: Validator, e: Event)
    requires Nested(v) && BeginValue(v).Some? && BeginValue(v).value != [] && Start(Top(BeginValue(v).value), e).Some?
    ensures var cs := BeginValue(v).value; Fits(WithTop(cs, Start(Top(cs), e).value), Size(v.root))
  {
    BeginValueFits(v);
    var cs := BeginValue(v).value;
    assert Top(cs) in cs;
    StartFits(Top(cs), e, Size(v.root));
    WithTopFits(cs, Start(Top(cs), e).value, Size(v.root));
  }

  lemma BeforeFits(v: Validator, e: Event)
    requires Nested(v) && Before(v, e).Some?
    ensures Before(v, e).value != [] && Fits(Before(v, e).value, Size(v.root))
  {
    match e
    case Key(name) => KeyFits(v, name);
    case EndObject(_) =>
    case EndArray(_) =>
    case _ =>
      BeginValueFits(v);
      ValueFits(v, e);
  }

  // One more than the size of the largest root.
  ghost function Bound(us: seq<Validator>): nat {
    if us == [] then 0
    else
      var rest := Bound(us[1..]);
      if Size(us[0].root) + 1 > rest then Size(us[0].root) + 1 else rest
  }

  lemma {:induction false} BoundCovers(us: seq<Validator>, n: nat)
    ensures forall u | u in us :: Size(u.root) < Bound(us)
    ensures (forall u | u in us :: Size(u.root) < n) ==> Bound(us) <= n
  {
    if us != [] {
      BoundCovers(us[1..], n);
      forall u | u in us ensures Size(u.root) < Bound(us) {
        assert u == us[0] || u in us[1..];
      }
    }
  }

  /** One event: the current context sees it, then the validators of every open context do. */
  function Feed(v: Validator, e: Event): Validator
    requires Nested(v)
    decreases Size(v.root), 2
  {
    if !v.valid then v
    else match Before(v, e)
      case None => v.(valid := false)
      case Some(cs) =>
        BeforeFits(v, e);
        After(v, FeedContexts(cs, e, Size(v.root)), e)
  }

  function FeedContexts(cs: seq<Context>, e: Event, n: nat): (fed: seq<Context>)
    requires Fits(cs, n)
    ensures |fed| == |cs|
    decreases n, 1
  {
    seq(|cs|, i requires 0 <= i < |cs| =>
      assert cs[i] in cs;
      BoundCovers(cs[i].validators, n);
      cs[i].(validators := FeedEach(cs[i].validators, e)))
  }

  function FeedEach(us: seq<Validator>, e: Event): (fed: seq<Validator>)
    requires forall u | u in us :: Nested(u)
    ensures |fed| == |us|
    decreases Bound(us), 0
  {
    BoundCovers(us, 0);
    seq(|us|, j requires 0 <= j < |us| => Feed(us[j], e))
  }
}
