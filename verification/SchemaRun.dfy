/** A document validated from start to end: GenericValue::Accept with the validator as its handler. */
module SchemaRun {
  import opened JsonTree
  import opened Schema
  import opened SchemaProofs
  import opened SchemaObjects
  import SV = SchemaValidator
  import SchemaTheorem

  // How an accepted event changes the number of open contexts.
  function Opened(e: Event): int {
    if e.StartObject? || e.StartArray? then 1
    else if e.EndObject? || e.EndArray? then -1
    else 0
  }

  lemma StackGrows(v: SV.Validator, e: Event)
    requires SV.Nested(v) && v.valid && SV.Feed(v, e).valid
    ensures |SV.Feed(v, e).schemaStack| == |v.schemaStack| + Opened(e)
  {
    SV.BeforeFits(v, e);
    if BeginsValue(e) {
      BeginInParts(v, e);
    }
  }

  // The events es are what is left to feed, of which first comes first.
  lemma FeedFirst(v: SV.Validator, first: seq<Event>, rest: seq<Event>)
    requires SV.Nested(v)
    ensures SV.Nested(FeedMany(v, first))
    ensures FeedMany(v, first + rest) == FeedMany(FeedMany(v, first), rest)
    ensures !FeedMany(v, first).valid ==> !FeedMany(v, first + rest).valid
    ensures |first| == 1 ==> FeedMany(v, first) == SV.Feed(v, first[0])
  {
    FeedManyAppend(v, first, rest);
    if !FeedMany(v, first).valid {
      FeedManyInvalid(FeedMany(v, first), rest);
    }
    if |first| == 1 {
      assert first == [first[0]];
      FeedManyOne(v, first[0]);
    }
  }

  // The handler's member for an event.
  method Dispatch(h: GenericSchemaValidator, e: Event) returns (ok: bool)
    requires h.Consistent() && h.valid && (Opened(e) < 0 || e.Key? ==> h.schemaStack != [])
    modifies h`schemaStack, h`valid
    ensures ok == h.valid && h.Consistent()
    ensures h.Shows(SV.Feed(old(h.View()), e))
  {
    match e
    case Key(name) => ok := h.Key(name);
    case EndObject(_) => ok := h.HandleEnd(e);
    case EndArray(_) => ok := h.HandleEnd(e);
    case StartObject => ok := h.HandleStart(e);
    case StartArray => ok := h.HandleStart(e);
    case _ => ok := h.HandleValue(e);
  }

  method HandleAny(h: GenericSchemaValidator, e: Event) returns (ok: bool)
    requires h.Consistent() && h.valid && (Opened(e) < 0 || e.Key? ==> h.schemaStack != [])
    modifies h`schemaStack, h`valid
    ensures ok == h.valid && h.Consistent()
    ensures h.Shows(SV.Feed(old(h.View()), e))
    ensures ok ==> |h.schemaStack| == |old(h.schemaStack)| + Opened(e)
  {
    ghost var v := h.View();
    ok := Dispatch(h, e);
    if ok {
      StackGrows(v, e);
    }
  }

  method Accept(h: GenericSchemaValidator, t: Json) returns (ok: bool)
    requires h.Consistent() && h.valid
    modifies h`schemaStack, h`valid
    ensures ok == h.valid && h.Consistent()
    ensures h.Shows(FeedMany(old(h.View()), Events(t)))
    ensures ok ==> |h.schemaStack| == |old(h.schemaStack)|
    decreases t, 3
  {
    match t
    case JArray(elems) => ok := AcceptArray(h, t);
    case JObject(members) => ok := AcceptObject(h, t);
    case _ =>
      FeedManyOne(h.View(), Events(t)[0]);
      assert Events(t) == [Events(t)[0]];
      ok := HandleAny(h, Events(t)[0]);
  }

  // One element of an array.
  method AcceptElement(h: GenericSchemaValidator, t: Json, i: nat) returns (ok: bool)
    requires h.Consistent() && h.valid && t.JArray? && i < |t.elems|
    modifies h`schemaStack, h`valid
    ensures ok == h.valid && h.Consistent()
    ensures ok ==>
              && |h.schemaStack| == |old(h.schemaStack)|
              && FeedMany(h.View(), ElementsLeft(t, i + 1)) == FeedMany(old(h.View()), ElementsLeft(t, i))
    ensures !ok ==> !FeedMany(old(h.View()), ElementsLeft(t, i)).valid
    decreases t, 0
  {
    LeftFirst(t, i);
    FeedFirst(h.View(), Events(t.elems[i]), ElementsLeft(t, i + 1));
    ok := Accept(h, t.elems[i]);
  }

  method AcceptElements(h: GenericSchemaValidator, t: Json) returns (ok: bool)
    requires h.Consistent() && h.valid && t.JArray?
    modifies h`schemaStack, h`valid
    ensures ok == h.valid && h.Consistent()
    ensures ok ==>
              && |h.schemaStack| == |old(h.schemaStack)|
              && FeedMany(h.View(), [EndArray(|t.elems|)]) == FeedMany(old(h.View()), ElementsLeft(t, 0))
    ensures !ok ==> !FeedMany(old(h.View()), ElementsLeft(t, 0)).valid
    decreases t, 1
  {
    ghost var v := h.View();
    var i := 0;
    ok := true;
    while i < |t.elems|
      invariant i <= |t.elems| && ok
      invariant h.Consistent() && h.valid && |h.schemaStack| == |old(h.schemaStack)|
      invariant FeedMany(h.View(), ElementsLeft(t, i)) == FeedMany(v, ElementsLeft(t, 0))
    {
      ok := AcceptElement(h, t, i);
      if !ok { return; }
      i := i + 1;
    }
    LeftAround(t);
  }

  method AcceptArray(h: GenericSchemaValidator, t: Json) returns (ok: bool)
    requires h.Consistent() && h.valid && t.JArray?
    modifies h`schemaStack, h`valid
    ensures ok == h.valid && h.Consistent()
    ensures h.Shows(FeedMany(old(h.View()), Events(t)))
    ensures ok ==> |h.schemaStack| == |old(h.schemaStack)|
    decreases t, 2
  {
    LeftAround(t);
    FeedFirst(h.View(), [StartArray], ElementsLeft(t, 0));
    ok := HandleAny(h, StartArray);
    if !ok { return; }
    ok := AcceptElements(h, t);
    if !ok { return; }
    FeedManyOne(h.View(), EndArray(|t.elems|));
    ok := HandleAny(h, EndArray(|t.elems|));
  }

  method AcceptMember(h: GenericSchemaValidator, m: Member) returns (ok: bool)
    requires h.Consistent() && h.valid && h.schemaStack != []
    modifies h`schemaStack, h`valid
    ensures ok == h.valid && h.Consistent()
    ensures h.Shows(FeedMany(old(h.View()), MemberEvent(m)))
    ensures ok ==> |h.schemaStack| == |old(h.schemaStack)|
    decreases m, 2
  {
    FeedFirst(h.View(), [Key(m.name)], Events(m.value));
    ok := HandleAny(h, Key(m.name));
    if !ok { return; }
    ok := Accept(h, m.value);
  }

  method AcceptObject(h: GenericSchemaValidator, t: Json) returns (ok: bool)
    requires h.Consistent() && h.valid && t.JObject?
    modifies h`schemaStack, h`valid
    ensures ok == h.valid && h.Consistent()
    ensures h.Shows(FeedMany(old(h.View()), Events(t)))
    ensures ok ==> |h.schemaStack| == |old(h.schemaStack)|
    decreases t, 0
  {
    ghost var v := h.View();
    LeftAround(t);
    FeedFirst(v, [StartObject], MembersLeft(t, 0));
    ok := HandleAny(h, StartObject);
    if !ok { return; }
    var i := 0;
    while i < |t.members|
      invariant i <= |t.members|
      invariant h.Consistent() && h.valid && |h.schemaStack| == |old(h.schemaStack)| + 1
      invariant FeedMany(h.View(), MembersLeft(t, i)) == FeedMany(v, Events(t))
    {
      LeftFirst(t, i);
      FeedFirst(h.View(), MemberEvent(t.members[i]), MembersLeft(t, i + 1));
      ok := AcceptMember(h, t.members[i]);
      if !ok { return; }
      i := i + 1;
    }
    FeedManyOne(h.View(), EndObject(|t.members|));
    ok := HandleAny(h, EndObject(|t.members|));
  }

  /** A fresh validator object, driven over a whole document, answers exactly whether the
      document is valid against the schema. */
  method Validate(s: Schema, t: Json) returns (ok: bool)
    requires Loaded(s)
    ensures ok <==> Valid(s, t)
  {
    var h := new GenericSchemaValidator(s);
    SchemaTheorem.StreamingValidity(s, t);
    ok := Accept(h, t);
  }
}
