/** JSON values as trees, and the events that a handler sees of them. */
module JsonTree {
  import opened BigIntBytes
  import opened Options

  // A double is kept as its text: its value is not part of this model.
  datatype Json =
    | JNull
    | JBool(b: bool)
    | JInt(n: int)
    | JDouble(text: Bytes)
    | JString(s: Bytes)
    | JArray(elems: seq<Json>)
    | JObject(members: seq<Member>)

  datatype Member = Member(name: Bytes, value: Json)

  datatype Event =
    | Null
    | Bool(b: bool)
    | Int(n: int)
    | Uint(n: int)
    | Int64(n: int)
    | Uint64(n: int)
    | Double(text: Bytes)
    | String(s: Bytes)
    | Key(s: Bytes)
    | StartObject
    | EndObject(count: nat)
    | StartArray
    | EndArray(count: nat)

  // DoFindMember: the value of the first member of this name.
  function Found(members: seq<Member>, name: Bytes): Option<Json> {
    if members == [] then None
    else if members[0].name == name then Some(members[0].value)
    else Found(members[1..], name)
  }

  const INT32_MIN: int := -0x8000_0000
  const INT32_MAX: int := 0x7fff_ffff
  const UINT32_MAX: int := 0xffff_ffff
  const INT64_MIN: int := -0x8000_0000_0000_0000
  const INT64_MAX: int := 0x7fff_ffff_ffff_ffff
  const UINT64_MAX: int := 0xffff_ffff_ffff_ffff

  // The event GenericValue::Accept sends for an integer: the first of its four flags that is set.
  function IntegerEvent(n: int): (e: Event)
    ensures e.Int? <==> -0x8000_0000 <= n < 0x8000_0000
    ensures e.Uint? <==> 0x8000_0000 <= n < 0x1_0000_0000
    ensures e.Int64? <==> -0x8000_0000_0000_0000 <= n < -0x8000_0000 || 0x1_0000_0000 <= n < 0x8000_0000_0000_0000
  {
    if INT32_MIN <= n <= INT32_MAX then Int(n)
    else if 0 <= n <= UINT32_MAX then Uint(n)
    else if INT64_MIN <= n <= INT64_MAX then Int64(n)
    else Uint64(n)
  }

  // GenericValue::Accept.
  function Events(t: Json): seq<Event>
    decreases t
  {
    match t
    case JNull => [Null]
    case JBool(b) => [Bool(b)]
    case JInt(n) => [IntegerEvent(n)]
    case JDouble(text) => [Double(text)]
    case JString(s) => [String(s)]
    case JArray(elems) => [StartArray] + ElementEvents(t, 0) + [EndArray(|elems|)]
    case JObject(members) => [StartObject] + MemberEvents(t, 0) + [EndObject(|members|)]
  }

  // The events of the elements from the k-th on.
  function ElementEvents(t: Json, k: nat): seq<Event>
    requires t.JArray? && k <= |t.elems|
    decreases t, |t.elems| - k + 1
  {
    if k == |t.elems| then [] else Events(t.elems[k]) + ElementEvents(t, k + 1)
  }

  function MemberEvents(t: Json, k: nat): seq<Event>
    requires t.JObject? && k <= |t.members|
    decreases t, |t.members| - k + 1
  {
    if k == |t.members| then []
    else [Key(t.members[k].name)] + Events(t.members[k].value) + MemberEvents(t, k + 1)
  }

  // What is left of an array or object from its k-th part on.
  ghost function ElementsLeft(t: Json, k: nat): seq<Event>
    requires t.JArray? && k <= |t.elems|
  {
    ElementEvents(t, k) + [EndArray(|t.elems|)]
  }

  ghost function MembersLeft(t: Json, k: nat): seq<Event>
    requires t.JObject? && k <= |t.members|
  {
    MemberEvents(t, k) + [EndObject(|t.members|)]
  }

  ghost function MemberEvent(m: Member): seq<Event> {
    [Key(m.name)] + Events(m.value)
  }

  lemma LeftFirst(t: Json, k: nat)
    ensures t.JArray? && k < |t.elems| ==> ElementsLeft(t, k) == Events(t.elems[k]) + ElementsLeft(t, k + 1)
    ensures t.JObject? && k < |t.members| ==> MembersLeft(t, k) == MemberEvent(t.members[k]) + MembersLeft(t, k + 1)
  {
  }

  lemma LeftAround(t: Json)
    ensures t.JArray? ==>
              Events(t) == [StartArray] + ElementsLeft(t, 0) && ElementsLeft(t, |t.elems|) == [EndArray(|t.elems|)]
    ensures t.JObject? ==>
              && Events(t) == [StartObject] + MembersLeft(t, 0)
              && MembersLeft(t, |t.members|) == [EndObject(|t.members|)]
  {
  }
}
