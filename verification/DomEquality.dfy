/** operator== of GenericValue, which looks the members of one side up in the other but never back. */
module DomEquality {
  import opened BigIntBytes
  import opened JsonTree
  import opened Options

  // Numbers are compared as the 64-bit words that they are stored in.
  const WORDS: int := 0x1_0000_0000_0000_0000

  function Word(n: int): nat {
    n % WORDS
  }

  // Doubles are no part of this model of equality.
  predicate NoDoubles(t: Json)
    decreases t
  {
    match t
    case JDouble(_) => false
    case JArray(elems) => forall x | x in elems :: NoDoubles(x)
    case JObject(members) => forall m | m in members :: NoDoubles(m.value)
    case _ => true
  }

  predicate DistinctNames(members: seq<Member>) {
    forall i, j | 0 <= i < j < |members| :: members[i].name != members[j].name
  }

  // No object has two members of one name.
  predicate NoDuplicates(t: Json)
    decreases t
  {
    match t
    case JArray(elems) => forall x | x in elems :: NoDuplicates(x)
    case JObject(members) => DistinctNames(members) && forall m | m in members :: NoDuplicates(m.value)
    case _ => true
  }

  // operator==.
  predicate Equal(a: Json, b: Json)
    requires NoDoubles(a) && NoDoubles(b)
    decreases a
  {
    match a
    case JNull => b.JNull?
    case JBool(x) => b == JBool(x)
    case JInt(n) => b.JInt? && Word(n) == Word(b.n)
    case JString(s) => b == JString(s)
    case JArray(elems) =>
      b.JArray? && |elems| == |b.elems| && forall i | 0 <= i < |elems| :: Equal(elems[i], b.elems[i])
    case JObject(members) =>
      && b.JObject? && |members| == |b.members|
      && forall m | m in members ::
           && Found(b.members, m.name).Some?
           && (FoundIsMember(b.members, m.name); Equal(m.value, Found(b.members, m.name).value))
  }

  lemma {:induction false} FoundIsMember(members: seq<Member>, name: Bytes)
    requires Found(members, name).Some?
    ensures exists m | m in members :: m.name == name && m.value == Found(members, name).value
  {
    if members[0].name == name {
      assert members[0] in members;
    } else {
      FoundIsMember(members[1..], name);
    }
  }

  // ---------------------------------------------------------------------------
  // What a tree stands for when the order of members does not matter.

  datatype Value =
    | NullValue
    | BoolValue(b: bool)
    | WordValue(n: nat)
    | StringValue(s: Bytes)
    | ArrayValue(elems: seq<Value>)
    | ObjectValue(members: map<Bytes, Value>)

  function Meaning(t: Json): Value
    requires NoDoubles(t)
    decreases t
  {
    match t
    case JNull => NullValue
    case JBool(b) => BoolValue(b)
    case JInt(n) => WordValue(Word(n))
    case JString(s) => StringValue(s)
    case JArray(elems) => ArrayValue(seq(|elems|, i requires 0 <= i < |elems| => Meaning(elems[i])))
    case JObject(members) => ObjectValue(MembersFrom(t, 0))
  }

  // The first member of a name counts.
  function MembersFrom(t: Json, k: nat): map<Bytes, Value>
    requires NoDoubles(t) && t.JObject? && k <= |t.members|
    decreases t, |t.members| - k
  {
    if k == |t.members| then map[]
    else MembersFrom(t, k + 1)[t.members[k].name := Meaning(t.members[k].value)]
  }

  lemma {:induction false} LookedUp(t: Json, k: nat, name: Bytes)
    requires NoDoubles(t) && t.JObject? && k <= |t.members|
    ensures var value := Found(t.members[k..], name);
            && (name in MembersFrom(t, k) <==> value.Some?)
            && (value.Some? ==> NoDoubles(value.value) && MembersFrom(t, k)[name] == Meaning(value.value))
    decreases |t.members| - k
  {
    if k < |t.members| {
      assert t.members[k..][1..] == t.members[k + 1..];
      LookedUp(t, k + 1, name);
    }
  }

  // With distinct names there are as many names as members.
  lemma {:induction false} AsManyNames(t: Json, k: nat)
    requires NoDoubles(t) && t.JObject? && k <= |t.members| && DistinctNames(t.members)
    ensures |MembersFrom(t, k)| == |t.members| - k
    ensures forall name | name in MembersFrom(t, k) :: exists i | k <= i < |t.members| :: t.members[i].name == name
    decreases |t.members| - k
  {
    if k < |t.members| {
      AsManyNames(t, k + 1);
      assert t.members[k].name !in MembersFrom(t, k + 1);
    }
  }

  lemma FoundOwn(t: Json, i: nat)
    requires t.JObject? && i < |t.members| && DistinctNames(t.members)
    ensures Found(t.members, t.members[i].name) == Some(t.members[i].value)
  {
    FoundFirst(t.members, i);
  }

  lemma {:induction false} FoundFirst(members: seq<Member>, i: nat)
    requires i < |members| && forall j | 0 <= j < i :: members[j].name != members[i].name
    ensures Found(members, members[i].name) == Some(members[i].value)
  {
    if i > 0 { FoundFirst(members[1..], i - 1); }
  }

  lemma SameSizeSubset<T>(a: set<T>, b: set<T>)
    requires a <= b && |a| == |b|
    ensures a == b
  {
    assert |b - a| == |b| - |a|;
    assert b - a == {};
  }

  /** operator== is equality up to the order of members: looking one way only is enough, because with
      distinct names and as many members on both sides no name of the other side can be left over. */
  lemma {:induction false} EqualIsSameMeaning(a: Json, b: Json)
    requires NoDoubles(a) && NoDoubles(b) && NoDuplicates(a) && NoDuplicates(b)
    ensures Equal(a, b) <==> Meaning(a) == Meaning(b)
    decreases a
  {
    match a
    case JArray(elems) =>
      if b.JArray? && |elems| == |b.elems| {
        forall i | 0 <= i < |elems|
          ensures Equal(elems[i], b.elems[i]) <==> Meaning(a).elems[i] == Meaning(b).elems[i]
        {
          assert elems[i] in elems && b.elems[i] in b.elems;
          EqualIsSameMeaning(elems[i], b.elems[i]);
        }
      }
    case JObject(members) =>
      if b.JObject? {
        AsManyNames(a, 0);
        AsManyNames(b, 0);
        forall i | 0 <= i < |members| ensures MemberAgrees(a, b, i) {
          MemberMeaning(a, b, i);
        }
        if Equal(a, b) { EqualThenSame(a, b); }
        if MembersFrom(a, 0) == MembersFrom(b, 0) { SameThenEqual(a, b); }
      }
    case _ =>
  }

  // The i-th member of a is found in b with an equal value exactly when the maps agree on its name.
  ghost predicate MemberAgrees(a: Json, b: Json, i: nat)
    requires NoDoubles(a) && NoDoubles(b) && a.JObject? && b.JObject? && i < |a.members|
  {
    var m := a.members[i];
    var found := Found(b.members, m.name);
    && m.name in MembersFrom(a, 0)
    && (m in a.members && (found.Some? ==> NoDoubles(found.value)))
    && (found.Some? && Equal(m.value, found.value) <==>
        m.name in MembersFrom(b, 0) && MembersFrom(b, 0)[m.name] == MembersFrom(a, 0)[m.name])
  }

  lemma {:induction false} MemberMeaning(a: Json, b: Json, i: nat)
    requires NoDoubles(a) && NoDoubles(b) && NoDuplicates(a) && NoDuplicates(b)
    requires a.JObject? && b.JObject? && i < |a.members|
    ensures MemberAgrees(a, b, i)
    decreases a, 0
  {
    var m := a.members[i];
    assert a.members[0..] == a.members && b.members[0..] == b.members;
    LookedUp(a, 0, m.name);
    LookedUp(b, 0, m.name);
    FoundOwn(a, i);
    if Found(b.members, m.name).Some? {
      FoundIsMember(b.members, m.name);
      EqualIsSameMeaning(m.value, Found(b.members, m.name).value);
    }
  }

  // Equal objects have the same names, by counting, and so the same maps.
  lemma EqualThenSame(a: Json, b: Json)
    requires NoDoubles(a) && NoDoubles(b) && a.JObject? && b.JObject?
    requires DistinctNames(a.members) && DistinctNames(b.members)
    requires forall i | 0 <= i < |a.members| :: MemberAgrees(a, b, i)
    requires Equal(a, b)
    ensures MembersFrom(a, 0) == MembersFrom(b, 0)
  {
    var x, y := MembersFrom(a, 0), MembersFrom(b, 0);
    AsManyNames(a, 0);
    AsManyNames(b, 0);
    forall name | name in x ensures name in y && x[name] == y[name] {
      var i :| 0 <= i < |a.members| && a.members[i].name == name;
      assert MemberAgrees(a, b, i);
    }
    assert |x.Keys| == |x| && |y.Keys| == |y|;
    SameSizeSubset(x.Keys, y.Keys);
  }

  lemma SameThenEqual(a: Json, b: Json)
    requires NoDoubles(a) && NoDoubles(b) && a.JObject? && b.JObject?
    requires DistinctNames(a.members) && DistinctNames(b.members)
    requires forall i | 0 <= i < |a.members| :: MemberAgrees(a, b, i)
    requires MembersFrom(a, 0) == MembersFrom(b, 0)
    ensures Equal(a, b)
  {
    AsManyNames(a, 0);
    AsManyNames(b, 0);
    forall m | m in a.members
      ensures Found(b.members, m.name).Some? && NoDoubles(Found(b.members, m.name).value)
              && Equal(m.value, Found(b.members, m.name).value)
    {
      var i :| 0 <= i < |a.members| && a.members[i] == m;
      assert MemberAgrees(a, b, i);
    }
  }

  /** On such trees it is symmetric and transitive. */
  lemma SymmetricAndTransitive(a: Json, b: Json, c: Json)
    requires NoDoubles(a) && NoDoubles(b) && NoDoubles(c)
    requires NoDuplicates(a) && NoDuplicates(b) && NoDuplicates(c)
    ensures Equal(a, b) <==> Equal(b, a)
    ensures Equal(a, b) && Equal(b, c) ==> Equal(a, c)
  {
    EqualIsSameMeaning(a, b);
    EqualIsSameMeaning(b, a);
    EqualIsSameMeaning(b, c);
    EqualIsSameMeaning(a, c);
  }

  /** Words tell integers of 64 bits apart, unless one is negative and the other at least 2^63. */
  lemma WordsTellApart(n: int, m: int)
    requires INT64_MIN <= n <= UINT64_MAX && INT64_MIN <= m <= UINT64_MAX
    ensures Word(n) == Word(m) <==> n == m || n == m + WORDS || m == n + WORDS
  {
    if n < 0 { assert Word(n) == n + WORDS by { assert (n + WORDS) % WORDS == n % WORDS; } }
    if m < 0 { assert Word(m) == m + WORDS by { assert (m + WORDS) % WORDS == m % WORDS; } }
  }

  /** With a name twice it is neither symmetric nor, as the documentation has it, always false. */
  lemma DuplicatesBreakIt()
    ensures var twice := JObject([Member([0x61], JNull), Member([0x61], JNull)]);
            var other := JObject([Member([0x61], JNull), Member([0x62], JNull)]);
            && NoDoubles(twice) && NoDoubles(other)
            && Equal(twice, twice) && Equal(twice, other) && !Equal(other, twice)
  {
    var one, two := Member([0x61], JNull), Member([0x62], JNull);
    var twice, other := JObject([one, one]), JObject([one, two]);
    assert NoDoubles(JNull);
    assert forall m | m in [one, one] :: m == one;
    assert forall m | m in [one, two] :: m == one || m == two;
    assert [one, one][0] == one && [one, two][0] == one && [one, one][1..] == [one] && [one][1..] == [];
    assert one.name[0] != two.name[0];
    assert Found([one, one], one.name) == Some(JNull) && Found([one, two], one.name) == Some(JNull);
    assert Found([one], two.name) == None && Found([one, one], two.name) == None;
    assert two in [one, two] by { assert [one, two][1] == two; }
  }

  // ---------------------------------------------------------------------------
  // The operator itself.

  method AreEqual(a: Json, b: Json) returns (eq: bool)
    requires NoDoubles(a) && NoDoubles(b)
    ensures eq <==> Equal(a, b)
    decreases a
  {
    match a
    case JObject(members) =>
      if !b.JObject? || |members| != |b.members| { return false; }
      var i := 0;
      while i < |members|
        invariant i <= |members|
        invariant forall m | m in members[..i] ::
                    && Found(b.members, m.name).Some? && NoDoubles(m.value) && NoDoubles(Found(b.members, m.name).value)
                    && Equal(m.value, Found(b.members, m.name).value)
      {
        assert members[i] in members;
        var found := FindMember(b.members, members[i].name);
        if found.None? { return false; }
        FoundIsMember(b.members, members[i].name);
        var same := AreEqual(members[i].value, found.value);
        if !same { return false; }
        assert members[..i + 1] == members[..i] + [members[i]];
        i := i + 1;
      }
      assert members[..i] == members;
      eq := true;
    case JArray(elems) =>
      if !b.JArray? || |elems| != |b.elems| { return false; }
      for i := 0 to |elems|
        invariant forall k | 0 <= k < i :: NoDoubles(elems[k]) && NoDoubles(b.elems[k]) && Equal(elems[k], b.elems[k])
      {
        assert elems[i] in elems && b.elems[i] in b.elems;
        var same := AreEqual(elems[i], b.elems[i]);
        if !same { return false; }
      }
      eq := true;
    case JInt(n) => eq := b.JInt? && Word(n) == Word(b.n);
    case _ => eq := a == b;
  }

  method FindMember(members: seq<Member>, name: Bytes) returns (value: Option<Json>)
    ensures value == Found(members, name)
  {
    var i := 0;
    while i < |members|
      invariant i <= |members| && Found(members[i..], name) == Found(members, name)
    {
      assert members[i..][1..] == members[i + 1..];
      if members[i].name == name { return Some(members[i].value); }
      i := i + 1;
    }
    return None;
  }
}
