/** What is left of operator== on trees in which a name may occur twice. */
module DomDuplicates {
  import opened BigIntBytes
  import opened JsonTree
  import opened DomEquality
  import opened Options

  // What the name of the i-th member is looked up to on its own side.
  function First(members: seq<Member>, i: nat): (value: Json)
    requires i < |members|
    ensures Found(members, members[i].name) == Some(value)
    ensures exists m | m in members :: m.name == members[i].name && m.value == value
  {
    FoundSome(members, i);
    FoundIsMember(members, members[i].name);
    Found(members, members[i].name).value
  }

  lemma {:induction false} FoundSome(members: seq<Member>, i: nat)
    requires i < |members|
    ensures Found(members, members[i].name).Some?
  {
    if i > 0 { FoundSome(members[1..], i - 1); }
  }

  predicate Repeats(members: seq<Member>, i: nat)
    requires i < |members|
  {
    exists j | 0 <= j < i :: members[j].name == members[i].name
  }

  // Every member that repeats a name is equal to the first one of that name, all the way down.
  predicate RepeatedAgree(t: Json)
    requires NoDoubles(t)
    decreases t
  {
    match t
    case JArray(elems) => forall x | x in elems :: RepeatedAgree(x)
    case JObject(members) =>
      forall i | 0 <= i < |members| ::
        && NoDoubles(members[i].value) && NoDoubles(First(members, i))
        && if Repeats(members, i) then Equal(members[i].value, First(members, i)) else RepeatedAgree(members[i].value)
    case _ => true
  }

  // Every name of b is one of a, in each pair of objects that are compared.
  predicate SameNames(a: Json, b: Json)
    decreases a
  {
    if a.JArray? && b.JArray? then
      |a.elems| == |b.elems| && forall i | 0 <= i < |a.elems| :: SameNames(a.elems[i], b.elems[i])
    else if a.JObject? && b.JObject? then
      forall m | m in b.members ::
        && Found(a.members, m.name).Some? && Found(b.members, m.name).Some?
        && (FoundIsMember(a.members, m.name);
            SameNames(Found(a.members, m.name).value, Found(b.members, m.name).value))
    else true
  }

  // ---------------------------------------------------------------------------

  lemma NoDoublesInside(t: Json, name: Bytes)
    requires NoDoubles(t) && t.JObject? && Found(t.members, name).Some?
    ensures NoDoubles(Found(t.members, name).value)
    ensures exists m | m in t.members :: m.name == name && m.value == Found(t.members, name).value
  {
    FoundIsMember(t.members, name);
  }

  // Equal objects, member by member.
  lemma MemberEqual(a: Json, b: Json, m: Member)
    requires NoDoubles(a) && NoDoubles(b) && Equal(a, b) && a.JObject? && m in a.members
    ensures b.JObject? && Found(b.members, m.name).Some?
    ensures NoDoubles(Found(b.members, m.name).value) && Equal(m.value, Found(b.members, m.name).value)
  {
    NoDoublesInside(b, m.name);
  }

  /** Equality is transitive whatever names there are. */
  lemma {:induction false} Transitive(a: Json, b: Json, c: Json)
    requires NoDoubles(a) && NoDoubles(b) && NoDoubles(c) && Equal(a, b) && Equal(b, c)
    ensures Equal(a, c)
    decreases a
  {
    match a
    case JArray(elems) =>
      forall i | 0 <= i < |elems| ensures Equal(elems[i], c.elems[i]) {
        Transitive(elems[i], b.elems[i], c.elems[i]);
      }
    case JObject(members) =>
      forall m | m in members
        ensures Found(c.members, m.name).Some? && NoDoubles(Found(c.members, m.name).value)
        ensures Equal(m.value, Found(c.members, m.name).value)
      {
        MemberEqual(a, b, m);
        NoDoublesInside(b, m.name);
        var n :| n in b.members && n.name == m.name && n.value == Found(b.members, m.name).value;
        MemberEqual(b, c, n);
        Transitive(m.value, n.value, Found(c.members, m.name).value);
      }
    case _ =>
  }

  /** A tree is equal to itself exactly if its repeated members agree with the first of their name. */
  lemma {:induction false} SelfEqual(t: Json)
    requires NoDoubles(t)
    ensures Equal(t, t) <==> RepeatedAgree(t)
    decreases t
  {
    match t
    case JArray(elems) =>
      forall x | x in elems ensures Equal(x, x) <==> RepeatedAgree(x) { SelfEqual(x); }
      assert forall i | 0 <= i < |elems| :: elems[i] in elems;
    case JObject(members) =>
      forall i | 0 <= i < |members| ensures MemberSelfEqual(t, i) {
        SelfMember(t, i);
      }
      if RepeatedAgree(t) { AgreeThenEqual(t); }
      if Equal(t, t) { EqualThenAgree(t); }
    case _ =>
  }

  // The i-th member with what its name is looked up to.
  ghost predicate MemberSelfEqual(t: Json, i: nat)
    requires NoDoubles(t) && t.JObject? && i < |t.members|
  {
    var m := t.members[i];
    && m in t.members && NoDoubles(First(t.members, i))
    && (!Repeats(t.members, i) ==> (Equal(m.value, First(t.members, i)) <==> RepeatedAgree(m.value)))
  }

  lemma {:induction false} SelfMember(t: Json, i: nat)
    requires NoDoubles(t) && t.JObject? && i < |t.members|
    ensures MemberSelfEqual(t, i)
    decreases t, 0
  {
    assert t.members[i] in t.members;
    FoundSome(t.members, i);
    NoDoublesInside(t, t.members[i].name);
    if !Repeats(t.members, i) {
      FoundFirst(t.members, i);
      SelfEqual(t.members[i].value);
    }
  }

  lemma AgreeThenEqual(t: Json)
    requires NoDoubles(t) && t.JObject? && RepeatedAgree(t)
    requires forall i | 0 <= i < |t.members| :: MemberSelfEqual(t, i)
    ensures Equal(t, t)
  {
    forall m | m in t.members
      ensures Found(t.members, m.name).Some? && NoDoubles(Found(t.members, m.name).value)
      ensures Equal(m.value, Found(t.members, m.name).value)
    {
      var i :| 0 <= i < |t.members| && t.members[i] == m;
      assert MemberSelfEqual(t, i) && Found(t.members, m.name) == Some(First(t.members, i));
    }
  }

  lemma EqualThenAgree(t: Json)
    requires NoDoubles(t) && t.JObject? && Equal(t, t)
    requires forall i | 0 <= i < |t.members| :: MemberSelfEqual(t, i)
    ensures RepeatedAgree(t)
  {
    forall i | 0 <= i < |t.members|
      ensures NoDoubles(t.members[i].value) && NoDoubles(First(t.members, i))
      ensures if Repeats(t.members, i) then Equal(t.members[i].value, First(t.members, i))
              else RepeatedAgree(t.members[i].value)
    {
      assert MemberSelfEqual(t, i);
      MemberEqual(t, t, t.members[i]);
    }
  }

  /** Of two trees with a == b, b == a holds too exactly if b has no name that a has not and b is equal
      to itself. */
  lemma {:induction false} SymmetricExactly(a: Json, b: Json)
    requires NoDoubles(a) && NoDoubles(b) && Equal(a, b)
    ensures Equal(b, a) <==> SameNames(a, b) && RepeatedAgree(b)
    decreases a
  {
    if Equal(b, a) {
      Transitive(b, a, b);
    }
    SelfEqual(b);
    match a
    case JArray(elems) =>
      forall i | 0 <= i < |elems|
        ensures Equal(b.elems[i], elems[i]) <==> SameNames(elems[i], b.elems[i]) && RepeatedAgree(b.elems[i])
      {
        SymmetricExactly(elems[i], b.elems[i]);
      }
    case JObject(_) =>
      if Equal(b, a) {
        forall m | m in b.members
          ensures Found(a.members, m.name).Some? && Found(b.members, m.name).Some?
          ensures SameNames(Found(a.members, m.name).value, Found(b.members, m.name).value)
        {
          FirstsBack(a, b, m);
        }
      }
      if SameNames(a, b) && RepeatedAgree(b) {
        forall m | m in b.members
          ensures Found(a.members, m.name).Some? && NoDoubles(Found(a.members, m.name).value)
          ensures Equal(m.value, Found(a.members, m.name).value)
        {
          FirstsThere(a, b, m);
        }
      }
    case _ =>
  }

  // The first members of a name, with equality known both ways.
  lemma {:induction false} FirstsBack(a: Json, b: Json, m: Member)
    requires NoDoubles(a) && NoDoubles(b) && a.JObject? && Equal(a, b) && Equal(b, a) && m in b.members
    ensures Found(a.members, m.name).Some? && Found(b.members, m.name).Some?
    ensures SameNames(Found(a.members, m.name).value, Found(b.members, m.name).value)
    decreases a, 0
  {
    MemberEqual(b, a, m);
    NoDoublesInside(a, m.name);
    var n :| n in a.members && n.name == m.name && n.value == Found(a.members, m.name).value;
    MemberEqual(a, b, n);
    NoDoublesInside(b, m.name);
    var o :| o in b.members && o.name == m.name && o.value == Found(b.members, m.name).value;
    MemberEqual(b, a, o);
    SymmetricExactly(n.value, o.value);
  }

  // The same, with equality known one way only.
  lemma {:induction false} FirstsThere(a: Json, b: Json, m: Member)
    requires NoDoubles(a) && NoDoubles(b) && a.JObject? && b.JObject? && Equal(a, b) && m in b.members
    requires SameNames(a, b) && RepeatedAgree(b)
    ensures Found(a.members, m.name).Some? && NoDoubles(Found(a.members, m.name).value)
    ensures Equal(m.value, Found(a.members, m.name).value)
    decreases a, 0
  {
    SelfEqual(b);
    NoDoublesInside(a, m.name);
    var n :| n in a.members && n.name == m.name && n.value == Found(a.members, m.name).value;
    MemberEqual(a, b, n);
    NoDoublesInside(b, m.name);
    var o :| o in b.members && o.name == m.name && o.value == Found(b.members, m.name).value;
    MemberEqual(b, b, m);
    MemberEqual(b, b, o);
    SelfEqual(o.value);
    SymmetricExactly(n.value, o.value);
    Transitive(m.value, o.value, n.value);
  }

  // ---------------------------------------------------------------------------

  // As many copies of the first member as there are members.
  function Copies(t: Json): (u: Json)
    ensures t.JObject? ==> u.JObject?
    decreases t
  {
    match t
    case JArray(elems) => JArray(seq(|elems|, i requires 0 <= i < |elems| => Copies(elems[i])))
    case JObject(members) =>
      if members == [] then t
      else JObject(seq(|members|, i => Member(members[0].name, Copies(members[0].value))))
    case _ => t
  }

  /** No object is unequal to every object, whatever names it repeats. */
  lemma {:induction false} SomethingIsEqual(t: Json)
    requires NoDoubles(t)
    ensures NoDoubles(Copies(t)) && Equal(Copies(t), t)
    decreases t
  {
    match t
    case JArray(elems) =>
      forall i | 0 <= i < |elems| ensures NoDoubles(Copies(elems[i])) && Equal(Copies(elems[i]), elems[i]) {
        SomethingIsEqual(elems[i]);
      }
    case JObject(members) =>
      if members != [] {
        assert members[0] in members;
        SomethingIsEqual(members[0].value);
        assert Found(members, members[0].name) == Some(members[0].value);
      }
    case _ =>
  }
}
