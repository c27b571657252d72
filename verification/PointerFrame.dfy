/** What Get finds, what Set makes of a value, and what it leaves alone. */
module PointerFrame {
  import opened BigIntBytes
  import opened JsonTree
  import opened JsonText
  import opened PointerTree
  import opened Options

  /** One token of Get: the first member of that name, the element of that index, or nothing. */
  lemma GetStep(v: Json, t: Token, x: Json)
    ensures Get(v, []) == Some(v)
    ensures Get(v, [t]) == Some(x) <==>
              match v
              case JObject(members) =>
                exists k | 0 <= k < |members| ::
                  members[k] == Member(t.name, x) && forall i | 0 <= i < k :: members[i].name != t.name
              case JArray(elems) => t.index != INVALID_INDEX && t.index < |elems| && elems[t.index] == x
              case _ => false
  {
    if Resolved(v, t).Some? {
      assert Get(v, [t]) == Some(Child(v, Resolved(v, t).value));
    }
    match v
    case JObject(members) =>
      var k := Place(members, t.name);
      if k < |members| { assert members[k] == Member(t.name, members[k].value); }
    case _ =>
  }

  predicate AllNull(elems: seq<Json>) {
    forall i | 0 <= i < |elems| :: elems[i] == JNull
  }

  /** w is v with one entry entered for the token, `below` being what that entry's value then becomes. An object
      keeps its members in order, and a new name comes behind them; an array keeps its elements, and nulls fill it
      up to an index; what cannot take the token becomes an object or an array with that entry alone. */
  predicate EnteredAt(v: Json, t: Token, below: Json -> Json, w: Json) {
    if v.JObject? then
      || (exists k | 0 <= k < |v.members| ::
            && v.members[k].name == t.name && (forall i | 0 <= i < k :: v.members[i].name != t.name)
            && w == JObject(v.members[k := Member(t.name, below(v.members[k].value))]))
      || ((forall m | m in v.members :: m.name != t.name) && w == JObject(v.members + [Member(t.name, below(JNull))]))
    else if v.JArray? && t.name == [MINUS] then w == JArray(v.elems + [below(JNull)])
    else if t.index == INVALID_INDEX then w == JObject([Member(t.name, below(JNull))])
    else
      var elems := if v.JArray? then v.elems else [];
      if t.index < |elems| then w == JArray(elems[t.index := below(elems[t.index])])
      else
        && w.JArray? && |w.elems| == t.index + 1 && w.elems[..|elems|] == elems
        && AllNull(w.elems[|elems|..t.index]) && w.elems[t.index] == below(JNull)
  }

  lemma EnterStep(v: Json, t: Token, below: Json -> Json)
    requires Parsed(t)
    ensures var e := Enter(v, t); EnteredAt(v, t, below, WithChild(e.v, e.k, below(Child(e.v, e.k))))
  {
    var e := Enter(v, t);
    var child := below(Child(e.v, e.k));
    if v.JObject? {
      if e.k == |v.members| {
        assert (v.members + [Member(t.name, JNull)])[e.k := Member(t.name, child)]
               == v.members + [Member(t.name, child)];
      }
    } else if v.JArray? && t.name == DASH {
      assert (v.elems + [JNull])[|v.elems| := child] == v.elems + [child];
    } else if t.index == INVALID_INDEX {
      assert e.v == JObject([Member(t.name, JNull)]) && e.k == 0;
    } else {
      var elems := if v.JArray? then v.elems else [];
      var w := WithChild(e.v, e.k, child);
      if t.index >= |elems| {
        assert w.elems[..|elems|] == elems;
      }
    }
  }

  /** Set enters the first token and goes on below its entry. */
  lemma SetStep(v: Json, t: Token, ts: seq<Token>, value: Json)
    requires Parsed(t)
    ensures EnteredAt(v, t, x => Set(x, ts, value).0, Set(v, [t] + ts, value).0)
  {
    assert ([t] + ts)[1..] == ts;
    EnterStep(v, t, x => Set(x, ts, value).0);
  }

  // The two pointers lead to different children of the same value, after the same children before.
  predicate Part(v: Json, ts: seq<Token>, qs: seq<Token>)
    decreases |ts|
  {
    ts != [] && qs != [] &&
    (Resolved(v, ts[0]) == Resolved(v, qs[0]) ==>
       Resolved(v, ts[0]).Some? && Part(Child(v, Resolved(v, ts[0]).value), ts[1..], qs[1..]))
  }

  // Up to where they part, `ts` makes no object of an array: it has an index or a "-" for every array.
  predicate KeepsKinds(v: Json, ts: seq<Token>, qs: seq<Token>)
    decreases |ts|
  {
    ts == [] || qs == [] ||
    (&& (v.JArray? ==> ts[0].index != INVALID_INDEX || ts[0].name == DASH)
     && (Resolved(v, ts[0]) == Resolved(v, qs[0]) && Resolved(v, ts[0]).Some? ==>
           KeepsKinds(Child(v, Resolved(v, ts[0]).value), ts[1..], qs[1..])))
  }

  lemma OtherChildKept(v: Json, t: Token, q: Token, x: Json)
    requires Parsed(t) && (v.JArray? ==> t.index != INVALID_INDEX || t.name == DASH)
    requires Resolved(v, q).Some?
    ensures var e := Enter(v, t);
            var w, k := WithChild(e.v, e.k, x), Resolved(v, q).value;
            && Resolved(w, q) == Some(k)
            && Child(w, k) == (if Resolved(v, t) == Some(k) then x else Child(v, k))
            && (e.k == k <==> Resolved(v, t) == Some(k))
  {
    var e := Enter(v, t);
    var w, k := WithChild(e.v, e.k, x), Resolved(v, q).value;
    EnterAndResolve(v, t);
    if v.JObject? {
      assert forall i | 0 <= i < |v.members| :: w.members[i].name == v.members[i].name;
      PlaceOf(w.members, q.name, k);
    }
  }

  lemma TurnedAway(v: Json, t: Token, q: Token, x: Json)
    requires Parsed(t) && Parsed(q) && v.JArray? && t.index == INVALID_INDEX && t.name != DASH
    requires Resolved(v, q).Some?
    ensures var e := Enter(v, t); Resolved(WithChild(e.v, e.k, x), q) == None
  {
    assert t.name != q.name;
  }

  /** What Set leaves alone: a value that another pointer leads to is found there again after Set, exactly if no
      array on the common way had to become an object; then it is gone. */
  lemma {:induction false} OthersKept(v: Json, ts: seq<Token>, qs: seq<Token>, value: Json)
    requires AllParsed(ts) && AllParsed(qs) && Get(v, qs).Some? && Part(v, ts, qs)
    ensures Get(Set(v, ts, value).0, qs) == if KeepsKinds(v, ts, qs) then Get(v, qs) else None
    decreases |ts|
  {
    var t, q, e := ts[0], qs[0], Enter(v, ts[0]);
    var child := Set(Child(e.v, e.k), ts[1..], value).0;
    assert t in ts && q in qs;
    if v.JArray? && t.index == INVALID_INDEX && t.name != DASH {
      TurnedAway(v, t, q, child);
    } else {
      OtherChildKept(v, t, q, child);
      if Resolved(v, t) == Resolved(v, q) {
        EnterAndResolve(v, t);
        OthersKept(Child(v, e.k), ts[1..], qs[1..], value);
      }
    }
  }

  // A name that is not taken for the index of another decimal.
  predicate Unwrapped(t: Token) {
    t.index != INVALID_INDEX ==> Canonical(t.name) && Decimal(t.name) == t.index
  }

  lemma {:induction false} CanonicalIsUnique(a: Bytes, b: Bytes)
    requires Canonical(a) && Canonical(b) && Decimal(a) == Decimal(b)
    ensures a == b
    decreases |a|
  {
    var i, j := |a| - 1, |b| - 1;
    assert a == a[..i] + [a[i]] && b == b[..j] + [b[j]];
    assert DigitValue(a[i]) == DigitValue(b[j]) && Decimal(a[..i]) == Decimal(b[..j]);
    LongIsPositive(a);
    LongIsPositive(b);
    if i > 0 {
      CanonicalIsUnique(a[..i], b[..j]);
    }
  }

  lemma {:induction false} LongIsPositive(a: Bytes)
    requires Canonical(a)
    ensures |a| > 1 <==> Decimal(a[..|a| - 1]) > 0
  {
    var front := a[..|a| - 1];
    if |front| > 1 {
      LongIsPositive(front);
    } else if |front| == 1 {
      assert front[..0] == [];
    }
  }

  lemma SameChildSameToken(v: Json, t: Token, q: Token)
    requires Parsed(t) && Parsed(q) && Unwrapped(t) && Unwrapped(q)
    requires Resolved(v, t).Some? && Resolved(v, t) == Resolved(v, q)
    ensures t == q
  {
    if v.JArray? {
      CanonicalIsUnique(t.name, q.name);
    }
  }

  /** Pointers part where one leads to a value, unless one is a prefix of the other, or an index was wrapped. */
  lemma {:induction false} NoPrefixParts(v: Json, ts: seq<Token>, qs: seq<Token>)
    requires AllParsed(ts) && AllParsed(qs) && (forall t | t in ts + qs :: Unwrapped(t))
    requires Get(v, qs).Some? && !(ts <= qs) && !(qs <= ts)
    ensures Part(v, ts, qs)
    decreases |ts|
  {
    var t, q := ts[0], qs[0];
    assert t in ts + qs && q in ts + qs && t in ts && q in qs;
    if Resolved(v, t) == Resolved(v, q) {
      SameChildSameToken(v, t, q);
      assert ts == [t] + ts[1..] && qs == [t] + qs[1..];
      forall u | u in ts[1..] + qs[1..] ensures Unwrapped(u) { assert u in ts + qs; }
      NoPrefixParts(Child(v, Resolved(v, t).value), ts[1..], qs[1..]);
    }
  }
}
