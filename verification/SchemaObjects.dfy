/** The object form of the validator: its loops and its event handlers, tied to the functions on values. */
module SchemaObjects {
  import opened BigIntBytes
  import opened JsonTree
  import opened Schema
  import opened SchemaProofs
  import SV = SchemaValidator
  import opened Options

  // ---------------------------------------------------------------------------
  // The loops of class Schema.

  method FindPropertyIndex(ps: seq<Property>, name: Bytes) returns (found: bool, index: nat)
    ensures FindProperty(ps, name) == if found then Some(index) else None
  {
    index := 0;
    while index < |ps|
      invariant index <= |ps|
      invariant forall k | 0 <= k < index :: ps[k].name != name
    {
      if ps[index].name == name {
        FirstIsFound(ps, name, index);
        return true, index;
      }
      index := index + 1;
    }
    found := false;
  }

  lemma {:induction false} FirstIsFound(ps: seq<Property>, name: Bytes, index: nat)
    requires index < |ps| && ps[index].name == name
    requires forall k | 0 <= k < index :: ps[k].name != name
    ensures FindProperty(ps, name) == Some(index)
  {
    if index > 0 {
      FirstIsFound(ps[1..], name, index - 1);
    }
  }

  // The loop over allOf.
  method EveryValid(us: seq<SV.Validator>, begin: nat, count: nat) returns (all: bool)
    requires begin + count <= |us|
    ensures all <==> forall i | begin <= i < begin + count :: us[i].valid
    ensures all <==> AllTrue(SV.Flags(us)[begin..begin + count])
  {
    ghost var flags := SV.Flags(us)[begin..begin + count];
    var i := begin;
    while i < begin + count
      invariant begin <= i <= begin + count
      invariant AllTrue(flags[..i - begin])
      invariant forall k | begin <= k < i :: us[k].valid
    {
      if !us[i].valid {
        assert !flags[i - begin];
        return false;
      }
      i := i + 1;
    }
    assert flags[..i - begin] == flags;
    return true;
  }

  // The loop over anyOf.
  method AnyValid(us: seq<SV.Validator>, begin: nat, count: nat) returns (some: bool)
    requires begin + count <= |us|
    ensures some <==> exists i | begin <= i < begin + count :: us[i].valid
    ensures some <==> SomeTrue(SV.Flags(us)[begin..begin + count])
  {
    ghost var flags := SV.Flags(us)[begin..begin + count];
    var i := begin;
    while i < begin + count
      invariant begin <= i <= begin + count
      invariant forall k | 0 <= k < i - begin :: !flags[k]
      invariant forall k | begin <= k < i :: !us[k].valid
    {
      if us[i].valid {
        assert flags[i - begin];
        return true;
      }
      i := i + 1;
    }
    return false;
  }

  // How many of these validators are valid.
  function ValidCount(us: seq<SV.Validator>): nat {
    if us == [] then 0 else (if us[0].valid then 1 else 0) + ValidCount(us[1..])
  }

  lemma {:induction false} ValidCountAppend(us: seq<SV.Validator>, u: SV.Validator)
    ensures ValidCount(us + [u]) == ValidCount(us) + (if u.valid then 1 else 0)
  {
    if us == [] {
      assert [u][1..] == [];
    } else {
      assert (us + [u])[1..] == us[1..] + [u];
      ValidCountAppend(us[1..], u);
    }
  }

  lemma {:induction false} ValidCountOfMore(us: seq<SV.Validator>, n: nat)
    requires n <= |us|
    ensures ValidCount(us[..n]) <= ValidCount(us)
  {
    if n < |us| {
      var rest := us[..|us| - 1];
      assert us == rest + [us[|us| - 1]] && us[..n] == rest[..n];
      ValidCountAppend(rest, us[|us| - 1]);
      ValidCountOfMore(rest, n);
    } else {
      assert us[..n] == us;
    }
  }

  lemma {:induction false} NoneCounted(us: seq<SV.Validator>)
    ensures ValidCount(us) == 0 <==> forall k | 0 <= k < |us| :: !us[k].valid
  {
    if us != [] {
      NoneCounted(us[1..]);
      assert forall k | 0 < k < |us| :: us[k] == us[1..][k - 1];
    }
  }

  lemma {:induction false} OneCounted(us: seq<SV.Validator>)
    ensures ValidCount(us) == 1 <==>
              exists k | 0 <= k < |us| :: us[k].valid && forall j | 0 <= j < |us| && j != k :: !us[j].valid
  {
    if us != [] {
      var rest := us[1..];
      NoneCounted(rest);
      OneCounted(rest);
      assert forall k | 0 < k < |us| :: us[k] == rest[k - 1];
      if us[0].valid {
        assert ValidCount(rest) == 0 ==> forall j | 0 <= j < |us| && j != 0 :: !us[j].valid;
      } else if ValidCount(rest) == 1 {
        var k :| 0 <= k < |rest| && rest[k].valid && forall j | 0 <= j < |rest| && j != k :: !rest[j].valid;
        assert us[k + 1].valid && forall j | 0 <= j < |us| && j != k + 1 :: !us[j].valid;
      }
    }
  }

  lemma OneOfFlags(us: seq<SV.Validator>, begin: nat, count: nat)
    requires begin + count <= |us|
    ensures ValidCount(us[begin..begin + count]) == 1 <==> OneTrue(SV.Flags(us)[begin..begin + count])
  {
    var range, flags := us[begin..begin + count], SV.Flags(us)[begin..begin + count];
    OneCounted(range);
    assert forall k | 0 <= k < count :: flags[k] == range[k].valid;
    if OneTrue(flags) {
      var k :| 0 <= k < count && flags[k] && forall j | 0 <= j < count && j != k :: !flags[j];
      assert range[k].valid && forall j | 0 <= j < count && j != k :: !range[j].valid;
    }
    if ValidCount(range) == 1 {
      var k :| 0 <= k < count && range[k].valid && forall j | 0 <= j < count && j != k :: !range[j].valid;
      assert flags[k] && forall j | 0 <= j < count && j != k :: !flags[j];
    }
  }

  // The loop over oneOf, which stops at the second match.
  method ExactlyOneValid(us: seq<SV.Validator>, begin: nat, count: nat) returns (one: bool)
    requires begin + count <= |us|
    ensures one <==> ValidCount(us[begin..begin + count]) == 1
    ensures one <==> OneTrue(SV.Flags(us)[begin..begin + count])
  {
    ghost var range := us[begin..begin + count];
    OneOfFlags(us, begin, count);
    var oneValid := false;
    var i := begin;
    while i < begin + count
      invariant begin <= i <= begin + count
      invariant ValidCount(range[..i - begin]) == if oneValid then 1 else 0
    {
      assert range[..i + 1 - begin] == range[..i - begin] + [us[i]];
      ValidCountAppend(range[..i - begin], us[i]);
      if us[i].valid {
        if oneValid {
          ValidCountOfMore(range, i + 1 - begin);
          return false;
        }
        oneValid := true;
      }
      i := i + 1;
    }
    assert range[..i - begin] == range;
    return oneValid;
  }

  // Schema::EndValue.
  method ValueEnds(c: SV.Context) returns (ok: bool)
    requires |c.validators| == |SV.Subschemas(c.schema)|
    ensures ok <==> SV.EndValueHolds(c)
  {
    var s := c.schema;
    var any := |s.allOf|;
    var one := any + |s.anyOf|;
    var neg := one + |s.oneOf|;
    ok := EveryValid(c.validators, 0, any);
    assert SV.Flags(c.validators)[..any] == SV.Flags(c.validators)[0..0 + any];
    if !ok { return; }
    if s.anyOf != [] {
      ok := AnyValid(c.validators, any, |s.anyOf|);
      if !ok { return; }
    }
    if s.oneOf != [] {
      ok := ExactlyOneValid(c.validators, one, |s.oneOf|);
      if !ok { return; }
    }
    if s.not.Some? && c.validators[neg].valid {
      ok := false;
    }
  }

  // Schema::EndObject.
  method ObjectEnds(c: SV.Context, memberCount: nat) returns (ok: bool)
    ensures ok <==> SV.EndObjectHolds(c, memberCount)
  {
    var ps := c.schema.properties;
    if SV.HasRequired(c.schema) {
      var missing := false;
      var index := 0;
      while index < |ps|
        invariant index <= |ps|
        invariant missing <==>
                  exists k | 0 <= k < index ::
                    ps[k].required && !(k < |c.propertyExist| && c.propertyExist[k]) && !ps[k].schema.hasDefault
      {
        if ps[index].required && !(index < |c.propertyExist| && c.propertyExist[index]) {
          if !ps[index].schema.hasDefault {
            missing := true;
          }
        }
        index := index + 1;
      }
      if missing { return false; }
    }
    if memberCount < c.schema.minProperties { return false; }
    if memberCount > c.schema.maxProperties { return false; }
    return true;
  }

  // ---------------------------------------------------------------------------
  // The validator.

  ghost predicate AllStarted(cs: seq<SV.Context>) {
    forall c | c in cs :: |c.validators| == |SV.Subschemas(c.schema)|
  }

  // One event, when it is accepted before the parallel validators see it.
  lemma FeedInParts(v: SV.Validator, e: Event, cs: seq<SV.Context>)
    requires SV.Nested(v) && v.valid && SV.Before(v, e) == Some(cs)
    ensures cs != [] && SV.Fits(cs, Size(v.root))
    ensures SV.Feed(v, e) == SV.After(v, SV.FeedContexts(cs, e, Size(v.root)), e) && SV.Nested(SV.Feed(v, e))
  {
    SV.BeforeFits(v, e);
    FeedKeepsNested(v, e);
  }

  lemma BeginInParts(v: SV.Validator, e: Event)
    requires BeginsValue(e)
    ensures SV.BeginValue(v).Some? ==> SV.BeginValue(v).value != []
    ensures SV.Before(v, e) ==
            if SV.BeginValue(v).None? || SV.Start(SV.Top(SV.BeginValue(v).value), e).None? then None
            else Some(SV.WithTop(SV.BeginValue(v).value, SV.Start(SV.Top(SV.BeginValue(v).value), e).value))
  {
  }

  lemma BeginStarted(v: SV.Validator, e: Event)
    requires BeginsValue(e) && AllStarted(v.schemaStack) && SV.Before(v, e).Some?
    ensures AllStarted(SV.Before(v, e).value)
  {
    BeginInParts(v, e);
    var cs := SV.BeginValue(v).value;
    var front := cs[..|cs| - 1];
    if v.schemaStack != [] {
      assert SV.Top(v.schemaStack) in v.schemaStack;
      assert front == SV.WithTop(v.schemaStack, SV.BeginInside(SV.Top(v.schemaStack)).value);
    }
    assert AllStarted(front);
    assert |SV.Start(SV.Top(cs), e).value.validators| == |SV.Subschemas(SV.Top(cs).schema)|;
  }

  lemma ScalarEnds(v: SV.Validator, cs: seq<SV.Context>, e: Event)
    requires cs != [] && BeginsValue(e) && !e.StartObject? && !e.StartArray?
    ensures SV.After(v, cs, e) == SV.EndValue(v, cs)
  {
  }

  lemma FedStarted(cs: seq<SV.Context>, e: Event, n: nat)
    requires SV.Fits(cs, n) && AllStarted(cs)
    ensures AllStarted(SV.FeedContexts(cs, e, n))
  {
    var fed := SV.FeedContexts(cs, e, n);
    forall c | c in fed ensures |c.validators| == |SV.Subschemas(c.schema)| {
      var i :| 0 <= i < |fed| && fed[i] == c;
      assert cs[i] in cs;
    }
  }

  // Every parallel validator of one context handles the event.
  method HandleEach(validators: seq<SV.Validator>, e: Event) returns (fed: seq<SV.Validator>)
    requires AllNested(validators)
    ensures fed == SV.FeedEach(validators, e)
  {
    fed := validators;
    var i := 0;
    while i < |validators|
      invariant i <= |validators| == |fed|
      invariant forall k | 0 <= k < i :: fed[k] == SV.FeedEach(validators, e)[k]
    {
      fed := fed[i := SV.Feed(validators[i], e)];
      i := i + 1;
    }
  }

  class GenericSchemaValidator {
    const root: Schema
    var schemaStack: seq<SV.Context>
    var valid: bool

    ghost function View(): SV.Validator
      reads this
    {
      SV.Validator(root, schemaStack, valid)
    }

    // The view is v, except that the stack of an invalid validator does not matter.
    ghost predicate Shows(v: SV.Validator)
      reads this
    {
      valid == v.valid && (valid ==> View() == v)
    }

    constructor (root: Schema)
      ensures View() == SV.NewValidator(root)
    {
      this.root, schemaStack, valid := root, [], true;
    }

    // Every validator of every open context handles the event.
    method HandleParallel(e: Event)
      requires SV.Fits(schemaStack, Size(root))
      modifies `schemaStack
      ensures schemaStack == SV.FeedContexts(old(schemaStack), e, Size(root))
    {
      ghost var before := schemaStack;
      var i := 0;
      while i < |schemaStack|
        invariant i <= |schemaStack| == |before|
        invariant forall k | 0 <= k < i :: schemaStack[k] == SV.FeedContexts(before, e, Size(root))[k]
        invariant forall k | i <= k < |before| :: schemaStack[k] == before[k]
      {
        assert before[i] in before;
        var fed := HandleEach(schemaStack[i].validators, e);
        schemaStack := schemaStack[i := schemaStack[i].(validators := fed)];
        i := i + 1;
      }
    }

    // The contexts up to the start of a value.
    method BeginValue() returns (ok: bool)
      modifies `schemaStack
      ensures ok <==> SV.BeginValue(old(View())).Some?
      ensures ok ==> schemaStack == SV.BeginValue(old(View())).value
    {
      if schemaStack == [] {
        schemaStack := [SV.NewContext(root)];
        return true;
      }
      var c := SV.Top(schemaStack);
      if c.inArray {
        var inside := ItemSchema(c.schema, c.arrayElementIndex);
        if inside.None? { return false; }
        c := c.(valueSchema := inside, arrayElementIndex := c.arrayElementIndex + 1);
      }
      if c.valueSchema.None? { return false; }
      schemaStack := SV.WithTop(schemaStack, c) + [SV.NewContext(c.valueSchema.value)];
      return true;
    }

    // Every open context has been started; the stack of an invalid validator does not matter.
    ghost predicate Consistent()
      reads this
    {
      valid ==> SV.Nested(View()) && AllStarted(schemaStack)
    }

    // The end of a value: its context is judged and left.
    method EndTop() returns (ok: bool)
      requires schemaStack != [] && AllStarted(schemaStack)
      modifies `schemaStack
      ensures ok <==> SV.EndValueHolds(SV.Top(old(schemaStack)))
      ensures schemaStack == if ok then old(schemaStack)[..|old(schemaStack)| - 1] else old(schemaStack)
      ensures AllStarted(schemaStack)
    {
      assert SV.Top(schemaStack) in schemaStack;
      ok := ValueEnds(SV.Top(schemaStack));
      if ok {
        schemaStack := schemaStack[..|schemaStack| - 1];
      }
    }

    // The part common to the start of every value: one more context, and its schema's first test.
    method HandleBegin(e: Event)
      requires SV.Nested(View()) && valid && AllStarted(schemaStack) && BeginsValue(e)
      modifies `schemaStack, `valid
      ensures valid <==> SV.Before(old(View()), e).Some?
      ensures valid ==> schemaStack == SV.Before(old(View()), e).value && AllStarted(schemaStack)
    {
      ghost var v := View();
      BeginInParts(v, e);
      valid := BeginValue();
      if !valid { return; }
      var c := SV.Start(SV.Top(schemaStack), e);
      valid := c.Some?;
      if !valid { return; }
      BeginStarted(v, e);
      schemaStack := SV.WithTop(schemaStack, c.value);
    }

    // The same, and then the parallel validators see the event.
    method HandleBeginParallel(e: Event)
      requires SV.Nested(View()) && valid && AllStarted(schemaStack) && BeginsValue(e)
      modifies `schemaStack, `valid
      ensures valid <==> SV.Before(old(View()), e).Some?
      ensures valid ==>
                && schemaStack != [] && AllStarted(schemaStack)
                && SV.Feed(old(View()), e) == SV.After(old(View()), schemaStack, e)
      ensures SV.Nested(SV.Feed(old(View()), e)) && SV.Feed(old(View()), e).root == root
    {
      ghost var v := View();
      FeedKeepsNested(v, e);
      HandleBegin(e);
      if valid {
        FeedInParts(v, e, schemaStack);
        FedStarted(schemaStack, e, Size(root));
        HandleParallel(e);
      }
    }

    // A scalar: it begins, the parallel validators see it, and it ends.
    method HandleValue(e: Event) returns (ok: bool)
      requires Consistent() && BeginsValue(e) && !e.StartObject? && !e.StartArray?
      modifies `schemaStack, `valid
      ensures ok == valid && Consistent()
      ensures old(valid) ==> Shows(SV.Feed(old(View()), e))
      ensures !old(valid) ==> !valid
    {
      ghost var v := View();
      if !valid { return false; }
      HandleBeginParallel(e);
      if !valid { return false; }
      ScalarEnds(v, schemaStack, e);
      valid := EndTop();
      return valid;
    }

    method HandleStart(e: Event) returns (ok: bool)
      requires Consistent() && (e.StartObject? || e.StartArray?)
      modifies `schemaStack, `valid
      ensures ok == valid && Consistent()
      ensures old(valid) ==> Shows(SV.Feed(old(View()), e))
      ensures !old(valid) ==> !valid
    {
      if !valid { return false; }
      HandleBeginParallel(e);
      return valid;
    }

    // The key of a member; it comes inside an object, so a context is open.
    method Key(name: Bytes) returns (ok: bool)
      requires Consistent() && (valid ==> schemaStack != [])
      modifies `schemaStack, `valid
      ensures ok == valid && Consistent()
      ensures old(valid) ==> Shows(SV.Feed(old(View()), Event.Key(name)))
      ensures !old(valid) ==> !valid
    {
      ghost var v := View();
      var e := Event.Key(name);
      if !valid { return false; }
      var c := SV.Top(schemaStack);
      assert c in schemaStack;
      var found, index := FindPropertyIndex(c.schema.properties, name);
      if found {
        c := c.(valueSchema := Some(c.schema.properties[index].schema));
        if index < |c.propertyExist| {
          c := c.(propertyExist := c.propertyExist[index := true]);
        }
      } else if c.schema.additionalProperties.Matching? {
        c := c.(valueSchema := Some(c.schema.additionalProperties.schema));
      } else if c.schema.additionalProperties.Allowed? {
        c := c.(valueSchema := Some(TYPELESS));
      } else {
        valid := false;
        return false;
      }
      schemaStack := SV.WithTop(schemaStack, c);
      FeedInParts(v, e, schemaStack);
      FedStarted(schemaStack, e, Size(root));
      HandleParallel(e);
      return true;
    }

    // The end of an object or array: first the parallel validators see it, then it is tested.
    method HandleEnd(e: Event) returns (ok: bool)
      requires Consistent() && (e.EndObject? || e.EndArray?) && (valid ==> schemaStack != [])
      modifies `schemaStack, `valid
      ensures ok == valid && Consistent()
      ensures old(valid) ==> Shows(SV.Feed(old(View()), e))
      ensures !old(valid) ==> !valid
    {
      ghost var v := View();
      if !valid { return false; }
      FeedInParts(v, e, schemaStack);
      FedStarted(schemaStack, e, Size(root));
      HandleParallel(e);
      var c := SV.Top(schemaStack);
      if e.EndObject? {
        valid := ObjectEnds(c, e.count);
      } else {
        valid := c.schema.minItems <= e.count <= c.schema.maxItems;
      }
      if !valid { return false; }
      valid := EndTop();
      return valid;
    }
  }
}
