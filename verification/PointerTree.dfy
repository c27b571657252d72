/** JSON Pointers on trees: the index of a token, and GenericPointer's Get, Create and Set. */
module PointerTree {
  import opened BigIntBytes
  import opened JsonTree
  import opened JsonText
  import opened Options

  // kPointerInvalidIndex.
  const INVALID_INDEX: nat := 0xFFFF_FFFF
  const WRAP: nat := 0x1_0000_0000

  // ---------------------------------------------------------------------------
  // The index of a name.

  predicate IsDecimal(name: Bytes) {
    forall i | 0 <= i < |name| :: IsDigit(name[i])
  }

  // Digits, and no zero in front of another one: the array-index rule of RFC 6901.
  predicate Canonical(name: Bytes) {
    name != [] && IsDecimal(name) && (|name| > 1 ==> name[0] != ZERO)
  }

  // The accumulator behind the first j digits; none once its wrap-around has been noticed.
  function Accumulated(name: Bytes, j: nat): (n: Option<nat>)
    requires j <= |name| && IsDecimal(name)
    ensures n.Some? ==> n.value < WRAP
  {
    if j == 0 then Some(0)
    else match Accumulated(name, j - 1)
      case None => None
      case Some(n) =>
        var m := (n * 10 + DigitValue(name[j - 1])) % WRAP;
        if m < n then None else Some(m)
  }

  function IndexOf(name: Bytes): (index: nat)
    ensures index < WRAP
  {
    if !Canonical(name) then INVALID_INDEX
    else match Accumulated(name, |name|)
      case None => INVALID_INDEX
      case Some(n) => n
  }

  lemma {:induction false} DecimalPrefixGrows(name: Bytes, j: nat)
    requires IsDecimal(name) && j <= |name|
    ensures Decimal(name[..j]) <= Decimal(name)
    decreases |name| - j
  {
    if j == |name| {
      assert name[..j] == name;
    } else {
      assert name[..j + 1][..j] == name[..j];
      DecimalPrefixGrows(name, j + 1);
    }
  }

  lemma {:induction false} AccumulatorExact(name: Bytes, j: nat)
    requires IsDecimal(name) && j <= |name| && Decimal(name[..j]) < WRAP
    ensures Accumulated(name, j) == Some(Decimal(name[..j]))
    decreases j
  {
    if j > 0 {
      assert name[..j][..j - 1] == name[..j - 1];
      AccumulatorExact(name, j - 1);
    }
  }

  /** The index of a canonical decimal is its value exactly when the value is below 2^32; it is the
      invalid index for every other name. (The value 2^32 - 1 is the invalid index itself.) */
  lemma IndexExact(name: Bytes)
    ensures !Canonical(name) ==> IndexOf(name) == INVALID_INDEX
    ensures Canonical(name) ==> (IndexOf(name) == Decimal(name) <==> Decimal(name) < WRAP)
  {
    if Canonical(name) && Decimal(name) < WRAP {
      assert name[..|name|] == name;
      AccumulatorExact(name, |name|);
    }
  }

  // What is left of a decimal modulo 2^32 never gets smaller from one digit to the next.
  predicate RemaindersGrow(name: Bytes, k: nat)
    requires k <= |name| && IsDecimal(name)
  {
    forall j | 0 <= j < k :: Decimal(name[..j]) % WRAP <= Decimal(name[..j + 1]) % WRAP
  }

  lemma RemainderIs(x: nat, q: nat, r: nat)
    requires x == q * WRAP + r && r < WRAP
    ensures x % WRAP == r
  {
  }

  lemma RemainderOfNext(x: nat, digit: nat)
    ensures ((x % WRAP) * 10 + digit) % WRAP == (x * 10 + digit) % WRAP
  {
    var q, r := x / WRAP, x % WRAP;
    var y := r * 10 + digit;
    RemainderIs(x * 10 + digit, 10 * q + y / WRAP, y % WRAP);
  }

  // One digit more.
  lemma PrefixNext(name: Bytes, k: nat)
    requires k < |name| && IsDecimal(name)
    ensures Decimal(name[..k + 1]) == Decimal(name[..k]) * 10 + DigitValue(name[k])
    ensures RemaindersGrow(name, k + 1) <==>
              RemaindersGrow(name, k) && Decimal(name[..k]) % WRAP <= Decimal(name[..k + 1]) % WRAP
  {
    assert name[..k + 1][..k] == name[..k];
  }

  lemma AccumulatedNext(name: Bytes, k: nat, grow: bool, prefix: nat)
    requires k < |name| && IsDecimal(name)
    requires Accumulated(name, k) == if grow then Some(prefix % WRAP) else None
    ensures var next := prefix * 10 + DigitValue(name[k]);
            Accumulated(name, k + 1) == if grow && prefix % WRAP <= next % WRAP then Some(next % WRAP) else None
  {
    RemainderOfNext(prefix, DigitValue(name[k]));
  }

  // What the accumulator is behind k digits.
  predicate AccumulatesTo(name: Bytes, k: nat, prefix: nat, grow: bool)
    requires k <= |name| && IsDecimal(name)
  {
    Accumulated(name, k) == if grow then Some(prefix % WRAP) else None
  }

  lemma AccumulatesNext(name: Bytes, k: nat, prefix: nat, next: nat, grow: bool)
    requires k < |name| && IsDecimal(name) && AccumulatesTo(name, k, prefix, grow)
    requires next == prefix * 10 + DigitValue(name[k])
    ensures AccumulatesTo(name, k + 1, next, grow && prefix % WRAP <= next % WRAP)
  {
    AccumulatedNext(name, k, grow, prefix);
  }

  lemma {:induction false} AccumulatedExactly(name: Bytes, k: nat)
    requires k <= |name| && IsDecimal(name)
    ensures AccumulatesTo(name, k, Decimal(name[..k]), RemaindersGrow(name, k))
    decreases k
  {
    if k > 0 {
      var j := k - 1;
      AccumulatedExactly(name, j);
      PrefixNext(name, j);
      AccumulatesNext(name, j, Decimal(name[..j]), Decimal(name[..k]), RemaindersGrow(name, j));
      assert RemaindersGrow(name, k) <==>
               RemaindersGrow(name, j) && Decimal(name[..j]) % WRAP <= Decimal(name[..k]) % WRAP;
    }
  }

  /** The index of any canonical decimal: the test for wrap-around notices one exactly if from some digit to
      the next the remainder modulo 2^32 gets smaller, and otherwise the index is the remainder. */
  lemma IndexOfAny(name: Bytes)
    requires Canonical(name)
    ensures IndexOf(name) == if RemaindersGrow(name, |name|) then Decimal(name) % WRAP else INVALID_INDEX
  {
    AccumulatedExactly(name, |name|);
    assert name[..|name|] == name;
  }

  function TenTo(k: nat): nat {
    if k == 0 then 1 else 10 * TenTo(k - 1)
  }

  lemma {:induction false} TenToGrows(i: nat, k: nat)
    requires i <= k
    ensures TenTo(i) <= TenTo(k)
  {
    if i < k { TenToGrows(i, k - 1); }
  }

  lemma {:induction false} PrefixBelow(name: Bytes, k: nat)
    requires IsDecimal(name) && k <= |name|
    ensures Decimal(name[..k]) < TenTo(k)
    decreases k
  {
    if k > 0 {
      PrefixBelow(name, k - 1);
      assert name[..k][..k - 1] == name[..k - 1];
    }
  }

  lemma NinthPower()
    ensures TenTo(9) == 1_000_000_000
  {
  }

  // The remainders of a decimal of at most nine digits are the values themselves.
  lemma {:induction false} NineDigits(name: Bytes, k: nat)
    requires IsDecimal(name) && k <= |name| && k <= 9
    ensures Decimal(name[..k]) < 1_000_000_000 && RemaindersGrow(name, k)
    decreases k
  {
    PrefixBelow(name, k);
    TenToGrows(k, 9);
    NinthPower();
    if k > 0 {
      NineDigits(name, k - 1);
      assert name[..k][..k - 1] == name[..k - 1];
      assert Decimal(name[..k]) == Decimal(name[..k - 1]) * 10 + DigitValue(name[k - 1]);
      SmallRemainder(Decimal(name[..k - 1]));
      SmallRemainder(Decimal(name[..k]));
    }
  }

  lemma SmallRemainder(n: nat)
    requires n < 1_000_000_000
    ensures n % WRAP == n
  {
  }

  /** Ten digits, of which the first nine are v and the last is d: the wrap-around is noticed exactly if
      9v + d lies below the multiple of 2^32 that has been passed. */
  lemma TenDigits(name: Bytes)
    requires Canonical(name) && |name| == 10
    ensures var v, d := Decimal(name[..9]), DigitValue(name[9]);
            RemaindersGrow(name, 10) <==> 9 * v + d >= (10 * v + d) / WRAP * WRAP
  {
    var v, d := Decimal(name[..9]), DigitValue(name[9]);
    NineDigits(name, 9);
    assert name[..10][..9] == name[..9];
    assert Decimal(name[..10]) == v * 10 + d;
  }

  lemma DigitAdded(name: Bytes, j: nat, n: nat, digit: byte)
    requires IsDecimal(name) && j < |name| && name[j] == digit && Accumulated(name, j) == Some(n)
    requires n * 10 + DigitValue(digit) < WRAP
    ensures Accumulated(name, j + 1) == Some(n * 10 + DigitValue(digit))
  {
  }

  lemma FirstNine(name: Bytes)
    requires IsDecimal(name) && |name| >= 9
    requires name[0] == 0x38 && name[1] == 0x35 && name[2] == 0x38 && name[3] == 0x39 && name[4] == 0x39
    requires name[5] == 0x33 && name[6] == 0x34 && name[7] == 0x35 && name[8] == 0x39
    ensures Accumulated(name, 9) == Some(858993459)
  {
    DigitAdded(name, 0, 0, 0x38);
    DigitAdded(name, 1, 8, 0x35);
    DigitAdded(name, 2, 85, 0x38);
    DigitAdded(name, 3, 858, 0x39);
    DigitAdded(name, 4, 8589, 0x39);
    DigitAdded(name, 5, 85899, 0x33);
    DigitAdded(name, 6, 858993, 0x34);
    DigitAdded(name, 7, 8589934, 0x35);
    DigitAdded(name, 8, 85899345, 0x39);
  }

  lemma LastWraps(name: Bytes)
    requires Canonical(name) && |name| == 10 && name[9] == ZERO && Accumulated(name, 9) == Some(858993459)
    ensures IndexOf(name) == 4294967294
  {
    assert (858993459 * 10 + DigitValue(name[9])) % WRAP == 4294967294;
  }

  /** The test for wrap-around misses some: 8589934590 gets the index 4294967294. */
  lemma WrapAroundMissed(name: Bytes)
    requires name == [0x38, 0x35, 0x38, 0x39, 0x39, 0x33, 0x34, 0x35, 0x39, 0x30]
    ensures Canonical(name) && IndexOf(name) == 4294967294
  {
    assert IsDecimal(name);
    FirstNine(name);
    LastWraps(name);
  }

  // The loop that computes the index, with its 32-bit accumulator.
  method ComputeIndex(name: Bytes) returns (index: nat)
    ensures index == IndexOf(name)
  {
    var isNumber := name != [];
    for i := 0 to |name|
      invariant isNumber <==> name != [] && forall k | 0 <= k < i :: IsDigit(name[k])
    {
      if !IsDigit(name[i]) { isNumber := false; }
    }
    if isNumber && |name| > 1 && name[0] == ZERO {
      isNumber := false;
    }
    var n: nat := 0;
    if isNumber {
      var j := 0;
      while j < |name|
        invariant j <= |name| && Accumulated(name, j) == Some(n)
      {
        var m := (n * 10 + DigitValue(name[j])) % WRAP;
        if m < n {
          OnceMissed(name, j + 1);
          return INVALID_INDEX;
        }
        n := m;
        j := j + 1;
      }
    }
    return if isNumber then n else INVALID_INDEX;
  }

  lemma {:induction false} OnceMissed(name: Bytes, j: nat)
    requires IsDecimal(name) && j <= |name| && Accumulated(name, j).None?
    ensures Accumulated(name, |name|).None?
    decreases |name| - j
  {
    if j < |name| { OnceMissed(name, j + 1); }
  }

  // ---------------------------------------------------------------------------
  // Tokens in a tree.

  datatype Token = Token(name: Bytes, index: nat)

  const DASH: Bytes := [MINUS]

  // What Parse guarantees of every token.
  predicate Parsed(t: Token) {
    t.index == IndexOf(t.name)
  }

  predicate AllParsed(ts: seq<Token>) {
    forall t | t in ts :: Parsed(t)
  }

  // The place of the first member of a name, or the number of members.
  function Place(members: seq<Member>, name: Bytes): (k: nat)
    ensures k <= |members| && (k < |members| ==> members[k].name == name)
    ensures forall i | 0 <= i < k :: members[i].name != name
  {
    if members == [] || members[0].name == name then 0 else 1 + Place(members[1..], name)
  }

  function Size(v: Json): nat {
    match v case JArray(elems) => |elems| case JObject(members) => |members| case _ => 0
  }

  function Child(v: Json, k: nat): Json
    requires k < Size(v)
  {
    if v.JArray? then v.elems[k] else v.members[k].value
  }

  function WithChild(v: Json, k: nat, x: Json): Json
    requires k < Size(v)
  {
    if v.JArray? then JArray(v.elems[k := x]) else JObject(v.members[k := Member(v.members[k].name, x)])
  }

  // Get: the child that a token leads to, or none.
  function Resolved(v: Json, t: Token): (k: Option<nat>)
    ensures k.Some? ==> k.value < Size(v)
  {
    match v
    case JObject(members) =>
      if Place(members, t.name) < |members| then Some(Place(members, t.name)) else None
    case JArray(elems) => if t.index == INVALID_INDEX || t.index >= |elems| then None else Some(t.index)
    case _ => None
  }

  function Get(v: Json, ts: seq<Token>): Option<Json> {
    if ts == [] then Some(v)
    else match Resolved(v, ts[0])
      case None => None
      case Some(k) => Get(Child(v, k), ts[1..])
  }

  function Nulls(n: nat): (elems: seq<Json>)
    ensures |elems| == n
  {
    seq(n, i => JNull)
  }

  // One token of Create: the value with room for the child, the place of the child, and whether it
  // was there before.
  datatype Entered = Entered(v: Json, k: nat, exist: bool)

  function Enter(v: Json, t: Token): (e: Entered)
    ensures e.k < Size(e.v)
  {
    if v.JArray? && t.name == DASH then Entered(JArray(v.elems + [JNull]), |v.elems|, false)
    else
      var w := if t.index == INVALID_INDEX then (if v.JObject? then v else JObject([]))
               else if v.JArray? || v.JObject? then v else JArray([]);
      if w.JArray? then
        if t.index >= |w.elems| then Entered(JArray(w.elems + Nulls(t.index + 1 - |w.elems|)), t.index, false)
        else Entered(w, t.index, true)
      else
        var k := Place(w.members, t.name);
        if k < |w.members| then Entered(w, k, true)
        else Entered(JObject(w.members + [Member(t.name, JNull)]), |w.members|, false)
  }

  // Set: Create and then an assignment to what it returns. Also whether Create found it there.
  function Set(v: Json, ts: seq<Token>, value: Json): (Json, bool)
    decreases |ts|
  {
    if ts == [] then (value, true)
    else
      var e := Enter(v, ts[0]);
      var (child, exist) := Set(Child(e.v, e.k), ts[1..], value);
      (WithChild(e.v, e.k, child), e.exist && exist)
  }

  // Create alone: what is there stays there, what is not is a null.
  function Create(v: Json, ts: seq<Token>): (Json, bool) {
    Set(v, ts, if Get(v, ts).Some? then Get(v, ts).value else JNull)
  }

  lemma DashHasNoIndex(t: Token)
    requires Parsed(t) && t.name == DASH
    ensures t.index == INVALID_INDEX
  {
    assert !IsDigit(t.name[0]);
  }

  lemma EnterAndResolve(v: Json, t: Token)
    requires Parsed(t)
    ensures var e := Enter(v, t);
            && (e.exist <==> Resolved(v, t).Some?)
            && (e.exist ==> e.v == v && Resolved(v, t) == Some(e.k))
  {
    if t.name == DASH { DashHasNoIndex(t); }
  }

  /** Create reports that the value exists exactly when Get would have resolved it before. */
  lemma {:induction false} ExistsIfResolved(v: Json, ts: seq<Token>, value: Json)
    requires AllParsed(ts)
    ensures Set(v, ts, value).1 <==> Get(v, ts).Some?
    decreases |ts|
  {
    if ts != [] {
      var e := Enter(v, ts[0]);
      assert ts[0] in ts;
      EnterAndResolve(v, ts[0]);
      ExistsIfResolved(Child(e.v, e.k), ts[1..], value);
    }
  }

  // A "-" meets an array on the way: Create appends there.
  predicate Appends(v: Json, ts: seq<Token>)
    decreases |ts|
  {
    ts != [] && ((v.JArray? && ts[0].name == DASH)
                 || var e := Enter(v, ts[0]); Appends(Child(e.v, e.k), ts[1..]))
  }

  lemma ResolvedAfter(v: Json, t: Token, x: Json)
    requires Parsed(t) && !(v.JArray? && t.name == DASH) && t.index < WRAP
    ensures var e := Enter(v, t);
            var w := WithChild(e.v, e.k, x);
            Resolved(w, t) == Some(e.k) && Child(w, e.k) == x
  {
    var e := Enter(v, t);
    var w := WithChild(e.v, e.k, x);
    if e.v.JObject? {
      assert forall i | 0 <= i < |w.members| :: w.members[i].name == e.v.members[i].name;
      PlaceOf(w.members, t.name, e.k);
    }
  }

  lemma {:induction false} PlaceOf(members: seq<Member>, name: Bytes, k: nat)
    requires k < |members| && members[k].name == name
    requires forall i | 0 <= i < k :: members[i].name != name
    ensures Place(members, name) == k
  {
    if k > 0 { PlaceOf(members[1..], name, k - 1); }
  }

  /** After Set, Get with the same pointer returns the value set, unless a "-" met an array: then
      it resolves nothing. */
  lemma {:induction false} GetAfterSet(v: Json, ts: seq<Token>, value: Json)
    requires AllParsed(ts)
    ensures Get(Set(v, ts, value).0, ts) == if Appends(v, ts) then None else Some(value)
    decreases |ts|
  {
    if ts != [] {
      var t, e := ts[0], Enter(v, ts[0]);
      var child := Set(Child(e.v, e.k), ts[1..], value).0;
      assert t in ts;
      if v.JArray? && t.name == DASH {
        DashHasNoIndex(t);
      } else {
        ResolvedAfter(v, t, child);
        GetAfterSet(Child(e.v, e.k), ts[1..], value);
      }
    }
  }

  lemma {:induction false} NoDashNoAppend(v: Json, ts: seq<Token>)
    requires forall t | t in ts :: t.name != DASH
    ensures !Appends(v, ts)
    decreases |ts|
  {
    if ts != [] {
      assert ts[0] in ts;
      var e := Enter(v, ts[0]);
      NoDashNoAppend(Child(e.v, e.k), ts[1..]);
    }
  }

  /** Setting what is there already changes nothing, so Create leaves a tree that resolves as it is. */
  lemma {:induction false} CreateKeeps(v: Json, ts: seq<Token>)
    requires AllParsed(ts) && Get(v, ts).Some?
    ensures Set(v, ts, Get(v, ts).value).0 == v && Create(v, ts) == (v, true)
    decreases |ts|
  {
    ExistsIfResolved(v, ts, Get(v, ts).value);
    if ts != [] {
      var e := Enter(v, ts[0]);
      assert ts[0] in ts;
      EnterAndResolve(v, ts[0]);
      CreateKeeps(Child(e.v, e.k), ts[1..]);
      assert WithChild(v, e.k, Child(v, e.k)) == v;
    }
  }

  // The loop of Get; the index of the token that it could not resolve.
  method GetValue(root: Json, ts: seq<Token>) returns (v: Option<Json>, unresolved: nat)
    ensures v == Get(root, ts)
    ensures v.None? ==> unresolved < |ts| && Get(root, ts[..unresolved]).Some? && Get(root, ts[..unresolved + 1]).None?
  {
    var node := root;
    unresolved := 0;
    assert ts[..0] == [];
    while unresolved < |ts|
      invariant unresolved <= |ts| && Get(node, ts[unresolved..]) == Get(root, ts)
      invariant Get(root, ts[..unresolved]) == Some(node)
    {
      var k := Resolved(node, ts[unresolved]);
      GetOneMore(root, ts[..unresolved], ts[unresolved]);
      assert ts[..unresolved + 1] == ts[..unresolved] + [ts[unresolved]];
      if k.None? { return None, unresolved; }
      assert ts[unresolved..][1..] == ts[unresolved + 1..];
      node := Child(node, k.value);
      unresolved := unresolved + 1;
    }
    return Some(node), unresolved;
  }

  lemma {:induction false} GetOneMore(v: Json, ts: seq<Token>, t: Token)
    ensures Get(v, ts + [t]) == match Get(v, ts) case None => None case Some(w) => Get(w, [t])
  {
    if ts == [] {
      assert ts + [t] == [t];
    } else {
      assert (ts + [t])[0] == ts[0] && (ts + [t])[1..] == ts[1..] + [t];
      if Resolved(v, ts[0]).Some? { GetOneMore(Child(v, Resolved(v, ts[0]).value), ts[1..], t); }
    }
  }
}
