/** The loops of GenericPointer's Parse and Stringify. */
module PointerObjects {
  import opened BigIntBytes
  import opened JsonText
  import opened Options
  import opened Unicode
  import opened PointerText

  lemma LongerLonger(a: Bytes, b: Bytes, result: NameResult)
    ensures Longer(a, Longer(b, result)) == Longer(a + b, result)
  {
    if result.Name? { assert a + (b + result.name) == (a + b) + result.name; }
  }

  // One character of a name from position i on; i moves behind it.
  method ReadChar(source: Bytes, fragment: bool, i: nat) returns (ok: bool, code: PointerError, chars: Bytes, next: nat)
    requires i < |source| && source[i] != SLASH
    ensures i <= next <= |source| && (ok ==> i < next)
    ensures ParseName(fragment, source[i..]) ==
            if ok then Longer(chars, ParseName(fragment, source[next..])) else BadName(code, |source| - next)
  {
    var c := source[i];
    ghost var r := source[i..];
    ok, code, chars, next := true, InvalidEscape, [], i;
    if fragment {
      if c == PERCENT {
        var decoded := PercentChar(source[i..]);
        if decoded.None? {
          return false, InvalidPercentEncoding, chars, i;
        }
        next := i + 3 * |decoded.value|;
        assert r[3 * |decoded.value|..] == source[next..];
        if |decoded.value| > 1 {
          return ok, code, decoded.value, next;
        }
        c := decoded.value[0];
      } else if NeedPercentEncode(c) {
        return false, CharacterMustPercentEncode, chars, i;
      } else {
        next := i + 1;
      }
    } else {
      next := i + 1;
    }
    assert r[1..] == source[i + 1..];
    assert ParseName(fragment, r) == ParseChar(fragment, c, source[next..]);
    if c == TILDE {
      if next < |source| && (source[next] == ZERO || source[next] == ONE) {
        c := if source[next] == ZERO then TILDE else SLASH;
        assert source[next..][1..] == source[next + 1..];
        next := next + 1;
      } else {
        return false, InvalidEscape, chars, next;
      }
    }
    chars := [c];
  }

  // The inner loop of Parse.
  method ReadName(source: Bytes, fragment: bool, start: nat) returns (ok: bool, code: PointerError, name: Bytes, i: nat)
    requires start <= |source|
    ensures start <= i <= |source|
    ensures ParseName(fragment, source[start..]) == if ok then Name(name, source[i..]) else BadName(code, |source| - i)
  {
    ok, code, name, i := true, InvalidEscape, [], start;
    ghost var whole := ParseName(fragment, source[start..]);
    assert Longer([], whole) == whole by { if whole.Name? { assert [] + whole.name == whole.name; } }
    while i < |source| && source[i] != SLASH
      invariant start <= i <= |source| && Longer(name, ParseName(fragment, source[i..])) == whole
    {
      var chars, next;
      ok, code, chars, next := ReadChar(source, fragment, i);
      i := next;
      if !ok { return; }
      LongerLonger(name, chars, ParseName(fragment, source[next..]));
      name := name + chars;
    }
    assert name + [] == name;
  }

  function Also(names: seq<Bytes>, result: TokensResult): TokensResult {
    if result.Tokens? then Tokens(names + result.names) else result
  }

  // The outer loop of Parse.
  method ReadTokens(source: Bytes, fragment: bool, start: nat) returns (ok: bool, code: PointerError,
          names: seq<Bytes>, i: nat)
    requires start <= |source| && (start == |source| || source[start] == SLASH)
    ensures i <= |source|
    ensures ParseTokens(fragment, source[start..]) == if ok then Tokens(names) else BadTokens(code, |source| - i)
  {
    ok, code, names, i := true, InvalidEscape, [], start;
    ghost var whole := ParseTokens(fragment, source[start..]);
    assert Also([], whole) == whole by { if whole.Tokens? { assert [] + whole.names == whole.names; } }
    while i < |source|
      invariant start <= i <= |source| && (i == |source| || source[i] == SLASH)
      invariant Also(names, ParseTokens(fragment, source[i..])) == whole
    {
      assert source[i..][1..] == source[i + 1..];
      ghost var before := names;
      var name, next;
      ok, code, name, next := ReadName(source, fragment, i + 1);
      i := next;
      if !ok { return; }
      ghost var more := ParseTokens(fragment, source[next..]);
      assert next < |source| ==> source[next] == source[next..][0];
      if more.Tokens? { assert before + ([name] + more.names) == (before + [name]) + more.names; }
      names := names + [name];
    }
    assert names + [] == names;
  }

  /** Parse: the token names, or the error and where it is. */
  method ParsePointer(source: Bytes) returns (ok: bool, code: PointerError, names: seq<Bytes>, offset: nat)
    ensures offset <= |source|
    ensures Parse(source) == if ok then Tokens(names) else BadTokens(code, |source| - offset)
  {
    var i := 0;
    var uriFragment := source != [] && source[0] == HASH;
    if uriFragment { i := 1; }
    assert source[i..] == if uriFragment then source[1..] else source;
    if i != |source| && source[i] != SLASH {
      return false, TokenMustBeginWithSolidus, [], i;
    }
    ok, code, names, offset := ReadTokens(source, uriFragment, i);
  }

  lemma AfterAfter(a: Bytes, b: Bytes, more: Option<Bytes>)
    ensures After(a, After(b, more)) == After(a + b, more)
  {
    if more.Some? { assert a + (b + more.value) == (a + b) + more.value; }
  }

  lemma AfterNothing(more: Option<Bytes>)
    ensures After([], more) == more
  {
    if more.Some? { assert [] + more.value == more.value; }
  }

  // The text of the character at j, and how many bytes of the name that is.
  method WriteChar(fragment: bool, name: Bytes, j: nat) returns (ok: bool, piece: Bytes, n: nat)
    requires j < |name|
    ensures 0 < n <= |name| - j
    ensures NameText(fragment, name[j..]) == if ok then After(piece, NameText(fragment, name[j + n..])) else None
  {
    var c := name[j];
    ghost var r := name[j..];
    ok, piece, n := true, [c], 1;
    if c == TILDE {
      piece := [TILDE, ZERO];
    } else if c == SLASH {
      piece := [TILDE, ONE];
    } else if fragment && NeedPercentEncode(c) {
      var d := Decode(name[j..]);
      if !d.ok { return false, piece, n; }
      DecodeThenEncode(name[j..]);
      n := d.used;
      piece := PercentEncode(name[j..][..n]);
    }
    assert r[n..] == name[j + n..];
  }

  // The inner loop of Stringify.
  method WriteName(fragment: bool, name: Bytes) returns (ok: bool, text: Bytes)
    ensures NameText(fragment, name) == if ok then Some(text) else None
  {
    ok, text := true, [];
    var j := 0;
    ghost var whole := NameText(fragment, name);
    assert name[0..] == name;
    AfterNothing(whole);
    while j < |name|
      invariant j <= |name| && After(text, NameText(fragment, name[j..])) == whole
    {
      var piece, n;
      ok, piece, n := WriteChar(fragment, name, j);
      if !ok { return; }
      AfterAfter(text, piece, NameText(fragment, name[j + n..]));
      text := text + piece;
      j := j + n;
    }
    assert text + [] == text;
  }

  lemma FirstName(fragment: bool, names: seq<Bytes>, t: nat)
    requires t < |names|
    ensures TokensText(fragment, names[t..]) ==
            if NameText(fragment, names[t]).None? then None
            else After([SLASH] + NameText(fragment, names[t]).value, TokensText(fragment, names[t + 1..]))
  {
    assert names[t..][1..] == names[t + 1..];
  }

  /** Stringify, in either form. */
  method WritePointer(fragment: bool, names: seq<Bytes>) returns (ok: bool, text: Bytes)
    ensures Stringify(fragment, names) == if ok then Some(text) else None
  {
    ok, text := true, if fragment then [HASH] else [];
    var t := 0;
    ghost var whole := Stringify(fragment, names);
    assert names[0..] == names;
    AfterNothing(TokensText(fragment, names));
    while t < |names|
      invariant t <= |names| && After(text, TokensText(fragment, names[t..])) == whole
    {
      FirstName(fragment, names, t);
      var name;
      ok, name := WriteName(fragment, names[t]);
      if !ok { return; }
      AfterAfter(text, [SLASH] + name, TokensText(fragment, names[t + 1..]));
      text := text + ([SLASH] + name);
      t := t + 1;
    }
    assert text + [] == text;
  }
}
