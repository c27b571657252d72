/** JSON Pointer texts (RFC 6901, sections 3, 4 and 6): parsing into token names and printing. */
module PointerText {
  import opened BigIntBytes
  import opened JsonText
  import opened Options
  import opened Unicode

  const TILDE: byte := 0x7E
  const HASH: byte := 0x23
  const PERCENT: byte := 0x25
  const ONE: byte := 0x31

  datatype PointerError =
    | TokenMustBeginWithSolidus | InvalidEscape | InvalidPercentEncoding | CharacterMustPercentEncode

  // Unreserved characters of section 2.3 of RFC 3986 stand for themselves in a fragment.
  predicate NeedPercentEncode(c: byte) {
    !(IsDigit(c) || 0x41 <= c <= 0x5A || 0x61 <= c <= 0x7A || c == MINUS || c == DOT || c == 0x5F || c == TILDE)
  }

  // ---------------------------------------------------------------------------
  // Percent-encoding.

  function HexUpper(n: nat): byte
    requires n < 16
  {
    if n < 10 then (0x30 + n) as byte else (0x41 + n - 10) as byte
  }

  function PercentEncode(bytes: Bytes): (text: Bytes)
    ensures |text| == 3 * |bytes|
  {
    if bytes == [] then []
    else [PERCENT, HexUpper(bytes[0] as nat / 16), HexUpper(bytes[0] as nat % 16)] + PercentEncode(bytes[1..])
  }

  // The byte of a triplet at the front of r.
  function Triplet(r: Bytes): Option<byte> {
    if |r| < 3 || r[0] != PERCENT || HexDigit(r[1]) < 0 || HexDigit(r[2]) < 0 then None
    else Some((HexDigit(r[1]) * 16 + HexDigit(r[2])) as byte)
  }

  // The bytes of n triplets.
  function Triplets(r: Bytes, n: nat): (bytes: Option<Bytes>)
    ensures bytes.Some? ==> |bytes.value| == n && |r| >= 3 * n
  {
    if n == 0 then Some([])
    else match Triplet(r)
      case None => None
      case Some(c) =>
        match Triplets(r[3..], n - 1)
        case None => None
        case Some(rest) => Some([c] + rest)
  }

  // How many bytes validation takes for a char with this lead byte; 0 if it refuses it.
  function LeadLength(c: byte): (n: nat)
    ensures n <= 4
  {
    if c < 0x80 then 1
    else if Masks(GetRange(c)) == [] then 0
    else 1 + |Masks(GetRange(c))|
  }

  // Validation of a char behind its percent-encoding: its bytes, or none.
  function PercentChar(r: Bytes): (decoded: Option<Bytes>)
    ensures decoded.Some? ==> 1 <= |decoded.value| <= 4 && |r| >= 3 * |decoded.value|
  {
    match Triplet(r)
    case None => None
    case Some(c) =>
      if LeadLength(c) == 0 then None
      else match Triplets(r, LeadLength(c))
        case None => None
        case Some(bytes) => if Decode(bytes).ok then Some(bytes) else None
  }

  // ---------------------------------------------------------------------------
  // Parsing. An error is placed by the number of bytes that were left there.

  datatype NameResult = Name(name: Bytes, rest: Bytes) | BadName(code: PointerError, left: nat)

  function Longer(prefix: Bytes, result: NameResult): NameResult {
    if result.Name? then Name(prefix + result.name, result.rest) else result
  }

  // The name behind a '/', up to the next one or the end.
  function ParseName(fragment: bool, r: Bytes): (result: NameResult)
    ensures result.Name? ==> |result.name| + |result.rest| <= |r|
    ensures result.Name? ==> result.rest == [] || result.rest[0] == SLASH
    decreases |r|, 1
  {
    if r == [] || r[0] == SLASH then Name([], r)
    else if fragment && r[0] == PERCENT then
      match PercentChar(r)
      case None => BadName(InvalidPercentEncoding, |r|)
      case Some(bytes) =>
        var rest := r[3 * |bytes|..];
        if |bytes| > 1 then Longer(bytes, ParseName(fragment, rest)) else ParseChar(fragment, bytes[0], rest)
    else if fragment && NeedPercentEncode(r[0]) then BadName(CharacterMustPercentEncode, |r|)
    else ParseChar(fragment, r[0], r[1..])
  }

  // A single character, which may begin an escape.
  function ParseChar(fragment: bool, c: byte, rest: Bytes): (result: NameResult)
    ensures result.Name? ==> |result.name| + |result.rest| <= |rest| + 1
    ensures result.Name? ==> result.rest == [] || result.rest[0] == SLASH
    decreases |rest|, 2
  {
    if c != TILDE then Longer([c], ParseName(fragment, rest))
    else if rest == [] || (rest[0] != ZERO && rest[0] != ONE) then BadName(InvalidEscape, |rest|)
    else Longer([if rest[0] == ZERO then TILDE else SLASH], ParseName(fragment, rest[1..]))
  }

  datatype TokensResult = Tokens(names: seq<Bytes>) | BadTokens(code: PointerError, left: nat)

  function ParseTokens(fragment: bool, r: Bytes): TokensResult
    decreases |r|
  {
    if r == [] then Tokens([])
    else if r[0] != SLASH then BadTokens(TokenMustBeginWithSolidus, |r|)
    else
      match ParseName(fragment, r[1..])
      case BadName(code, left) => BadTokens(code, left)
      case Name(name, rest) =>
        match ParseTokens(fragment, rest)
        case BadTokens(code, left) => BadTokens(code, left)
        case Tokens(names) => Tokens([name] + names)
  }

  function Parse(source: Bytes): TokensResult {
    if source != [] && source[0] == HASH then ParseTokens(true, source[1..]) else ParseTokens(false, source)
  }

  // ---------------------------------------------------------------------------
  // Printing; none where a name is no UTF-8.

  function NameText(fragment: bool, name: Bytes): (text: Option<Bytes>)
    decreases |name|
  {
    if name == [] then Some([])
    else if name[0] == TILDE then After([TILDE, ZERO], NameText(fragment, name[1..]))
    else if name[0] == SLASH then After([TILDE, ONE], NameText(fragment, name[1..]))
    else if fragment && NeedPercentEncode(name[0]) then
      var d := Decode(name);
      if !d.ok then None
      else
        DecodeThenEncode(name);
        After(PercentEncode(name[..d.used]), NameText(fragment, name[d.used..]))
    else After([name[0]], NameText(fragment, name[1..]))
  }

  function After(text: Bytes, more: Option<Bytes>): Option<Bytes> {
    if more.None? then None else Some(text + more.value)
  }

  function TokensText(fragment: bool, names: seq<Bytes>): Option<Bytes> {
    if names == [] then Some([])
    else match NameText(fragment, names[0])
      case None => None
      case Some(text) => After([SLASH] + text, TokensText(fragment, names[1..]))
  }

  function Stringify(fragment: bool, names: seq<Bytes>): Option<Bytes> {
    if fragment then After([HASH], TokensText(true, names)) else TokensText(false, names)
  }

  // ---------------------------------------------------------------------------
  // Plain form: each undoes the other.

  // One character of a name in its printed form.
  lemma EscapeRead(fragment: bool, c: byte, tail: Bytes)
    requires c == TILDE || c == SLASH
    ensures ParseName(fragment, [TILDE, if c == TILDE then ZERO else ONE] + tail) ==
            Longer([c], ParseName(fragment, tail))
  {
    var digit := if c == TILDE then ZERO else ONE;
    var r := [TILDE, digit] + tail;
    assert r[1..] == [digit] + tail;
    assert ([digit] + tail)[1..] == tail;
  }

  lemma CharRead(fragment: bool, c: byte, tail: Bytes)
    requires c != TILDE && c != SLASH && (fragment ==> !NeedPercentEncode(c))
    ensures ParseName(fragment, [c] + tail) == Longer([c], ParseName(fragment, tail))
  {
    assert ([c] + tail)[1..] == tail;
  }

  // What a character of a plain name is printed as.
  function Printed(c: byte): Bytes {
    if c == TILDE then [TILDE, ZERO] else if c == SLASH then [TILDE, ONE] else [c]
  }

  lemma PrintedRead(c: byte, inner: Bytes, rest: Bytes)
    ensures ParseName(false, (Printed(c) + inner) + rest) == Longer([c], ParseName(false, inner + rest))
  {
    assert (Printed(c) + inner) + rest == Printed(c) + (inner + rest);
    if c == TILDE || c == SLASH {
      EscapeRead(false, c, inner + rest);
    } else {
      CharRead(false, c, inner + rest);
    }
  }

  lemma PrintedFirst(name: Bytes)
    requires name != []
    ensures NameText(false, name) == After(Printed(name[0]), NameText(false, name[1..]))
  {
  }

  lemma {:induction false} PlainNameRead(name: Bytes, rest: Bytes)
    requires rest == [] || rest[0] == SLASH
    ensures NameText(false, name).Some?
    ensures ParseName(false, NameText(false, name).value + rest) == Name(name, rest)
  {
    if name == [] {
      assert [] + rest == rest;
    } else {
      PlainNameRead(name[1..], rest);
      PrintedFirst(name);
      PrintedRead(name[0], NameText(false, name[1..]).value, rest);
      assert [name[0]] + name[1..] == name;
    }
  }

  // A token in front of others.
  lemma TokenRead(fragment: bool, text: Bytes, name: Bytes, rest: Bytes, names: seq<Bytes>)
    requires ParseName(fragment, text + rest) == Name(name, rest) && ParseTokens(fragment, rest) == Tokens(names)
    ensures ParseTokens(fragment, ([SLASH] + text) + rest) == Tokens([name] + names)
  {
    var r := ([SLASH] + text) + rest;
    assert r[0] == SLASH && r[1..] == text + rest;
  }

  lemma TokensTextBegins(fragment: bool, names: seq<Bytes>)
    requires TokensText(fragment, names).Some?
    ensures var text := TokensText(fragment, names).value; text == [] || text[0] == SLASH
  {
  }

  lemma {:induction false} PlainTokensRead(names: seq<Bytes>)
    ensures TokensText(false, names).Some?
    ensures ParseTokens(false, TokensText(false, names).value) == Tokens(names)
  {
    if names != [] {
      PlainTokensRead(names[1..]);
      TokensTextBegins(false, names[1..]);
      var rest := TokensText(false, names[1..]).value;
      PlainNameRead(names[0], rest);
      TokenRead(false, NameText(false, names[0]).value, names[0], rest, names[1..]);
      assert [names[0]] + names[1..] == names;
    }
  }

  // The first character of a plain name, and how much of the text it takes.
  lemma PlainStep(r: Bytes) returns (c: byte, step: nat)
    requires ParseName(false, r).Name? && r != [] && r[0] != SLASH
    ensures 0 < step <= |r| && r[..step] == Printed(c)
    ensures ParseName(false, r) == Longer([c], ParseName(false, r[step..]))
  {
    if r[0] == TILDE {
      assert r[1..][1..] == r[2..];
      c, step := if r[1] == ZERO then TILDE else SLASH, 2;
      assert r[..2] == [r[0], r[1]];
    } else {
      c, step := r[0], 1;
      assert r[..1] == [r[0]];
    }
  }

  lemma PrintedBehind(c: byte, name: Bytes, rest: Bytes)
    requires NameText(false, name).Some?
    ensures NameText(false, [c] + name).Some?
    ensures NameText(false, [c] + name).value + rest == Printed(c) + (NameText(false, name).value + rest)
  {
    assert ([c] + name)[1..] == name;
    PrintedFirst([c] + name);
    assert (Printed(c) + NameText(false, name).value) + rest == Printed(c) + (NameText(false, name).value + rest);
  }

  lemma {:induction false} PlainNameWritten(r: Bytes)
    requires ParseName(false, r).Name?
    ensures var result := ParseName(false, r);
            NameText(false, result.name).Some? && NameText(false, result.name).value + result.rest == r
    decreases |r|
  {
    if r == [] || r[0] == SLASH {
      assert [] + r == r;
    } else {
      var c, step := PlainStep(r);
      PlainNameWritten(r[step..]);
      var inner := ParseName(false, r[step..]);
      PrintedBehind(c, inner.name, inner.rest);
      assert r[..step] + r[step..] == r;
    }
  }

  lemma {:induction false} PlainTokensWritten(r: Bytes)
    requires ParseTokens(false, r).Tokens?
    ensures TokensText(false, ParseTokens(false, r).names) == Some(r)
    decreases |r|
  {
    if r != [] {
      PlainNameWritten(r[1..]);
      var name := ParseName(false, r[1..]);
      PlainTokensWritten(name.rest);
      var names := ParseTokens(false, r).names;
      assert names[0] == name.name && names[1..] == ParseTokens(false, name.rest).names;
      var text := NameText(false, name.name).value;
      assert ([SLASH] + text) + name.rest == [SLASH] + r[1..];
      assert [SLASH] + r[1..] == r;
    }
  }

  /** In plain form, printing any tokens and parsing gives them back, and parsing any text that is
      not a fragment and printing gives the text back. */
  lemma PlainRoundTrips(names: seq<Bytes>, source: Bytes)
    ensures Stringify(false, names).Some? && Parse(Stringify(false, names).value) == Tokens(names)
    ensures Parse(source).Tokens? && (source == [] || source[0] != HASH) ==>
              Stringify(false, Parse(source).names) == Some(source)
  {
    PlainTokensRead(names);
    if Parse(source).Tokens? && (source == [] || source[0] != HASH) {
      PlainTokensWritten(source);
    }
  }

  // ---------------------------------------------------------------------------
  // Fragment form.

  lemma TripletRead(c: byte, tail: Bytes)
    ensures var r := [PERCENT, HexUpper(c as nat / 16), HexUpper(c as nat % 16)] + tail;
            Triplet(r) == Some(c) && r[3..] == tail
  {
    var hi, lo := HexUpper(c as nat / 16), HexUpper(c as nat % 16);
    assert HexDigit(hi) == c as int / 16 && HexDigit(lo) == c as int % 16;
  }

  lemma {:induction false} TripletsRead(bytes: Bytes, tail: Bytes)
    ensures Triplets(PercentEncode(bytes) + tail, |bytes|) == Some(bytes)
    ensures (PercentEncode(bytes) + tail)[3 * |bytes|..] == tail
    ensures bytes != [] ==> Triplet(PercentEncode(bytes) + tail) == Some(bytes[0])
  {
    if bytes != [] {
      var c, more := bytes[0], PercentEncode(bytes[1..]) + tail;
      var first: Bytes := [PERCENT, HexUpper(c as nat / 16), HexUpper(c as nat % 16)];
      assert PercentEncode(bytes) + tail == first + more;
      TripletRead(c, more);
      TripletsRead(bytes[1..], tail);
      assert [c] + bytes[1..] == bytes;
    }
  }

  // A whole char and nothing else.
  predicate OneChar(bytes: Bytes) {
    bytes != [] && Decode(bytes).ok && Decode(bytes).used == |bytes|
  }

  lemma FirstChar(name: Bytes)
    requires name != [] && Decode(name).ok
    ensures 0 < Decode(name).used <= |name| && OneChar(name[..Decode(name).used])
    ensures name[0] < 0x80 <==> Decode(name).used == 1
  {
    DecodeThenEncode(name);
    var d := Decode(name);
    EncodeThenDecode(d.codepoint, []);
    assert Utf8(d.codepoint) + [] == name[..d.used];
    ByLead(name);
  }

  lemma LeadOfChar(bytes: Bytes)
    requires OneChar(bytes)
    ensures LeadLength(bytes[0]) == |bytes|
  {
    if bytes[0] >= 0x80 {
      ByLead(bytes);
      MasksDecide(bytes);
    }
  }

  lemma PercentRead(bytes: Bytes, tail: Bytes)
    requires OneChar(bytes) && (|bytes| == 1 ==> bytes[0] != TILDE)
    ensures ParseName(true, PercentEncode(bytes) + tail) == Longer(bytes, ParseName(true, tail))
  {
    var r := PercentEncode(bytes) + tail;
    TripletsRead(bytes, tail);
    LeadOfChar(bytes);
    assert r[0] == PERCENT;
    assert PercentChar(r) == Some(bytes);
    if |bytes| == 1 { assert bytes == [bytes[0]]; }
  }

  // A fragment can be printed for exactly the names that are UTF-8.
  lemma {:induction false} PrintableNames(name: Bytes)
    ensures NameText(true, name).Some? <==> DecodeAll(name).Some?
    decreases |name|
  {
    if name != [] {
      if name[0] < 0x80 {
        ByLead(name);
        PrintableNames(name[1..]);
        if NeedPercentEncode(name[0]) && name[0] != SLASH {
          assert Decode(name).used == 1;
        }
      } else if Decode(name).ok {
        FirstChar(name);
        PrintableNames(name[Decode(name).used..]);
      }
    }
  }

  // What is printed in a fragment for the front of a name, and how much of the name that is.
  function PieceLength(name: Bytes): (n: nat)
    requires name != []
    ensures 0 < n <= |name|
  {
    if name[0] != SLASH && NeedPercentEncode(name[0]) && Decode(name).ok then
      FirstChar(name);
      Decode(name).used
    else 1
  }

  function Piece(name: Bytes): Bytes
    requires name != []
  {
    if name[0] == TILDE || name[0] == SLASH then Printed(name[0])
    else if NeedPercentEncode(name[0]) then PercentEncode(name[..PieceLength(name)])
    else [name[0]]
  }

  lemma PieceFirst(name: Bytes)
    requires name != [] && NameText(true, name).Some?
    ensures NameText(true, name) == After(Piece(name), NameText(true, name[PieceLength(name)..]))
  {
  }

  lemma PieceRead(name: Bytes, tail: Bytes)
    requires name != [] && NameText(true, name).Some?
    ensures ParseName(true, Piece(name) + tail) == Longer(name[..PieceLength(name)], ParseName(true, tail))
  {
    var c, n := name[0], PieceLength(name);
    if c == TILDE || c == SLASH {
      EscapeRead(true, c, tail);
      assert name[..1] == [c];
    } else if NeedPercentEncode(c) {
      FirstChar(name);
      assert name[..n][0] == c;
      PercentRead(name[..n], tail);
    } else {
      CharRead(true, c, tail);
      assert name[..1] == [c];
    }
  }

  // A piece in front of what is read as the rest of a name.
  lemma NameJoined(fragment: bool, piece: Bytes, chars: Bytes, inner: Bytes, name: Bytes, rest: Bytes)
    requires ParseName(fragment, piece + (inner + rest)) == Longer(chars, ParseName(fragment, inner + rest))
    requires ParseName(fragment, inner + rest) == Name(name, rest)
    ensures ParseName(fragment, (piece + inner) + rest) == Name(chars + name, rest)
  {
    assert (piece + inner) + rest == piece + (inner + rest);
  }

  lemma {:induction false} FragmentNameRead(name: Bytes, rest: Bytes)
    requires NameText(true, name).Some? && (rest == [] || rest[0] == SLASH)
    ensures ParseName(true, NameText(true, name).value + rest) == Name(name, rest)
    decreases |name|
  {
    if name == [] {
      assert [] + rest == rest;
    } else {
      var n := PieceLength(name);
      PieceFirst(name);
      var inner := NameText(true, name[n..]).value;
      FragmentNameRead(name[n..], rest);
      PieceRead(name, inner + rest);
      NameJoined(true, Piece(name), name[..n], inner, name[n..], rest);
      assert name[..n] + name[n..] == name;
    }
  }

  lemma {:induction false} FragmentTokensRead(names: seq<Bytes>)
    requires TokensText(true, names).Some?
    ensures ParseTokens(true, TokensText(true, names).value) == Tokens(names)
  {
    if names != [] {
      FragmentTokensRead(names[1..]);
      TokensTextBegins(true, names[1..]);
      var rest := TokensText(true, names[1..]).value;
      FragmentNameRead(names[0], rest);
      TokenRead(true, NameText(true, names[0]).value, names[0], rest, names[1..]);
      assert [names[0]] + names[1..] == names;
    }
  }

  lemma {:induction false} PrintableTokens(names: seq<Bytes>)
    ensures TokensText(true, names).Some? <==> forall name | name in names :: DecodeAll(name).Some?
  {
    if names != [] {
      PrintableNames(names[0]);
      PrintableTokens(names[1..]);
      assert forall name | name in names :: name == names[0] || name in names[1..];
    }
  }

  /** As a fragment, exactly the tokens whose names are UTF-8 can be printed, and parsing what is
      printed gives them back. */
  lemma FragmentRoundTrip(names: seq<Bytes>)
    ensures Stringify(true, names).Some? <==> forall name | name in names :: DecodeAll(name).Some?
    ensures Stringify(true, names).Some? ==> Parse(Stringify(true, names).value) == Tokens(names)
  {
    PrintableTokens(names);
    if Stringify(true, names).Some? {
      FragmentTokensRead(names);
      var text := Stringify(true, names).value;
      assert text[1..] == TokensText(true, names).value;
    }
  }

  // ---------------------------------------------------------------------------
  // Sizes and indexes.

  function NameSizes(names: seq<Bytes>): nat {
    if names == [] then 0 else |names[0]| + 1 + NameSizes(names[1..])
  }

  lemma {:induction false} TokensFit(fragment: bool, r: Bytes)
    requires ParseTokens(fragment, r).Tokens?
    ensures NameSizes(ParseTokens(fragment, r).names) <= |r|
    decreases |r|
  {
    if r != [] {
      var name := ParseName(fragment, r[1..]);
      TokensFit(fragment, name.rest);
      var names := ParseTokens(fragment, r).names;
      assert names[0] == name.name && names[1..] == ParseTokens(fragment, name.rest).names;
    }
  }

  /** The decoded names with their terminators never need more room than the source has bytes. */
  lemma NamesFit(source: Bytes)
    requires Parse(source).Tokens?
    ensures NameSizes(Parse(source).names) <= |source|
  {
    if source != [] && source[0] == HASH {
      TokensFit(true, source[1..]);
    } else {
      TokensFit(false, source);
    }
  }
}
