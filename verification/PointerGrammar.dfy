/** The texts of JSON Pointers (sections 3, 4 and 6 of RFC 6901) as pieces: what each is spelled as and
    stands for, and that Parse takes exactly these texts. */
module PointerGrammar {
  import opened BigIntBytes
  import opened JsonText
  import opened JsonGrammar
  import JsonSpelling
  import JsonLanguage
  import opened PointerText
  import opened Unicode
  import opened Options

  // A percent-encoded byte, its two digits in either case.
  type Triple = hs: seq<Hex> | |hs| == 2 && hs[0].value < 16 && hs[1].value < 16 witness [Hex(0, false), Hex(0, false)]

  function TripleByte(t: Triple): byte {
    (16 * t[0].value + t[1].value) as byte
  }

  function SpelledTriple(t: Triple): Bytes {
    [0x25, SpelledHex(t[0]), SpelledHex(t[1])]
  }

  // A byte for itself, a percent-encoded UTF-8 character, or an escape: a tilde, perhaps percent-encoded, and a digit.
  datatype Piece = Itself(c: byte) | Percents(ts: seq<Triple>) | Tilde(percent: Option<Triple>, one: bool)

  function TripleBytes(ts: seq<Triple>): (bytes: Bytes)
    ensures |bytes| == |ts|
  {
    if ts == [] then [] else [TripleByte(ts[0])] + TripleBytes(ts[1..])
  }

  function SpelledTriples(ts: seq<Triple>): (text: Bytes)
    ensures |text| == 3 * |ts|
  {
    if ts == [] then [] else SpelledTriple(ts[0]) + SpelledTriples(ts[1..])
  }

  // Section 2.3 of RFC 3986: letters, digits, '-', '.', '_' and '~'.
  predicate Unreserved(c: byte) {
    0x61 <= c <= 0x7A || 0x41 <= c <= 0x5A || 0x30 <= c <= 0x39 || c in {0x2D, 0x2E, 0x5F, 0x7E}
  }

  predicate ProperPiece(fragment: bool, x: Piece) {
    match x
    case Itself(c) => c != 0x2F && c != 0x7E && (fragment ==> Unreserved(c))
    case Percents(ts) =>
      fragment && ts != [] && CharLength(TripleBytes(ts)) == |ts| && TripleBytes(ts) != [0x7E]
    case Tilde(percent, _) => percent.Some? ==> fragment && TripleByte(percent.value) == 0x7E
  }

  function SpelledPiece(x: Piece): (text: Bytes)
    ensures x.Percents? || text != []
  {
    match x
    case Itself(c) => [c]
    case Percents(ts) => SpelledTriples(ts)
    case Tilde(percent, one) =>
      (if percent.Some? then SpelledTriple(percent.value) else [0x7E]) + [if one then 0x31 else 0x30]
  }

  function PieceName(x: Piece): Bytes {
    match x
    case Itself(c) => [c]
    case Percents(ts) => TripleBytes(ts)
    case Tilde(_, one) => [if one then 0x2F else 0x7E]
  }

  predicate ProperPieces(fragment: bool, xs: seq<Piece>) {
    forall i | 0 <= i < |xs| :: ProperPiece(fragment, xs[i])
  }

  function SpelledPieces(xs: seq<Piece>): Bytes {
    if xs == [] then [] else SpelledPiece(xs[0]) + SpelledPieces(xs[1..])
  }

  function PiecesName(xs: seq<Piece>): Bytes {
    if xs == [] then [] else PieceName(xs[0]) + PiecesName(xs[1..])
  }

  // A pointer: its tokens, each behind a '/', and a '#' in front of them in a fragment.
  datatype Pointer = Pointer(fragment: bool, tokens: seq<seq<Piece>>)

  predicate ProperTokens(fragment: bool, tokens: seq<seq<Piece>>) {
    forall i | 0 <= i < |tokens| :: ProperPieces(fragment, tokens[i])
  }

  function SpelledTokens(tokens: seq<seq<Piece>>): (text: Bytes)
    ensures text == [] || text[0] == 0x2F
  {
    if tokens == [] then [] else [0x2F] + SpelledPieces(tokens[0]) + SpelledTokens(tokens[1..])
  }

  function TokensNames(tokens: seq<seq<Piece>>): seq<Bytes> {
    if tokens == [] then [] else [PiecesName(tokens[0])] + TokensNames(tokens[1..])
  }

  predicate SpellsPointer(p: Pointer, source: Bytes) {
    ProperTokens(p.fragment, p.tokens) && source == (if p.fragment then [0x23] else []) + SpelledTokens(p.tokens)
  }

  // ---------------------------------------------------------------------------
  // Parse takes what is spelled.

  lemma TripleRead(t: Triple, tail: Bytes)
    ensures Triplet(SpelledTriple(t) + tail) == Some(TripleByte(t)) && (SpelledTriple(t) + tail)[3..] == tail
  {
    assert HexDigit(SpelledHex(t[0])) == t[0].value && HexDigit(SpelledHex(t[1])) == t[1].value;
  }

  lemma {:induction false} TriplesRead(ts: seq<Triple>, tail: Bytes)
    ensures Triplets(SpelledTriples(ts) + tail, |ts|) == Some(TripleBytes(ts))
    ensures (SpelledTriples(ts) + tail)[3 * |ts|..] == tail
    ensures ts != [] ==> Triplet(SpelledTriples(ts) + tail) == Some(TripleBytes(ts)[0])
  {
    if ts != [] {
      var more := SpelledTriples(ts[1..]) + tail;
      assert SpelledTriples(ts) + tail == SpelledTriple(ts[0]) + more;
      TripleRead(ts[0], more);
      TriplesRead(ts[1..], tail);
    }
  }

  lemma WholeChar(bytes: Bytes)
    ensures OneChar(bytes) <==> bytes != [] && CharLength(bytes) == |bytes|
  {
    if bytes != [] { AcceptsTheSyntax(bytes); }
  }

  lemma PercentsRead(ts: seq<Triple>, tail: Bytes)
    requires ProperPiece(true, Percents(ts))
    ensures ParseName(true, SpelledTriples(ts) + tail) == Longer(TripleBytes(ts), ParseName(true, tail))
  {
    var r, bytes := SpelledTriples(ts) + tail, TripleBytes(ts);
    TriplesRead(ts, tail);
    WholeChar(bytes);
    LeadOfChar(bytes);
    assert r[0] == PERCENT && PercentChar(r) == Some(bytes);
    if |bytes| == 1 { assert bytes == [bytes[0]]; }
  }

  lemma DigitBehindTilde(fragment: bool, one: bool, tail: Bytes)
    ensures ParseChar(fragment, TILDE, [if one then ONE else ZERO] + tail)
            == Longer([if one then SLASH else TILDE], ParseName(fragment, tail))
  {
    assert ([if one then ONE else ZERO] + tail)[1..] == tail;
  }

  lemma TildeRead(fragment: bool, x: Piece, tail: Bytes)
    requires x.Tilde? && ProperPiece(fragment, x)
    ensures ParseName(fragment, SpelledPiece(x) + tail) == Longer(PieceName(x), ParseName(fragment, tail))
  {
    var digit: Bytes := [if x.one then ONE else ZERO];
    if x.percent.None? {
      JsonSpelling.TwoInFront([TILDE], digit, tail);
      EscapeRead(fragment, if x.one then SLASH else TILDE, tail);
    } else {
      JsonSpelling.TwoInFront(SpelledTriple(x.percent.value), digit, tail);
      PercentTildeRead(x.percent.value, digit + tail);
      DigitBehindTilde(fragment, x.one, tail);
    }
  }

  lemma PercentTildeRead(t: Triple, rest: Bytes)
    requires TripleByte(t) == TILDE
    ensures ParseName(true, SpelledTriple(t) + rest) == ParseChar(true, TILDE, rest)
  {
    var r := SpelledTriple(t) + rest;
    TripleRead(t, rest);
    assert [t][1..] == [] && SpelledTriples([t]) == SpelledTriple(t) && TripleBytes([t]) == [TILDE];
    TriplesRead([t], rest);
    WholeChar([TILDE]);
    LeadOfChar([TILDE]);
    assert PercentChar(r) == Some([TILDE]);
  }

  lemma PieceIsRead(fragment: bool, x: Piece, tail: Bytes)
    requires ProperPiece(fragment, x)
    ensures ParseName(fragment, SpelledPiece(x) + tail) == Longer(PieceName(x), ParseName(fragment, tail))
  {
    match x
    case Itself(c) => ItselfRead(fragment, c, tail);
    case Percents(ts) => PercentsRead(ts, tail);
    case Tilde(_, _) => TildeRead(fragment, x, tail);
  }

  lemma ItselfRead(fragment: bool, c: byte, tail: Bytes)
    requires ProperPiece(fragment, Itself(c))
    ensures ParseName(fragment, [c] + tail) == Longer([c], ParseName(fragment, tail))
  {
    CharRead(fragment, c, tail);
  }

  lemma {:induction false} PiecesRead(fragment: bool, xs: seq<Piece>, rest: Bytes)
    requires ProperPieces(fragment, xs) && (rest == [] || rest[0] == SLASH)
    ensures ParseName(fragment, SpelledPieces(xs) + rest) == Name(PiecesName(xs), rest)
  {
    if xs == [] {
      assert [] + rest == rest;
    } else {
      PiecesRead(fragment, xs[1..], rest);
      PieceIsRead(fragment, xs[0], SpelledPieces(xs[1..]) + rest);
      JsonSpelling.TwoInFront(SpelledPiece(xs[0]), SpelledPieces(xs[1..]), rest);
    }
  }

  lemma {:induction false} TokensRead(fragment: bool, tokens: seq<seq<Piece>>)
    requires ProperTokens(fragment, tokens)
    ensures ParseTokens(fragment, SpelledTokens(tokens)) == Tokens(TokensNames(tokens))
  {
    if tokens != [] {
      var rest := SpelledTokens(tokens[1..]);
      TokensRead(fragment, tokens[1..]);
      PiecesRead(fragment, tokens[0], rest);
      TokenRead(fragment, SpelledPieces(tokens[0]), PiecesName(tokens[0]), rest, TokensNames(tokens[1..]));
    }
  }

  // ---------------------------------------------------------------------------
  // What Parse takes is spelled.

  lemma TripleTaken(r: Bytes) returns (t: Triple)
    requires Triplet(r).Some?
    ensures r == SpelledTriple(t) + r[3..] && Triplet(r) == Some(TripleByte(t))
  {
    t := [JsonLanguage.HexOf(r[1]), JsonLanguage.HexOf(r[2])];
    assert r[..3] == SpelledTriple(t);
    assert r == r[..3] + r[3..];
  }

  lemma {:induction false} TriplesTaken(r: Bytes, n: nat) returns (ts: seq<Triple>)
    requires Triplets(r, n).Some?
    ensures |ts| == n && r == SpelledTriples(ts) + r[3 * n..] && Triplets(r, n) == Some(TripleBytes(ts))
  {
    if n == 0 {
      ts := [];
    } else {
      var t := TripleTaken(r);
      var others := TriplesTaken(r[3..], n - 1);
      ts := [t] + others;
      assert ts[1..] == others && r[3..][3 * (n - 1)..] == r[3 * n..];
      JsonSpelling.TwoInFront(SpelledTriple(t), SpelledTriples(others), r[3 * n..]);
    }
  }

  lemma PercentCharIsWhole(r: Bytes)
    requires PercentChar(r).Some?
    ensures var bytes := PercentChar(r).value;
            bytes != [] && CharLength(bytes) == |bytes| && Triplets(r, |bytes|) == Some(bytes)
  {
    var bytes := PercentChar(r).value;
    assert bytes[0] == Triplet(r).value;
    FirstChar(bytes);
    LeadOfChar(bytes[..Decode(bytes).used]);
    WholeChar(bytes);
  }

  // The first piece of a name.
  lemma PercentsTaken(r: Bytes) returns (x: Piece, behind: Bytes)
    requires ParseName(true, r).Name? && r != [] && r[0] == PERCENT
    ensures ProperPiece(true, x) && r == SpelledPiece(x) + behind && |behind| < |r|
    ensures ParseName(true, r) == Longer(PieceName(x), ParseName(true, behind))
  {
    PercentCharIsWhole(r);
    var bytes := PercentChar(r).value;
    var ts := TriplesTaken(r, |bytes|);
    var rest := r[3 * |bytes|..];
    if bytes != [TILDE] {
      x, behind := Percents(ts), rest;
      if |bytes| == 1 { assert bytes == [bytes[0]]; }
    } else {
      x, behind := Tilde(Some(ts[0]), rest[0] == ONE), rest[1..];
      assert ts == [ts[0]] && ts[1..] == [] && SpelledTriples(ts) == SpelledTriple(ts[0]);
      assert rest == [rest[0]] + behind;
      JsonSpelling.TwoInFront(SpelledTriple(ts[0]), [rest[0]], behind);
    }
  }

  lemma PieceTaken(fragment: bool, r: Bytes) returns (x: Piece, behind: Bytes)
    requires ParseName(fragment, r).Name? && r != [] && r[0] != SLASH
    ensures ProperPiece(fragment, x) && r == SpelledPiece(x) + behind && |behind| < |r|
    ensures ParseName(fragment, r) == Longer(PieceName(x), ParseName(fragment, behind))
  {
    if fragment && r[0] == PERCENT {
      x, behind := PercentsTaken(r);
    } else if r[0] == TILDE {
      x, behind := Tilde(None, r[1] == ONE), r[2..];
      assert r[1..][1..] == behind && r == [r[0], r[1]] + behind;
    } else {
      x, behind := Itself(r[0]), r[1..];
      assert r == [r[0]] + behind;
    }
  }

  lemma PieceInFront(fragment: bool, x: Piece, xs: seq<Piece>, rest: Bytes)
    requires ProperPiece(fragment, x) && ProperPieces(fragment, xs)
    ensures ProperPieces(fragment, [x] + xs) && PiecesName([x] + xs) == PieceName(x) + PiecesName(xs)
    ensures SpelledPieces([x] + xs) + rest == SpelledPiece(x) + (SpelledPieces(xs) + rest)
  {
    assert ([x] + xs)[1..] == xs;
    JsonSpelling.TwoInFront(SpelledPiece(x), SpelledPieces(xs), rest);
  }

  lemma {:induction false} PiecesTaken(fragment: bool, r: Bytes) returns (xs: seq<Piece>)
    requires ParseName(fragment, r).Name?
    ensures var result := ParseName(fragment, r);
            ProperPieces(fragment, xs) && r == SpelledPieces(xs) + result.rest && PiecesName(xs) == result.name
    decreases |r|
  {
    if r == [] || r[0] == SLASH {
      xs := [];
    } else {
      var x, behind := PieceTaken(fragment, r);
      var others := PiecesTaken(fragment, behind);
      xs := [x] + others;
      PieceInFront(fragment, x, others, ParseName(fragment, r).rest);
    }
  }

  lemma SlashInFront(r: Bytes, text: Bytes, rest: Bytes)
    requires r != [] && r[0] == SLASH && r[1..] == text + rest
    ensures r == [SLASH] + text + rest
  {
    assert r == [SLASH] + r[1..];
  }

  lemma TokenInFront(fragment: bool, xs: seq<Piece>, tokens: seq<seq<Piece>>)
    requires ProperPieces(fragment, xs) && ProperTokens(fragment, tokens)
    ensures ProperTokens(fragment, [xs] + tokens)
    ensures SpelledTokens([xs] + tokens) == [SLASH] + SpelledPieces(xs) + SpelledTokens(tokens)
    ensures TokensNames([xs] + tokens) == [PiecesName(xs)] + TokensNames(tokens)
  {
    assert ([xs] + tokens)[1..] == tokens;
  }

  lemma {:induction false} TokensTaken(fragment: bool, r: Bytes) returns (tokens: seq<seq<Piece>>)
    requires ParseTokens(fragment, r).Tokens?
    ensures ProperTokens(fragment, tokens) && r == SpelledTokens(tokens)
    ensures TokensNames(tokens) == ParseTokens(fragment, r).names
    decreases |r|
  {
    if r == [] {
      tokens := [];
    } else {
      var name := ParseName(fragment, r[1..]);
      var xs := PiecesTaken(fragment, r[1..]);
      var others := TokensTaken(fragment, name.rest);
      tokens := [xs] + others;
      TokenInFront(fragment, xs, others);
      SlashInFront(r, SpelledPieces(xs), name.rest);
    }
  }

  lemma PointerTaken(source: Bytes) returns (p: Pointer)
    requires Parse(source).Tokens?
    ensures SpellsPointer(p, source)
  {
    var fragment := source != [] && source[0] == HASH;
    var tokens := TokensTaken(fragment, if fragment then source[1..] else source);
    p := Pointer(fragment, tokens);
    assert source == (if fragment then [HASH] else []) + (if fragment then source[1..] else source);
  }

  lemma PointerRead(p: Pointer, source: Bytes)
    requires SpellsPointer(p, source)
    ensures Parse(source) == Tokens(TokensNames(p.tokens))
  {
    TokensRead(p.fragment, p.tokens);
    assert [] + SpelledTokens(p.tokens) == SpelledTokens(p.tokens);
    assert p.fragment ==> source[1..] == SpelledTokens(p.tokens);
  }

  /** Parse takes exactly the pointers that the grammar spells, percent-encoding in digits of either case included,
      and gives the names that they stand for. */
  lemma ExactPointers(source: Bytes)
    ensures Parse(source).Tokens? <==> exists p :: SpellsPointer(p, source)
    ensures forall p | SpellsPointer(p, source) :: Parse(source) == Tokens(TokensNames(p.tokens))
  {
    if Parse(source).Tokens? {
      var p := PointerTaken(source);
    }
    forall p | SpellsPointer(p, source) ensures Parse(source) == Tokens(TokensNames(p.tokens)) {
      PointerRead(p, source);
    }
  }

  // ---------------------------------------------------------------------------
  // What is printed is the shortest.

  // The front of a name, printed, and the rest of it behind.
  lemma CharPrinted(bytes: Bytes, name: Bytes)
    requires OneChar(bytes) && NameText(true, name).Some?
    ensures var n := if |bytes| == 1 && (bytes[0] == TILDE || bytes[0] == SLASH) then 2
                     else if |bytes| == 1 && !NeedPercentEncode(bytes[0]) then 1 else 3 * |bytes|;
            && NameText(true, bytes + name).Some?
            && |NameText(true, bytes + name).value| == n + |NameText(true, name).value|
  {
    var d := Decode(bytes);
    DecodeThenEncode(bytes);
    EncodeThenDecode(d.codepoint, name);
    assert bytes[..|bytes|] == bytes;
    assert (bytes + name)[|bytes|..] == name && (bytes + name)[0] == bytes[0];
    LeadOfChar(bytes);
    if |bytes| == 1 { assert (bytes + name)[1..] == name; }
  }

  lemma PieceShortest(x: Piece, name: Bytes)
    requires ProperPiece(true, x) && NameText(true, name).Some?
    ensures NameText(true, PieceName(x) + name).Some?
    ensures |NameText(true, PieceName(x) + name).value| <= |SpelledPiece(x)| + |NameText(true, name).value|
  {
    match x
    case Itself(c) =>
      WholeChar([c]);
      CharPrinted([c], name);
    case Percents(ts) =>
      WholeChar(TripleBytes(ts));
      CharPrinted(TripleBytes(ts), name);
    case Tilde(_, one) =>
      WholeChar(PieceName(x));
      CharPrinted(PieceName(x), name);
  }

  lemma {:induction false} PiecesShortest(xs: seq<Piece>)
    requires ProperPieces(true, xs)
    ensures NameText(true, PiecesName(xs)).Some? && |NameText(true, PiecesName(xs)).value| <= |SpelledPieces(xs)|
  {
    if xs != [] {
      PiecesShortest(xs[1..]);
      PieceShortest(xs[0], PiecesName(xs[1..]));
    }
  }

  lemma {:induction false} TokensShortest(tokens: seq<seq<Piece>>)
    requires ProperTokens(true, tokens)
    ensures var names := TokensNames(tokens);
            TokensText(true, names).Some? && |TokensText(true, names).value| <= |SpelledTokens(tokens)|
  {
    if tokens != [] {
      PiecesShortest(tokens[0]);
      TokensShortest(tokens[1..]);
      assert TokensNames(tokens)[1..] == TokensNames(tokens[1..]);
    }
  }

  /** Of all fragments that are parsed to the same names, none is shorter than the one that is printed for them. */
  lemma PrintedIsShortest(source: Bytes)
    requires source != [] && source[0] == HASH && Parse(source).Tokens?
    ensures var text := Stringify(true, Parse(source).names); text.Some? && |text.value| <= |source|
  {
    var tokens := TokensTaken(true, source[1..]);
    TokensShortest(tokens);
  }
}
