/** UTF-8 and UTF-16: encoding, the decoding automaton, and validation, against section 4 of RFC 3629
    and section 2 of RFC 2781. */
module Unicode {
  import opened BigIntBytes
  import opened JsonText
  import opened Options
  import opened ReaderNumbers

  predicate Scalar(codepoint: int) {
    0 <= codepoint <= 0x10_FFFF && !(0xD800 <= codepoint <= 0xDFFF)
  }

  // The table of GetRange. The three classes of continuation bytes are single bits.
  function GetRange(c: byte): nat {
    if c < 0x80 then 0
    else if c < 0x90 then 0x10
    else if c < 0xA0 then 0x40
    else if c < 0xC0 then 0x20
    else if c < 0xC2 then 8
    else if c < 0xE0 then 2
    else if c == 0xE0 then 10
    else if c < 0xED then 3
    else if c == 0xED then 4
    else if c < 0xF0 then 3
    else if c == 0xF0 then 11
    else if c < 0xF4 then 6
    else if c == 0xF4 then 5
    else 8
  }

  // GetRange(c) & mask is not 0: the masks have bits of the continuation classes only.
  predicate Allowed(c: byte, mask: nat) {
    var bit := GetRange(c);
    bit >= 0x10 && mask / bit % 2 == 1
  }

  lemma MasksAreIntervals(c: byte)
    ensures Allowed(c, 0x70) <==> 0x80 <= c < 0xC0
    ensures Allowed(c, 0x50) <==> 0x80 <= c < 0xA0
    ensures Allowed(c, 0x10) <==> 0x80 <= c < 0x90
    ensures Allowed(c, 0x20) <==> 0xA0 <= c < 0xC0
    ensures Allowed(c, 0x60) <==> 0x90 <= c < 0xC0
  {
  }

  // ---------------------------------------------------------------------------
  // The syntax of the RFC.

  predicate IsTail(c: byte) {
    0x80 <= c <= 0xBF
  }

  predicate TailsAt(r: Bytes, from: nat, to: nat) {
    to <= |r| && forall i | from <= i < to :: IsTail(r[i])
  }

  // The length of the UTF8-char at the front of r, 0 if there is none.
  function CharLength(r: Bytes): (n: nat)
    ensures n <= |r| && n <= 4
  {
    if r == [] then 0
    else
      var c := r[0];
      if c <= 0x7F then 1
      else if 0xC2 <= c <= 0xDF && TailsAt(r, 1, 2) then 2
      else if |r| < 3 then 0
      else
        var d := r[1];
        if c == 0xE0 && 0xA0 <= d <= 0xBF && TailsAt(r, 2, 3) then 3
        else if 0xE1 <= c <= 0xEC && TailsAt(r, 1, 3) then 3
        else if c == 0xED && 0x80 <= d <= 0x9F && TailsAt(r, 2, 3) then 3
        else if 0xEE <= c <= 0xEF && TailsAt(r, 1, 3) then 3
        else if c == 0xF0 && 0x90 <= d <= 0xBF && TailsAt(r, 2, 4) then 4
        else if 0xF1 <= c <= 0xF3 && TailsAt(r, 1, 4) then 4
        else if c == 0xF4 && 0x80 <= d <= 0x8F && TailsAt(r, 2, 4) then 4
        else 0
  }

  // ---------------------------------------------------------------------------
  // The automaton. A stream that has ended yields NULs.

  function At(r: Bytes, k: nat): byte {
    if k < |r| then r[k] else 0
  }

  // The codepoint so far with six more bits.
  function More(codepoint: nat, c: byte): nat {
    codepoint * 64 + c as nat % 64
  }

  datatype Decoded = Decoded(ok: bool, codepoint: nat, used: nat)

  function Decode(r: Bytes): Decoded {
    var c, d, e, f := At(r, 0), At(r, 1), At(r, 2), At(r, 3);
    if c < 0x80 then Decoded(true, c as nat, 1)
    else match GetRange(c)
      case 2 => Decoded(Allowed(d, 0x70), More(c as nat % 64, d), 2)
      case 3 => Decoded(Allowed(d, 0x70) && Allowed(e, 0x70), More(More(c as nat % 32, d), e), 3)
      case 4 => Decoded(Allowed(d, 0x50) && Allowed(e, 0x70), More(More(c as nat % 16, d), e), 3)
      case 5 =>
        Decoded(Allowed(d, 0x10) && Allowed(e, 0x70) && Allowed(f, 0x70), More(More(More(c as nat % 8, d), e), f), 4)
      case 6 =>
        Decoded(Allowed(d, 0x70) && Allowed(e, 0x70) && Allowed(f, 0x70), More(More(More(c as nat % 4, d), e), f), 4)
      case 10 => Decoded(Allowed(d, 0x20) && Allowed(e, 0x70), More(More(0, d), e), 3)
      case 11 =>
        Decoded(Allowed(d, 0x60) && Allowed(e, 0x70) && Allowed(f, 0x70), More(More(More(0, d), e), f), 4)
      case _ => Decoded(false, 0, 1)
  }

  // The second byte that the automaton allows behind a lead byte of three or four.
  predicate SecondAllowed(c: byte, d: byte) {
    IsTail(d) && (c == 0xE0 ==> d >= 0xA0) && (c == 0xED ==> d < 0xA0) && (c == 0xF0 ==> d >= 0x90)
    && (c == 0xF4 ==> d < 0x90)
  }

  // The automaton by its lead byte, with intervals for the masks.
  lemma LeadOfTwo(r: Bytes)
    requires 0xC2 <= At(r, 0) < 0xE0
    ensures Decode(r) == Decoded(IsTail(At(r, 1)), More(At(r, 0) as nat - 0xC0, At(r, 1)), 2)
  {
    MasksAreIntervals(At(r, 1));
    assert GetRange(At(r, 0)) == 2;
  }

  lemma LeadOfThree(r: Bytes)
    requires 0xE0 <= At(r, 0) < 0xF0
    ensures var c, d, e := At(r, 0), At(r, 1), At(r, 2);
            Decode(r) == Decoded(SecondAllowed(c, d) && IsTail(e), More(More(c as nat - 0xE0, d), e), 3)
  {
    MasksAreIntervals(At(r, 1));
    MasksAreIntervals(At(r, 2));
    var c := At(r, 0);
    assert GetRange(c) == if c == 0xE0 then 10 else if c == 0xED then 4 else 3;
    assert c as nat % 16 == c as nat - 0xE0 && c as nat % 32 == c as nat - 0xE0;
  }

  lemma LeadOfFour(r: Bytes)
    requires 0xF0 <= At(r, 0) < 0xF5
    ensures var c, d, e, f := At(r, 0), At(r, 1), At(r, 2), At(r, 3);
            Decode(r) == Decoded(SecondAllowed(c, d) && IsTail(e) && IsTail(f),
                                 More(More(More(c as nat - 0xF0, d), e), f), 4)
  {
    MasksAreIntervals(At(r, 1));
    MasksAreIntervals(At(r, 2));
    MasksAreIntervals(At(r, 3));
    var c := At(r, 0);
    assert GetRange(c) == if c == 0xF0 then 11 else if c == 0xF4 then 5 else 6;
    assert c < 0xF4 ==> c as nat % 4 == c as nat - 0xF0;
    assert c as nat % 8 == c as nat - 0xF0;
  }

  lemma OtherLeads(r: Bytes)
    requires var c := At(r, 0); c < 0xC2 || 0xF5 <= c
    ensures At(r, 0) < 0x80 ==> Decode(r) == Decoded(true, At(r, 0) as nat, 1)
    ensures At(r, 0) >= 0x80 ==> !Decode(r).ok
  {
  }

  lemma ByLead(r: Bytes)
    ensures var c, d, e, f := At(r, 0), At(r, 1), At(r, 2), At(r, 3);
            && (c < 0x80 ==> Decode(r) == Decoded(true, c as nat, 1))
            && (0x80 <= c < 0xC2 || 0xF5 <= c ==> !Decode(r).ok)
            && (0xC2 <= c < 0xE0 ==> Decode(r) == Decoded(IsTail(d), More(c as nat - 0xC0, d), 2))
            && (0xE0 <= c < 0xF0 ==>
                  Decode(r) == Decoded(SecondAllowed(c, d) && IsTail(e), More(More(c as nat - 0xE0, d), e), 3))
            && (0xF0 <= c < 0xF5 ==>
                  Decode(r) == Decoded(SecondAllowed(c, d) && IsTail(e) && IsTail(f),
                                       More(More(More(c as nat - 0xF0, d), e), f), 4))
  {
    var c := At(r, 0);
    if c < 0xC2 || 0xF5 <= c {
      OtherLeads(r);
    } else if c < 0xE0 {
      LeadOfTwo(r);
    } else if c < 0xF0 {
      LeadOfThree(r);
    } else {
      LeadOfFour(r);
    }
  }

  /** The automaton accepts exactly the syntax of the RFC, and takes exactly the bytes of the char. */
  lemma AcceptsTheSyntax(r: Bytes)
    requires r != []
    ensures Decode(r).ok <==> CharLength(r) > 0
    ensures Decode(r).ok ==> Decode(r).used == CharLength(r)
  {
    ByLead(r);
  }

  // Adding six bits and taking them off again.
  lemma MoreParts(codepoint: nat, d: byte)
    requires IsTail(d)
    ensures More(codepoint, d) / 64 == codepoint && 0x80 + More(codepoint, d) % 64 == d as nat
  {
    assert d as nat % 64 == d as nat - 0x80;
  }

  lemma SixBits(n: nat)
    ensures n / 64 / 64 == n / 4096 && n / 4096 / 64 == n / 0x4_0000
    ensures n == (n / 64) * 64 + n % 64
  {
  }

  lemma ThreeBytes(c: byte, d: byte, e: byte)
    requires 0xE0 <= c < 0xF0 && SecondAllowed(c, d) && IsTail(e)
    ensures var codepoint := More(More(c as nat - 0xE0, d), e);
            Scalar(codepoint) && codepoint > 0x7FF && Utf8(codepoint) == [c, d, e]
  {
    var two := More(c as nat - 0xE0, d);
    var three := More(two, e);
    MoreParts(c as nat - 0xE0, d);
    MoreParts(two, e);
    SixBits(three);
    assert 0x7FF < three <= 0xFFFF && Scalar(three);
    assert three / 64 == two && three / 4096 == c as nat - 0xE0;
  }

  lemma FourBytes(c: byte, d: byte, e: byte, f: byte)
    requires 0xF0 <= c < 0xF5 && SecondAllowed(c, d) && IsTail(e) && IsTail(f)
    ensures var codepoint := More(More(More(c as nat - 0xF0, d), e), f);
            Scalar(codepoint) && codepoint > 0xFFFF && Utf8(codepoint) == [c, d, e, f]
  {
    var two := More(c as nat - 0xF0, d);
    var three := More(two, e);
    var four := More(three, f);
    MoreParts(c as nat - 0xF0, d);
    MoreParts(two, e);
    MoreParts(three, f);
    SixBits(three);
    SixBits(four);
    assert 0xFFFF < four <= 0x10_FFFF;
    assert four / 64 == three && four / 4096 == two && four / 0x4_0000 == c as nat - 0xF0;
  }

  /** What it accepts is a scalar value, and encoding that gives the same bytes back. */
  lemma DecodeThenEncode(r: Bytes)
    requires r != [] && Decode(r).ok
    ensures var d := Decode(r);
            0 < d.used <= |r| && Scalar(d.codepoint) && Utf8(d.codepoint) == r[..d.used]
  {
    AcceptsTheSyntax(r);
    ByLead(r);
    var c := r[0];
    if c < 0x80 {
      assert r[..1] == [c];
    } else if c < 0xE0 {
      MoreParts(c as nat - 0xC0, r[1]);
      assert r[..2] == [c, r[1]];
    } else if c < 0xF0 {
      ThreeBytes(c, r[1], r[2]);
      assert r[..3] == [c, r[1], r[2]];
    } else {
      FourBytes(c, r[1], r[2], r[3]);
      assert r[..4] == [c, r[1], r[2], r[3]];
    }
  }

  // The encoding of a scalar value by its length.
  lemma EncodedThree(codepoint: nat)
    requires 0x7FF < codepoint <= 0xFFFF && Scalar(codepoint)
    ensures var b := Utf8(codepoint);
            && |b| == 3 && 0xE0 <= b[0] < 0xF0 && SecondAllowed(b[0], b[1]) && IsTail(b[2])
            && codepoint == More(More(b[0] as nat - 0xE0, b[1]), b[2])
  {
    SixBits(codepoint);
    SixBits(codepoint / 64);
    assert codepoint / 4096 < 16;
  }

  lemma EncodedFour(codepoint: nat)
    requires 0xFFFF < codepoint <= 0x10_FFFF
    ensures var b := Utf8(codepoint);
            && |b| == 4 && 0xF0 <= b[0] < 0xF5 && SecondAllowed(b[0], b[1]) && IsTail(b[2]) && IsTail(b[3])
            && codepoint == More(More(More(b[0] as nat - 0xF0, b[1]), b[2]), b[3])
  {
    SixBits(codepoint);
    SixBits(codepoint / 64);
    SixBits(codepoint / 4096);
    assert codepoint / 0x4_0000 < 5;
  }

  /** Every scalar value comes back from its encoding, whatever follows. */
  lemma EncodeThenDecode(codepoint: nat, rest: Bytes)
    requires Scalar(codepoint)
    ensures Decode(Utf8(codepoint) + rest) == Decoded(true, codepoint, |Utf8(codepoint)|)
  {
    var bytes := Utf8(codepoint);
    var r := bytes + rest;
    assert forall i | 0 <= i < |bytes| :: At(r, i) == bytes[i];
    ByLead(r);
    if 0x7F < codepoint <= 0x7FF {
      SixBits(codepoint);
    } else if 0x7FF < codepoint <= 0xFFFF {
      EncodedThree(codepoint);
    } else if codepoint > 0xFFFF {
      EncodedFour(codepoint);
    }
  }

  // ---------------------------------------------------------------------------
  // Whole texts.

  predicate AllScalar(codepoints: seq<nat>) {
    forall i | 0 <= i < |codepoints| :: Scalar(codepoints[i])
  }

  function EncodeAll(codepoints: seq<nat>): Bytes
    requires AllScalar(codepoints)
  {
    if codepoints == [] then [] else Utf8(codepoints[0]) + EncodeAll(codepoints[1..])
  }

  function DecodeAll(bytes: Bytes): Option<seq<nat>>
    decreases |bytes|
  {
    if bytes == [] then Some([])
    else
      var d := Decode(bytes);
      if !d.ok then None
      else
        DecodeThenEncode(bytes);
        match DecodeAll(bytes[d.used..])
        case None => None
        case Some(rest) => Some([d.codepoint] + rest)
  }

  /** Encoding any scalar values and decoding gives them back. */
  lemma {:induction false} TextsDecode(codepoints: seq<nat>)
    requires AllScalar(codepoints)
    ensures DecodeAll(EncodeAll(codepoints)) == Some(codepoints)
  {
    if codepoints != [] {
      var first, rest := Utf8(codepoints[0]), EncodeAll(codepoints[1..]);
      EncodeThenDecode(codepoints[0], rest);
      TextsDecode(codepoints[1..]);
      assert (first + rest)[|first|..] == rest;
      assert [codepoints[0]] + codepoints[1..] == codepoints;
    }
  }

  /** Decoding any bytes gives, if anything, scalar values whose encoding is those bytes. */
  lemma {:induction false} TextsEncode(bytes: Bytes)
    requires DecodeAll(bytes).Some?
    ensures AllScalar(DecodeAll(bytes).value) && EncodeAll(DecodeAll(bytes).value) == bytes
    decreases |bytes|
  {
    if bytes != [] {
      var d := Decode(bytes);
      DecodeThenEncode(bytes);
      TextsEncode(bytes[d.used..]);
      var rest := DecodeAll(bytes[d.used..]).value;
      assert ([d.codepoint] + rest)[1..] == rest;
      assert bytes[..d.used] + bytes[d.used..] == bytes;
    }
  }

  // ---------------------------------------------------------------------------
  // UTF-16.

  function Utf16(codepoint: nat): (units: seq<nat>)
    requires Scalar(codepoint)
    ensures 1 <= |units| <= 2
  {
    if codepoint <= 0xFFFF then [codepoint]
    else [0xD800 + (codepoint - 0x1_0000) / 0x400, 0xDC00 + (codepoint - 0x1_0000) % 0x400]
  }

  function Decode16(units: seq<nat>): Decoded
    requires units != []
  {
    var c := units[0];
    if c < 0xD800 || c > 0xDFFF then Decoded(true, c, 1)
    else if c <= 0xDBFF then
      var d := if |units| > 1 then units[1] else 0;
      Decoded(0xDC00 <= d <= 0xDFFF, c % 0x400 * 0x400 + d % 0x400 + 0x1_0000, 2)
    else Decoded(false, 0, 1)
  }

  lemma Utf16ThenDecode(codepoint: nat, rest: seq<nat>)
    requires Scalar(codepoint)
    ensures Decode16(Utf16(codepoint) + rest) == Decoded(true, codepoint, |Utf16(codepoint)|)
  {
    if codepoint > 0xFFFF {
      var v := codepoint - 0x1_0000;
      assert (Utf16(codepoint) + rest)[0] == 0xD800 + v / 0x400 && (Utf16(codepoint) + rest)[1] == 0xDC00 + v % 0x400;
      assert (0xD800 + v / 0x400) % 0x400 == v / 0x400;
    }
  }

  lemma Decode16ThenUtf16(units: seq<nat>)
    requires units != [] && units[0] <= 0xFFFF && Decode16(units).ok
    ensures var d := Decode16(units);
            0 < d.used <= |units| && Scalar(d.codepoint) && Utf16(d.codepoint) == units[..d.used]
  {
    var d := Decode16(units);
    if d.used == 1 {
      assert units[..1] == [units[0]];
    } else {
      var high, low := units[0] % 0x400, units[1] % 0x400;
      assert units[0] == 0xD800 + high && units[1] == 0xDC00 + low;
      assert (d.codepoint - 0x1_0000) / 0x400 == high && (d.codepoint - 0x1_0000) % 0x400 == low;
      assert units[..2] == [units[0], units[1]];
    }
  }

  function EncodeAll16(codepoints: seq<nat>): seq<nat>
    requires AllScalar(codepoints)
  {
    if codepoints == [] then [] else Utf16(codepoints[0]) + EncodeAll16(codepoints[1..])
  }

  function DecodeAll16(units: seq<nat>): Option<seq<nat>>
    requires forall i | 0 <= i < |units| :: units[i] <= 0xFFFF
    decreases |units|
  {
    if units == [] then Some([])
    else
      var d := Decode16(units);
      if !d.ok then None
      else
        Decode16ThenUtf16(units);
        match DecodeAll16(units[d.used..])
        case None => None
        case Some(rest) => Some([d.codepoint] + rest)
  }

  lemma {:induction false} Units(codepoints: seq<nat>)
    requires AllScalar(codepoints)
    ensures forall i | 0 <= i < |EncodeAll16(codepoints)| :: EncodeAll16(codepoints)[i] <= 0xFFFF
  {
    if codepoints != [] { Units(codepoints[1..]); }
  }

  lemma {:induction false} TextsDecode16(codepoints: seq<nat>)
    requires AllScalar(codepoints)
    ensures forall i | 0 <= i < |EncodeAll16(codepoints)| :: EncodeAll16(codepoints)[i] <= 0xFFFF
    ensures DecodeAll16(EncodeAll16(codepoints)) == Some(codepoints)
  {
    Units(codepoints);
    if codepoints != [] {
      var first, rest := Utf16(codepoints[0]), EncodeAll16(codepoints[1..]);
      Utf16ThenDecode(codepoints[0], rest);
      TextsDecode16(codepoints[1..]);
      assert (first + rest)[|first|..] == rest;
      assert [codepoints[0]] + codepoints[1..] == codepoints;
    }
  }

  // Transcoder<UTF8, UTF16> over a text, and back; none where one of its steps is refused.
  function ToUtf16(bytes: Bytes): Option<seq<nat>> {
    match DecodeAll(bytes)
    case None => None
    case Some(codepoints) => TextsEncode(bytes); Some(EncodeAll16(codepoints))
  }

  /** A text in UTF-8 that goes to UTF-16 at all comes back from there as it was. */
  lemma ThereAndBack(bytes: Bytes)
    requires ToUtf16(bytes).Some?
    ensures var units := ToUtf16(bytes).value;
            && (forall i | 0 <= i < |units| :: units[i] <= 0xFFFF)
            && var back := DecodeAll16(units);
               back.Some? && AllScalar(back.value) && EncodeAll(back.value) == bytes
  {
    TextsEncode(bytes);
    TextsDecode16(DecodeAll(bytes).value);
  }

  // ---------------------------------------------------------------------------
  // The order of encodings.

  // The first place at which they differ has the lower byte in a.
  predicate LowerAt(a: Bytes, b: Bytes, k: nat) {
    k < |a| && k < |b| && a[..k] == b[..k] && a[k] < b[k]
  }

  lemma Split64(a: nat, b: nat)
    requires a < b
    ensures a / 64 < b / 64 || (a / 64 == b / 64 && a % 64 < b % 64)
  {
  }

  lemma Split4096(a: nat)
    ensures a / 64 / 64 == a / 4096 && a / 4096 / 64 == a / 0x4_0000
  {
  }

  lemma OrderOfTwo(a: nat, b: nat)
    requires 0x7F < a < b <= 0x7FF
    ensures LowerAt(Utf8(a), Utf8(b), if a / 64 < b / 64 then 0 else 1)
  {
    Split64(a, b);
  }

  lemma OrderOfThree(a: nat, b: nat)
    requires 0x7FF < a < b <= 0xFFFF
    ensures LowerAt(Utf8(a), Utf8(b), if a / 4096 < b / 4096 then 0 else if a / 64 < b / 64 then 1 else 2)
  {
    Split64(a, b);
    Split4096(a);
    Split4096(b);
    if a / 64 < b / 64 { Split64(a / 64, b / 64); }
  }

  lemma OrderOfFour(a: nat, b: nat)
    requires 0xFFFF < a < b <= 0x10_FFFF
    ensures LowerAt(Utf8(a), Utf8(b),
                    if a / 0x4_0000 < b / 0x4_0000 then 0 else if a / 4096 < b / 4096 then 1
                    else if a / 64 < b / 64 then 2 else 3)
  {
    Split64(a, b);
    Split4096(a);
    Split4096(b);
    if a / 64 < b / 64 {
      Split64(a / 64, b / 64);
      if a / 4096 < b / 4096 { Split64(a / 4096, b / 4096); }
    }
  }

  /** Encodings are ordered byte by byte as their scalar values are (section 1 of RFC 3629). As the encodings are
      all of the syntax, no other encoding of the scalar values has this property. */
  lemma EncodingsInOrder(a: nat, b: nat) returns (k: nat)
    requires a < b && Scalar(a) && Scalar(b)
    ensures LowerAt(Utf8(a), Utf8(b), k)
  {
    k := 0;
    if 0x7F < a && b <= 0x7FF {
      OrderOfTwo(a, b);
      k := if a / 64 < b / 64 then 0 else 1;
    } else if 0x7FF < a && b <= 0xFFFF {
      OrderOfThree(a, b);
      k := if a / 4096 < b / 4096 then 0 else if a / 64 < b / 64 then 1 else 2;
    } else if 0xFFFF < a {
      OrderOfFour(a, b);
      k := if a / 0x4_0000 < b / 0x4_0000 then 0 else if a / 4096 < b / 4096 then 1
           else if a / 64 < b / 64 then 2 else 3;
    }
  }

  /** Up to U+FFFF a scalar value is its own unit; above, the pairs of a high and a low surrogate are in the order
      of the scalar values, of which there are as many. */
  lemma PairsInOrder(a: nat, b: nat)
    requires Scalar(a) && Scalar(b) && a < b
    ensures a <= 0xFFFF ==> Utf16(a) == [a]
    ensures a > 0xFFFF ==>
              var u, v := Utf16(a), Utf16(b);
              && |u| == |v| == 2
              && 0xD800 <= u[0] <= v[0] <= 0xDBFF && 0xDC00 <= u[1] <= 0xDFFF && 0xDC00 <= v[1] <= 0xDFFF
              && (u[0] < v[0] || (u[0] == v[0] && u[1] < v[1]))
  {
  }

  // ---------------------------------------------------------------------------
  // Validation, on a stream that ends with a NUL.

  // One byte more, unless the NUL has been taken already, and its test.
  method Copy(s: StringStream, ghost r: Bytes, out: Bytes, mask: nat, ok: bool) returns (out': Bytes, ok': bool)
    requires s.Valid() && out != [] && out <= r && s.Rest() == r[|out|..]
    requires r[|r| - 1] == 0
    modifies s`pos
    ensures s.Valid() && out' <= r && |out'| >= |out| && s.Rest() == r[|out'|..]
    ensures if out[|out| - 1] == 0 then out' == out && !ok'
            else |out'| == |out| + 1 && ok' == (ok && Allowed(At(r, |out|), mask))
  {
    var c := out[|out| - 1];
    out' := out;
    if c != 0 {
      c := s.Take();
      out' := out + [c];
    }
    ok' := ok && Allowed(c, mask);
  }

  // The tests behind a lead byte, one byte after another; a NUL ends them all.
  method CopyTails(s: StringStream, ghost r: Bytes, out: Bytes, masks: seq<nat>) returns (out': Bytes, ok: bool)
    requires s.Valid() && |out| == 1 && out <= r && s.Rest() == r[1..] && out[0] != 0
    requires r[|r| - 1] == 0
    modifies s`pos
    ensures s.Valid() && out' <= r && s.Rest() == r[|out'|..]
    ensures ok <==> forall k | 0 <= k < |masks| :: Allowed(At(r, k + 1), masks[k])
    ensures ok ==> |out'| == 1 + |masks|
  {
    out', ok := out, true;
    var i := 0;
    while i < |masks|
      invariant i <= |masks| && s.Valid() && out' != [] && out' <= r && s.Rest() == r[|out'|..]
      invariant ok <==> forall k | 0 <= k < i :: Allowed(At(r, k + 1), masks[k])
      invariant ok ==> |out'| == 1 + i && out'[|out'| - 1] != 0
    {
      out', ok := Copy(s, r, out', masks[i], ok);
      assert ok ==> GetRange(out'[|out'| - 1]) >= 0x10;
      i := i + 1;
    }
  }

  // The masks of the cases of the switch.
  function Masks(range: nat): seq<nat> {
    match range
    case 2 => [0x70]
    case 3 => [0x70, 0x70]
    case 4 => [0x50, 0x70]
    case 5 => [0x10, 0x70, 0x70]
    case 6 => [0x70, 0x70, 0x70]
    case 10 => [0x20, 0x70]
    case 11 => [0x60, 0x70, 0x70]
    case _ => []
  }

  lemma MasksDecide(r: Bytes)
    requires r != [] && r[0] >= 0x80 && Masks(GetRange(r[0])) != []
    ensures var masks := Masks(GetRange(r[0]));
            && (Decode(r).ok <==> forall k | 0 <= k < |masks| :: Allowed(At(r, k + 1), masks[k]))
            && Decode(r).used == 1 + |masks|
  {
    var masks := Masks(GetRange(r[0]));
    if forall k | 0 <= k < |masks| :: Allowed(At(r, k + 1), masks[k]) {
      assert Allowed(At(r, 1), masks[0]);
      if |masks| > 1 { assert Allowed(At(r, 2), masks[1]); }
      if |masks| > 2 { assert Allowed(At(r, 3), masks[2]); }
    }
  }

  /** UTF8::Validate accepts what the automaton accepts, which is the syntax of the RFC; it copies
      exactly the bytes that it takes, and it never takes anything behind the terminator. */
  method Validate(s: StringStream) returns (ok: bool, out: Bytes)
    requires s.Valid() && s.Rest() != [] && s.Rest()[|s.Rest()| - 1] == 0
    modifies s`pos
    ensures s.Valid() && out <= old(s.Rest()) && s.Rest() == old(s.Rest())[|out|..]
    ensures ok <==> Decode(old(s.Rest())).ok
    ensures ok <==> CharLength(old(s.Rest())) > 0
    ensures ok ==> |out| == CharLength(old(s.Rest())) == Decode(old(s.Rest())).used
  {
    ghost var r := s.Rest();
    AcceptsTheSyntax(r);
    var c := s.Take();
    out := [c];
    if c < 0x80 {
      ok := true;
    } else if Masks(GetRange(c)) == [] {
      ok := false;
    } else {
      MasksDecide(r);
      out, ok := CopyTails(s, r, out, Masks(GetRange(c)));
    }
  }
}
