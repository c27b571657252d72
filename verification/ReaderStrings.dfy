/** The string loop of the reader, over both kinds of output: a stack of its own, and in place the
    buffer that is being read. */
module ReaderStrings {
  import opened BigIntBytes
  import opened JsonText
  import opened ReaderNumbers

  /** The output of the string loop: StackStream, or the stream itself from PutBegin on. */
  class StringSink {
    const stream: StringStream
    const insitu: bool
    const head: nat
    var text: Bytes

    // The write cursor has not passed the read cursor.
    ghost predicate Valid()
      reads this, stream
    {
      stream.Valid() && head <= stream.pos && (insitu ==> head <= stream.dst <= stream.pos)
    }

    ghost function Written(): Bytes
      requires Valid()
      reads this, stream, stream.src
    {
      if insitu then stream.src[head..stream.dst] else text
    }

    // How many bytes may be written before the read cursor is reached.
    ghost predicate Room(n: nat)
      reads this, stream
    {
      insitu ==> stream.dst + n <= stream.pos
    }

    constructor (stream: StringStream, insitu: bool)
      requires stream.Valid()
      modifies stream`dst
      ensures Valid() && this.stream == stream && this.insitu == insitu && head == stream.pos && Written() == []
    {
      this.stream, this.insitu, head, text := stream, insitu, stream.pos, [];
      new;
      stream.dst := stream.pos;
    }

    method Put(c: byte)
      requires Valid() && Room(1)
      modifies this`text, stream`dst, stream.src
      ensures Valid() && Written() == old(Written()) + [c] && stream.Rest() == old(stream.Rest())
      ensures stream.dst == old(stream.dst) + if insitu then 1 else 0
      ensures stream.src[..head] == old(stream.src[..head])
      ensures !insitu ==> stream.src[..] == old(stream.src[..])
    {
      if insitu {
        stream.src[stream.dst] := c;
        stream.dst := stream.dst + 1;
      } else {
        text := text + [c];
      }
    }

    // The string that lies in the buffer, without its terminator.
    method InPlaceText(ghost text: Bytes) returns (length: nat, str: Bytes)
      requires Valid() && insitu && Written() == text + [0]
      ensures str == text && length == |text| && head + length < stream.pos
      ensures str == stream.src[head..head + length]
    {
      length := stream.dst - head - 1;
      str := stream.src[head..head + length];
      assert str == Written()[..length];
    }

    method PutTwo(c: byte, d: byte)
      requires Valid() && Room(2)
      modifies this`text, stream`dst, stream.src
      ensures Valid() && Written() == old(Written()) + [c, d] && stream.Rest() == old(stream.Rest())
      ensures stream.dst == old(stream.dst) + if insitu then 2 else 0
      ensures stream.src[..head] == old(stream.src[..head])
      ensures !insitu ==> stream.src[..] == old(stream.src[..])
    {
      Put(c);
      Put(d);
    }

    // UTF8::Encode.
    method Encode(codepoint: nat)
      requires codepoint <= 0x10_FFFF && Valid() && Room(|Utf8(codepoint)|)
      modifies this`text, stream`dst, stream.src
      ensures Valid() && Written() == old(Written()) + Utf8(codepoint) && stream.Rest() == old(stream.Rest())
      ensures stream.src[..head] == old(stream.src[..head])
      ensures !insitu ==> stream.src[..] == old(stream.src[..])
      ensures stream.dst == old(stream.dst) + if insitu then |Utf8(codepoint)| else 0
    {
      if codepoint <= 0x7F {
        Put(codepoint as byte);
      } else if codepoint <= 0x7FF {
        PutTwo((0xC0 + codepoint / 64) as byte, (0x80 + codepoint % 64) as byte);
      } else if codepoint <= 0xFFFF {
        Put((0xE0 + codepoint / 4096) as byte);
        PutTwo((0x80 + codepoint / 64 % 64) as byte, (0x80 + codepoint % 64) as byte);
      } else {
        PutTwo((0xF0 + codepoint / 0x4_0000) as byte, (0x80 + codepoint / 4096 % 64) as byte);
        PutTwo((0x80 + codepoint / 64 % 64) as byte, (0x80 + codepoint % 64) as byte);
      }
    }
  }

  function HexPrefix(r: Bytes, n: nat): nat
    requires n <= |r| && forall i | 0 <= i < n :: HexDigit(r[i]) >= 0
  {
    if n == 0 then 0 else HexPrefix(r, n - 1) * 16 + HexDigit(r[n - 1])
  }

  lemma HexPrefixFour(r: Bytes)
    requires |r| >= 4 && forall i | 0 <= i < 4 :: HexDigit(r[i]) >= 0
    ensures Hex4(r) == HexPrefix(r, 4)
  {
    assert HexPrefix(r, 1) == HexDigit(r[0]);
    assert HexPrefix(r, 2) == HexDigit(r[0]) * 16 + HexDigit(r[1]);
    assert HexPrefix(r, 3) == HexPrefix(r, 2) * 16 + HexDigit(r[2]);
  }

  // -1 stands for its error.
  method ParseHex4(s: StringStream) returns (codepoint: int)
    requires s.Valid()
    modifies s`pos
    ensures s.Valid() && codepoint == Hex4(old(s.Rest()))
    ensures codepoint >= 0 ==> s.Rest() == old(s.Rest())[4..]
    ensures s.pos >= old(s.pos)
  {
    ghost var r := s.Rest();
    codepoint := 0;
    for i := 0 to 4
      invariant s.Valid() && i <= |r| && s.Rest() == r[i..]
      invariant forall k | 0 <= k < i :: HexDigit(r[k]) >= 0
      invariant codepoint == HexPrefix(r, i)
    {
      var digit := HexDigit(s.Front());
      if digit < 0 {
        assert i < |r| ==> HexDigit(r[i]) < 0;
        return -1;
      }
      var _ := s.Take();
      codepoint := codepoint * 16 + digit;
    }
    HexPrefixFour(r);
  }

  // Behind a high surrogate: the escape of the low one.
  method ParseLowSurrogate(s: StringStream, high: int) returns (code: ParseError, codepoint: int)
    requires s.Valid() && 0xD800 <= high <= 0xDBFF
    modifies s`pos
    ensures s.Valid() && s.pos >= old(s.pos) && codepoint <= 0x10_FFFF
    ensures var r := old(s.Rest());
            if Peek(r) != BACKSLASH || Peek(r[1..]) != LOWER_U then
              codepoint < 0 && code == StringUnicodeSurrogateInvalid
            else if Hex4(r[2..]) < 0 then codepoint < 0 && code == StringUnicodeEscapeInvalidHex
            else if Hex4(r[2..]) < 0xDC00 || Hex4(r[2..]) > 0xDFFF then
              codepoint < 0 && code == StringUnicodeSurrogateInvalid
            else
              s.Rest() == r[6..] && codepoint == (high - 0xD800) * 0x400 + (Hex4(r[2..]) - 0xDC00) + 0x1_0000
  {
    code, codepoint := StringUnicodeSurrogateInvalid, -1;
    var backslash := s.Consume(BACKSLASH);
    if !backslash { return; }
    var u := s.Consume(LOWER_U);
    if !u { return; }
    var low := ParseHex4(s);
    if low < 0 { return StringUnicodeEscapeInvalidHex, -1; }
    if 0xDC00 <= low <= 0xDFFF {
      codepoint := (high - 0xD800) * 0x400 + (low - 0xDC00) + 0x1_0000;
    }
  }

  // The code point of an escape, the read cursor behind its u: -1 with an error.
  method ParseCodepoint(s: StringStream, ghost r: Bytes) returns (code: ParseError, codepoint: int)
    requires s.Valid() && |r| >= 2 && s.Rest() == r[2..]
    modifies s`pos
    ensures s.Valid() && s.pos >= old(s.pos) && codepoint <= 0x10_FFFF
    ensures match ScanCodepoint(r)
            case Bad(c, left) => codepoint < 0 && code == c && left == |r|
            case Scanned(text, rest) => codepoint >= 0 && text == Utf8(codepoint) && s.Rest() == rest
  {
    code := StringUnicodeEscapeInvalidHex;
    codepoint := ParseHex4(s);
    if 0xD800 <= codepoint <= 0xDFFF {
      if codepoint > 0xDBFF {
        return StringUnicodeSurrogateInvalid, -1;
      }
      assert r[2..][4..] == r[6..];
      code, codepoint := ParseLowSurrogate(s, codepoint);
    }
  }

  // An escape, the read cursor on its backslash.
  method ParseEscape(sink: StringSink) returns (ok: bool, code: ParseError)
    requires sink.Valid() && sink.stream.Front() == BACKSLASH
    modifies sink`text, sink.stream`pos, sink.stream`dst, sink.stream.src
    ensures sink.Valid()
    ensures match ScanEscape(old(sink.stream.Rest()))
            case Bad(c, left) => !ok && code == c && left == |old(sink.stream.Rest())|
            case Scanned(text, rest) =>
              && ok && sink.Written() == old(sink.Written()) + text && sink.stream.Rest() == rest
              && sink.stream.dst == old(sink.stream.dst) + if sink.insitu then |text| else 0
    ensures sink.stream.src[..sink.head] == old(sink.stream.src[..sink.head])
    ensures !sink.insitu ==> sink.stream.src[..] == old(sink.stream.src[..])
  {
    var s := sink.stream;
    ghost var r := s.Rest();
    var _ := s.Take();
    var e := s.Front();
    ok, code := true, StringEscapeInvalid;
    if Unescaped(e) != 0 {
      var _ := s.Take();
      sink.Put(Unescaped(e));
    } else if e == LOWER_U {
      var _ := s.Take();
      var codepoint;
      code, codepoint := ParseCodepoint(s, r);
      if codepoint < 0 { return false, code; }
      sink.Encode(codepoint);
    } else {
      ok := false;
    }
  }

  lemma PrependTwice(a: Bytes, b: Bytes, scan: Scan)
    ensures Prepend(a, Prepend(b, scan)) == Prepend(a + b, scan)
  {
    if scan.Scanned? { assert a + (b + scan.text) == (a + b) + scan.text; }
  }

  // What the sink will have got when the string has ended is what the whole string stands for.
  ghost predicate Scanning(sink: StringSink, whole: Scan)
    reads sink, sink.stream, sink.stream.src
  {
    && sink.Valid()
    && Prepend(sink.Written(), ScanString(sink.stream.Rest())) == whole
    && (sink.insitu ==> sink.stream.dst == sink.head + |sink.Written()|)
  }

  // One turn of the loop, up to the closing quote or an error.
  method ScanOne(sink: StringSink, ghost whole: Scan) returns (ok: bool, done: bool, code: ParseError, offset: nat)
    requires Scanning(sink, whole)
    modifies sink`text, sink.stream`pos, sink.stream`dst, sink.stream.src
    ensures sink.stream.src[..sink.head] == old(sink.stream.src[..sink.head])
    ensures !sink.insitu ==> sink.stream.src[..] == old(sink.stream.src[..])
    ensures !ok ==> whole.Bad? && code == whole.code && offset == sink.stream.src.Length - whole.left
    ensures sink.Valid()
    ensures ok ==> |sink.stream.Rest()| < old(|sink.stream.Rest()|)
    ensures ok && !done ==> Scanning(sink, whole)
    ensures ok && done ==>
              && whole.Scanned? && sink.Written() == whole.text + [0] && sink.stream.Rest() == whole.rest
  {
    var s := sink.stream;
    var c := s.Front();
    ok, done, code, offset := true, false, StringMissQuotationMark, s.pos;
    if c == BACKSLASH {
      ghost var escape := ScanEscape(s.Rest());
      if escape.Scanned? { PrependTwice(sink.Written(), escape.text, ScanString(escape.rest)); }
      ok, code := ParseEscape(sink);
    } else if c == QUOTE {
      assert sink.Written() + [] == sink.Written();
      var _ := s.Take();
      sink.Put(0);
      done := true;
    } else if c < 0x20 {
      ok := false;
      code := if c == 0 then StringMissQuotationMark else StringInvalidEncoding;
    } else {
      PrependTwice(sink.Written(), [c], ScanString(s.Rest()[1..]));
      var _ := s.Take();
      sink.Put(c);
    }
  }

  /** ParseStringToStream, behind the opening quote. */
  method ParseStringToStream(sink: StringSink) returns (ok: bool, code: ParseError, offset: nat)
    requires sink.Valid() && sink.Written() == [] && (sink.insitu ==> sink.stream.dst == sink.head)
    modifies sink`text, sink.stream`pos, sink.stream`dst, sink.stream.src
    ensures sink.stream.src[..sink.head] == old(sink.stream.src[..sink.head])
    ensures !sink.insitu ==> sink.stream.src[..] == old(sink.stream.src[..])
    ensures sink.Valid()
    ensures match ScanString(old(sink.stream.Rest()))
            case Bad(c, left) => !ok && code == c && offset == sink.stream.src.Length - left
            case Scanned(text, rest) =>
              && ok && sink.Written() == text + [0] && sink.stream.Rest() == rest
  {
    ghost var whole := ScanString(sink.stream.Rest());
    assert Prepend([], whole) == whole by { if whole.Scanned? { assert [] + whole.text == whole.text; } }
    var done := false;
    ok, code, offset := true, StringMissQuotationMark, 0;
    while !done
      invariant sink.Valid() && (!done ==> Scanning(sink, whole))
      invariant sink.stream.src[..sink.head] == old(sink.stream.src[..sink.head])
      invariant !sink.insitu ==> sink.stream.src[..] == old(sink.stream.src[..])
      invariant done ==> whole.Scanned? && sink.Written() == whole.text + [0] && sink.stream.Rest() == whole.rest
      decreases |sink.stream.Rest()|
    {
      ok, done, code, offset := ScanOne(sink, whole);
      if !ok { return; }
    }
  }
}
