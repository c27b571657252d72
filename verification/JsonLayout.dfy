/** PrettyWriter's text is Writer's text laid out by one pass that counts brackets. */
module JsonLayout {
  import opened BigIntBytes
  import opened JsonTree
  import opened JsonText
  import opened JsonWriter
  import opened JsonRoundTrip

  // ---------------------------------------------------------------------------
  // The pass. `open` has true for every array that is open, false for every object.

  function Line(style: Style, level: nat): Bytes
    requires style.Pretty?
  {
    [0x0A] + seq(level * style.indentCharCount, i => style.indentChar)
  }

  predicate OnOneLine(style: Style, inArray: bool)
    requires style.Pretty?
  {
    inArray && style.singleLineArray
  }

  // The bytes of a string's inside and its closing quote at the front of r.
  function InsideLength(r: Bytes): (n: nat)
    ensures n <= |r| && (r != [] ==> n > 0)
  {
    if r == [] then 0
    else if r[0] == 0x22 then 1
    else if r[0] == 0x5C && |r| > 1 then 2 + InsideLength(r[2..])
    else 1 + InsideLength(r[1..])
  }

  function LaidOut(style: Style, open: seq<bool>, r: Bytes): Bytes
    requires style.Pretty?
    decreases |r|
  {
    if r == [] then []
    else
      var c, level := r[0], |open|;
      if c == 0x22 then
        var n := 1 + InsideLength(r[1..]);
        r[..n] + LaidOut(style, open, r[n..])
      else if c == 0x5B || c == 0x7B then
        if |r| > 1 && (r[1] == 0x5D || r[1] == 0x7D) then r[..2] + LaidOut(style, open, r[2..])
        else [c] + (if OnOneLine(style, c == 0x5B) then [] else Line(style, level + 1))
             + LaidOut(style, open + [c == 0x5B], r[1..])
      else if (c == 0x5D || c == 0x7D) && open != [] then
        (if OnOneLine(style, open[level - 1]) then [] else Line(style, level - 1)) + [c]
        + LaidOut(style, open[..level - 1], r[1..])
      else if c == 0x2C && open != [] then
        [c] + (if OnOneLine(style, open[level - 1]) then [0x20] else Line(style, level))
        + LaidOut(style, open, r[1..])
      else if c == 0x3A then [c, 0x20] + LaidOut(style, open, r[1..])
      else [c] + LaidOut(style, open, r[1..])
  }

  // ---------------------------------------------------------------------------
  // Scalars pass as they are.

  predicate Ordinary(c: byte) {
    c !in {0x22, 0x5B, 0x7B, 0x5D, 0x7D, 0x2C, 0x3A}
  }

  lemma {:induction false} OrdinaryPasses(style: Style, open: seq<bool>, word: Bytes, rest: Bytes)
    requires style.Pretty? && forall i | 0 <= i < |word| :: Ordinary(word[i])
    ensures LaidOut(style, open, word + rest) == word + LaidOut(style, open, rest)
  {
    if word == [] {
      assert word + rest == rest;
    } else {
      assert (word + rest)[0] == word[0] && (word + rest)[1..] == word[1..] + rest;
      OrdinaryPasses(style, open, word[1..], rest);
      assert [word[0]] + (word[1..] + LaidOut(style, open, rest)) == word + LaidOut(style, open, rest);
    }
  }

  lemma {:induction false} InsideMeasured(s: Bytes, rest: Bytes)
    ensures InsideLength(Escaped(s) + ([QUOTE] + rest)) == |Escaped(s)| + 1
  {
    var r := Escaped(s) + ([QUOTE] + rest);
    if s == [] {
      assert r == [QUOTE] + rest;
    } else {
      var more := Escaped(s[1..]) + ([QUOTE] + rest);
      assert r == EscapedByte(s[0]) + more;
      InsideMeasured(s[1..], rest);
      ByteMeasured(s[0], more);
    }
  }

  lemma ByteMeasured(c: byte, more: Bytes)
    requires more != []
    ensures InsideLength(EscapedByte(c) + more) == |EscapedByte(c)| + InsideLength(more)
  {
    var e, r := EscapedByte(c), EscapedByte(c) + more;
    if |e| == 1 {
      assert r[1..] == more;
    } else if |e| == 2 {
      assert r[2..] == more;
    } else {
      assert r[2..] == e[2..] + more;
      FourOrdinary(e[2..], more);
    }
  }

  lemma FourOrdinary(digits: Bytes, more: Bytes)
    requires |digits| == 4 && forall i | 0 <= i < 4 :: digits[i] != 0x22 && digits[i] != 0x5C
    ensures InsideLength(digits + more) == 4 + InsideLength(more)
  {
    var r := digits + more;
    assert r[1..][1..] == r[2..] && r[2..][1..] == r[3..] && r[3..][1..] == more;
    assert r[1..][0] == digits[1] && r[2..][0] == digits[2] && r[3..][0] == digits[3];
    assert InsideLength(r[3..]) == 1 + InsideLength(more);
    assert InsideLength(r[2..]) == 1 + InsideLength(r[3..]);
    assert InsideLength(r[1..]) == 1 + InsideLength(r[2..]);
  }

  lemma StringPasses(style: Style, open: seq<bool>, s: Bytes, rest: Bytes)
    requires style.Pretty?
    ensures LaidOut(style, open, Quoted(s) + rest) == Quoted(s) + LaidOut(style, open, rest)
  {
    var r := Quoted(s) + rest;
    assert r[1..] == Escaped(s) + ([QUOTE] + rest);
    InsideMeasured(s, rest);
    assert r[..|Quoted(s)|] == Quoted(s) && r[|Quoted(s)|..] == rest;
  }

  lemma ScalarPasses(style: Style, open: seq<bool>, t: Json, rest: Bytes)
    requires style.Pretty? && Writable(t) && !t.JArray? && !t.JObject?
    ensures Text(style, t, |open|) == Text(Plain, t, |open|)
    ensures LaidOut(style, open, Text(Plain, t, |open|) + rest) == Text(style, t, |open|) + LaidOut(style, open, rest)
  {
    match t
    case JString(s) => StringPasses(style, open, s, rest);
    case JNull => OrdinaryPasses(style, open, NULL_TEXT, rest);
    case JBool(b) => OrdinaryPasses(style, open, if b then TRUE_TEXT else FALSE_TEXT, rest);
    case JInt(n) => OrdinaryPasses(style, open, IntegerText(n), rest);
  }

  // ---------------------------------------------------------------------------
  // Arrays and objects. What is in front of an entry is a gap of the writer's.

  lemma GapIs(style: Style, inArray: bool, first: bool, depth: nat)
    requires style.Pretty?
    ensures Gap(style, inArray, first, depth) ==
            if !OnOneLine(style, inArray) then Line(style, depth) else if first then [] else [0x20]
    ensures JsonWriter.Tail(style, inArray, false, depth) ==
            if OnOneLine(style, inArray) then [] else Line(style, depth)
  {
    if !OnOneLine(style, inArray) { assert NewLine(style, depth) == Line(style, depth); }
  }

  lemma TextBegins(t: Json, depth: nat, rest: Bytes)
    requires Writable(t)
    ensures var r := Text(Plain, t, depth) + rest; r != [] && r[0] != 0x5D && r[0] != 0x7D
  {
    assert Text(Plain, t, depth) != [];
    assert (Text(Plain, t, depth) + rest)[0] == Text(Plain, t, depth)[0];
  }

  // The steps of the pass at a bracket, a comma and a colon.
  lemma Opens(style: Style, open: seq<bool>, inArray: bool, r: Bytes)
    requires style.Pretty? && r != [] && r[0] != 0x5D && r[0] != 0x7D
    ensures LaidOut(style, open, [if inArray then LEFT_BRACKET else LEFT_BRACE] + r)
            == [if inArray then LEFT_BRACKET else LEFT_BRACE] + Gap(style, inArray, true, |open| + 1)
               + LaidOut(style, open + [inArray], r)
  {
    var all := [if inArray then LEFT_BRACKET else LEFT_BRACE] + r;
    assert all[1] == r[0] && all[1..] == r;
    GapIs(style, inArray, true, |open| + 1);
  }

  lemma OpensEmpty(style: Style, open: seq<bool>, inArray: bool, rest: Bytes)
    requires style.Pretty?
    ensures var empty :=
              [if inArray then LEFT_BRACKET else LEFT_BRACE] + [if inArray then RIGHT_BRACKET else RIGHT_BRACE];
            LaidOut(style, open, empty + rest) == empty + LaidOut(style, open, rest)
  {
    var empty := [if inArray then LEFT_BRACKET else LEFT_BRACE] + [if inArray then RIGHT_BRACKET else RIGHT_BRACE];
    assert (empty + rest)[..2] == empty && (empty + rest)[2..] == rest;
  }

  lemma Closes(style: Style, open: seq<bool>, inArray: bool, rest: Bytes)
    requires style.Pretty?
    ensures var close: Bytes := [if inArray then RIGHT_BRACKET else RIGHT_BRACE];
            LaidOut(style, open + [inArray], close + rest)
            == JsonWriter.Tail(style, inArray, false, |open|) + close + LaidOut(style, open, rest)
  {
    var close: Bytes := [if inArray then RIGHT_BRACKET else RIGHT_BRACE];
    assert (close + rest)[1..] == rest && (open + [inArray])[..|open|] == open;
    GapIs(style, inArray, false, |open|);
  }

  lemma Separates(style: Style, open: seq<bool>, inArray: bool, r: Bytes)
    requires style.Pretty?
    ensures LaidOut(style, open + [inArray], [COMMA] + r)
            == [COMMA] + Gap(style, inArray, false, |open| + 1) + LaidOut(style, open + [inArray], r)
  {
    assert ([COMMA] + r)[1..] == r;
    GapIs(style, inArray, false, |open| + 1);
  }

  lemma {:induction false} ElementsLaidOut(style: Style, open: seq<bool>, t: Json, k: nat, rest: Bytes)
    requires style.Pretty? && Writable(t) && t.JArray? && 0 < k <= |t.elems|
    ensures LaidOut(style, open + [true], ElementTexts(Plain, t, k, |open|) + ([RIGHT_BRACKET] + rest))
            == ElementTexts(style, t, k, |open|)
               + (JsonWriter.Tail(style, true, false, |open|) + [RIGHT_BRACKET] + LaidOut(style, open, rest))
    decreases t, 0, |t.elems| - k
  {
    var d, inside := |open|, open + [true];
    var end := [RIGHT_BRACKET] + rest;
    if k == |t.elems| {
      Closes(style, open, true, rest);
      assert [] + end == end;
    } else {
      assert t.elems[k] in t.elems;
      var more := ElementTexts(Plain, t, k + 1, d) + end;
      var text := Text(Plain, t.elems[k], d + 1);
      ElementsLaidOut(style, open, t, k + 1, rest);
      TreeLaidOut(style, inside, t.elems[k], more);
      Separates(style, open, true, text + more);
      ElementPieces(text, ElementTexts(Plain, t, k + 1, d), end);
      JoinedGaps(Gap(style, true, false, d + 1), Text(style, t.elems[k], d + 1), ElementTexts(style, t, k + 1, d),
                 JsonWriter.Tail(style, true, false, d) + [RIGHT_BRACKET] + LaidOut(style, open, rest));
    }
  }

  lemma ElementPieces(text: Bytes, texts: Bytes, end: Bytes)
    ensures ([COMMA] + [] + text + texts) + end == [COMMA] + (text + (texts + end))
  {
  }

  lemma JoinedGaps(gap: Bytes, text: Bytes, texts: Bytes, end: Bytes)
    ensures [COMMA] + gap + (text + (texts + end)) == ([COMMA] + gap + text + texts) + end
    ensures gap + (text + (texts + end)) == (([] + gap + text) + texts) + end
  {
  }

  lemma ArrayInParts(style: Style, t: Json, depth: nat)
    requires t.JArray? && t.elems != []
    ensures Text(style, t, depth) ==
            [LEFT_BRACKET]
            + (([] + Gap(style, true, true, depth + 1) + Text(style, t.elems[0], depth + 1))
               + ElementTexts(style, t, 1, depth))
            + JsonWriter.Tail(style, true, false, depth) + [RIGHT_BRACKET]
  {
    var first := ElementText(style, t.elems[0], 0, depth);
    assert ElementTexts(style, t, 0, depth) == first + ElementTexts(style, t, 1, depth);
    assert first == Comma(true) + Gap(style, true, true, depth + 1) + Text(style, t.elems[0], depth + 1);
  }

  // The plain text up to the first element, and the laid out text put together.
  lemma ArrayAround(style: Style, open: seq<bool>, t: Json, rest: Bytes, more: Bytes, laid: Bytes)
    requires style.Pretty? && t.JArray? && t.elems != [] && Writable(t.elems[0])
    requires more == ElementTexts(Plain, t, 1, |open|) + ([RIGHT_BRACKET] + rest)
    requires LaidOut(style, open + [true], Text(Plain, t.elems[0], |open| + 1) + more)
             == Text(style, t.elems[0], |open| + 1) + laid
    requires laid == ElementTexts(style, t, 1, |open|)
                     + (JsonWriter.Tail(style, true, false, |open|) + [RIGHT_BRACKET] + LaidOut(style, open, rest))
    ensures LaidOut(style, open, Text(Plain, t, |open|) + rest) == Text(style, t, |open|) + LaidOut(style, open, rest)
  {
    var d := |open|;
    var text := Text(Plain, t.elems[0], d + 1);
    TextBegins(t.elems[0], d + 1, more);
    Opens(style, open, true, text + more);
    ArrayInParts(Plain, t, d);
    FirstPieces(LEFT_BRACKET, RIGHT_BRACKET, text, ElementTexts(Plain, t, 1, d), rest);
    ArrayInParts(style, t, d);
    FirstGaps(LEFT_BRACKET, RIGHT_BRACKET, Gap(style, true, true, d + 1), Text(style, t.elems[0], d + 1),
              ElementTexts(style, t, 1, d), JsonWriter.Tail(style, true, false, d), LaidOut(style, open, rest));
  }

  lemma EmptyLaidOut(style: Style, open: seq<bool>, t: Json, rest: Bytes)
    requires style.Pretty? && (t == JArray([]) || t == JObject([]))
    ensures LaidOut(style, open, Text(Plain, t, |open|) + rest) == Text(style, t, |open|) + LaidOut(style, open, rest)
  {
    OpensEmpty(style, open, t.JArray?, rest);
    EmptyText(LEFT_BRACKET, RIGHT_BRACKET);
    EmptyText(LEFT_BRACE, RIGHT_BRACE);
  }

  lemma {:induction false} ArrayLaidOut(style: Style, open: seq<bool>, t: Json, rest: Bytes)
    requires style.Pretty? && Writable(t) && t.JArray?
    ensures LaidOut(style, open, Text(Plain, t, |open|) + rest) == Text(style, t, |open|) + LaidOut(style, open, rest)
    decreases t, 1
  {
    if t.elems == [] {
      EmptyLaidOut(style, open, t, rest);
    } else {
      assert t.elems[0] in t.elems;
      var more := ElementTexts(Plain, t, 1, |open|) + ([RIGHT_BRACKET] + rest);
      ElementsLaidOut(style, open, t, 1, rest);
      TreeLaidOut(style, open + [true], t.elems[0], more);
      ArrayAround(style, open, t, rest, more, LaidOut(style, open + [true], more));
    }
  }

  lemma EmptyText(open: byte, close: byte)
    ensures [open] + [] + [] + [close] == [open] + [close]
  {
  }

  lemma FirstPieces(open: byte, close: byte, text: Bytes, texts: Bytes, rest: Bytes)
    ensures ([open] + (([] + [] + text) + texts) + [] + [close]) + rest
            == [open] + (text + (texts + ([close] + rest)))
  {
  }

  lemma FirstGaps(open: byte, close: byte, gap: Bytes, text: Bytes, texts: Bytes, tail: Bytes, rest: Bytes)
    ensures [open] + gap + (text + (texts + (tail + [close] + rest)))
            == ([open] + (([] + gap + text) + texts) + tail + [close]) + rest
  {
  }

  /** Laying out Writer's text of any tree, wherever it stands, gives PrettyWriter's. */
  lemma {:induction false} TreeLaidOut(style: Style, open: seq<bool>, t: Json, rest: Bytes)
    requires style.Pretty? && Writable(t)
    ensures LaidOut(style, open, Text(Plain, t, |open|) + rest) == Text(style, t, |open|) + LaidOut(style, open, rest)
    decreases t, 2
  {
    match t
    case JArray(_) => ArrayLaidOut(style, open, t, rest);
    case JObject(_) => ObjectLaidOut(style, open, t, rest);
    case _ => ScalarPasses(style, open, t, rest);
  }

  // A member from its name on.
  lemma {:induction false} MemberLaidOut(style: Style, open: seq<bool>, m: Member, rest: Bytes)
    requires style.Pretty? && Writable(m.value)
    ensures LaidOut(style, open, Quoted(m.name) + ([COLON] + (Text(Plain, m.value, |open|) + rest)))
            == Quoted(m.name) + (Colon(style) + (Text(style, m.value, |open|) + LaidOut(style, open, rest)))
    decreases m, 3
  {
    var behind := Text(Plain, m.value, |open|) + rest;
    StringPasses(style, open, m.name, [COLON] + behind);
    assert ([COLON] + behind)[1..] == behind;
    TreeLaidOut(style, open, m.value, rest);
  }

  lemma {:induction false} MembersLaidOut(style: Style, open: seq<bool>, t: Json, k: nat, rest: Bytes)
    requires style.Pretty? && Writable(t) && t.JObject? && 0 < k <= |t.members|
    ensures LaidOut(style, open + [false], MemberTexts(Plain, t, k, |open|) + ([RIGHT_BRACE] + rest))
            == MemberTexts(style, t, k, |open|)
               + (JsonWriter.Tail(style, false, false, |open|) + [RIGHT_BRACE] + LaidOut(style, open, rest))
    decreases t, 0, |t.members| - k
  {
    var d, inside := |open|, open + [false];
    var end := [RIGHT_BRACE] + rest;
    if k == |t.members| {
      Closes(style, open, false, rest);
      assert [] + end == end;
    } else {
      var m := t.members[k];
      assert m in t.members;
      var texts := MemberTexts(Plain, t, k + 1, d);
      var bare := Quoted(m.name) + ([COLON] + (Text(Plain, m.value, d + 1) + (texts + end)));
      MembersLaidOut(style, open, t, k + 1, rest);
      MemberLaidOut(style, inside, m, texts + end);
      Separates(style, open, false, bare);
      MemberPieces([COMMA], Quoted(m.name), [COLON], Text(Plain, m.value, d + 1), texts, end, []);
      MemberPieces([COMMA], Quoted(m.name), Colon(style), Text(style, m.value, d + 1), MemberTexts(style, t, k + 1, d),
                   JsonWriter.Tail(style, false, false, d) + [RIGHT_BRACE] + LaidOut(style, open, rest),
                   Gap(style, false, false, d + 1));
    }
  }

  lemma MemberPieces(comma: Bytes, name: Bytes, colon: Bytes, text: Bytes, texts: Bytes, end: Bytes, gap: Bytes)
    ensures comma + gap + (name + (colon + (text + (texts + end))))
            == ((comma + gap + name + colon + text) + texts) + end
    ensures gap == [] ==> comma + gap == comma
  {
  }

  lemma ObjectInParts(style: Style, t: Json, depth: nat)
    requires t.JObject? && t.members != []
    ensures var m := t.members[0];
            Text(style, t, depth) ==
            [LEFT_BRACE]
            + (([] + Gap(style, false, true, depth + 1) + Quoted(m.name) + Colon(style)
                + Text(style, m.value, depth + 1))
               + MemberTexts(style, t, 1, depth))
            + JsonWriter.Tail(style, false, false, depth) + [RIGHT_BRACE]
  {
    var m := t.members[0];
    assert MemberTexts(style, t, 0, depth) == MemberText(style, m, 0, depth) + MemberTexts(style, t, 1, depth);
    assert MemberText(style, m, 0, depth) == Comma(true) + Gap(style, false, true, depth + 1) + Quoted(m.name)
                                             + Colon(style) + Text(style, m.value, depth + 1);
  }

  lemma ObjectAround(style: Style, open: seq<bool>, t: Json, rest: Bytes, bare: Bytes, laid: Bytes)
    requires style.Pretty? && t.JObject? && t.members != []
    requires var m := t.members[0];
             && bare == Quoted(m.name) + ([COLON] + (Text(Plain, m.value, |open| + 1)
                                                     + (MemberTexts(Plain, t, 1, |open|) + ([RIGHT_BRACE] + rest))))
             && LaidOut(style, open + [false], bare)
                == Quoted(m.name) + (Colon(style) + (Text(style, m.value, |open| + 1) + laid))
    requires laid == MemberTexts(style, t, 1, |open|)
                     + (JsonWriter.Tail(style, false, false, |open|) + [RIGHT_BRACE] + LaidOut(style, open, rest))
    ensures LaidOut(style, open, Text(Plain, t, |open|) + rest) == Text(style, t, |open|) + LaidOut(style, open, rest)
  {
    var m, d := t.members[0], |open|;
    assert bare[0] == QUOTE;
    Opens(style, open, false, bare);
    ObjectInParts(Plain, t, d);
    FirstMemberPieces(LEFT_BRACE, RIGHT_BRACE, [], Quoted(m.name), [COLON], Text(Plain, m.value, d + 1),
                      MemberTexts(Plain, t, 1, d), [], rest);
    ObjectInParts(style, t, d);
    FirstMemberPieces(LEFT_BRACE, RIGHT_BRACE, Gap(style, false, true, d + 1), Quoted(m.name), Colon(style),
                      Text(style, m.value, d + 1), MemberTexts(style, t, 1, d),
                      JsonWriter.Tail(style, false, false, d), LaidOut(style, open, rest));
  }

  lemma {:induction false} ObjectLaidOut(style: Style, open: seq<bool>, t: Json, rest: Bytes)
    requires style.Pretty? && Writable(t) && t.JObject?
    ensures LaidOut(style, open, Text(Plain, t, |open|) + rest) == Text(style, t, |open|) + LaidOut(style, open, rest)
    decreases t, 1
  {
    if t.members == [] {
      EmptyLaidOut(style, open, t, rest);
    } else {
      var m := t.members[0];
      assert m in t.members;
      var more := MemberTexts(Plain, t, 1, |open|) + ([RIGHT_BRACE] + rest);
      MemberLaidOut(style, open + [false], m, more);
      MembersLaidOut(style, open, t, 1, rest);
      ObjectAround(style, open, t, rest, Quoted(m.name) + ([COLON] + (Text(Plain, m.value, |open| + 1) + more)),
                   LaidOut(style, open + [false], more));
    }
  }

  lemma FirstMemberPieces(open: byte, close: byte, gap: Bytes, name: Bytes, colon: Bytes, text: Bytes, texts: Bytes,
          tail: Bytes, rest: Bytes)
    ensures [open] + gap + (name + (colon + (text + (texts + (tail + [close] + rest)))))
            == ([open] + (([] + gap + name + colon + text) + texts) + tail + [close]) + rest
    ensures gap == [] ==> [open] + gap == [open]
    ensures tail == [] ==> tail + [close] + rest == [close] + rest
  {
    assert name + (colon + (text + (texts + (tail + [close] + rest))))
           == (name + colon + text + texts) + (tail + [close] + rest);
  }

  /** PrettyWriter's text of a tree is Writer's, laid out. */
  lemma PrettyIsLaidOut(style: Style, t: Json)
    requires style.Pretty? && Writable(t)
    ensures Text(style, t, 0) == LaidOut(style, [], Text(Plain, t, 0))
  {
    TreeLaidOut(style, [], t, []);
    assert Text(Plain, t, 0) + [] == Text(Plain, t, 0);
    assert Text(style, t, 0) + [] == Text(style, t, 0);
  }
}
