/** The grammar of RFC 8259 as concrete syntax trees: how each is spelled, and what it says. */
module JsonGrammar {
  import opened BigIntBytes
  import opened JsonTree
  import opened JsonText
  import opened Options

  // ---------------------------------------------------------------------------
  // White space (section 2).

  predicate Blank(gap: Bytes) {
    forall i | 0 <= i < |gap| :: gap[i] == 0x20 || gap[i] == 0x09 || gap[i] == 0x0A || gap[i] == 0x0D
  }

  // ---------------------------------------------------------------------------
  // Strings (section 7).

  // A hexadecimal digit by its value, in either case.
  datatype Hex = Hex(value: nat, lower: bool)

  type Unit = hs: seq<Hex> | |hs| == 4 && forall i | 0 <= i < 4 :: hs[i].value < 16
    witness [Hex(0, false), Hex(0, false), Hex(0, false), Hex(0, false)]

  function SpelledHex(h: Hex): byte
    requires h.value < 16
  {
    if h.value < 10 then (0x30 + h.value) as byte
    else if h.lower then (0x61 + (h.value - 10)) as byte
    else (0x41 + (h.value - 10)) as byte
  }

  // The UTF-16 code unit of four digits.
  function UnitValue(u: Unit): nat {
    0x1000 * u[0].value + 0x100 * u[1].value + 0x10 * u[2].value + u[3].value
  }

  function SpelledUnit(u: Unit): Bytes {
    [0x5C, 0x75, SpelledHex(u[0]), SpelledHex(u[1]), SpelledHex(u[2]), SpelledHex(u[3])]
  }

  // One character: itself, a letter behind a backslash, or one or two code units.
  datatype Char = Raw(c: byte) | Short(c: byte) | Escape(u: Unit) | Pair(high: Unit, low: Unit)

  predicate ProperChar(x: Char) {
    match x
    case Raw(c) => c >= 0x20 && c != 0x22 && c != 0x5C
    case Short(c) => c in {0x22, 0x5C, 0x2F, 0x08, 0x0C, 0x0A, 0x0D, 0x09}
    case Escape(u) => !(0xD800 <= UnitValue(u) <= 0xDFFF)
    case Pair(high, low) => 0xD800 <= UnitValue(high) <= 0xDBFF && 0xDC00 <= UnitValue(low) <= 0xDFFF
  }

  function SpelledChar(x: Char): Bytes {
    match x
    case Raw(c) => [c]
    case Short(c) =>
      [0x5C, if c == 0x08 then 0x62 else if c == 0x0C then 0x66 else if c == 0x0A then 0x6E
             else if c == 0x0D then 0x72 else if c == 0x09 then 0x74 else c]
    case Escape(u) => SpelledUnit(u)
    case Pair(high, low) => SpelledUnit(high) + SpelledUnit(low)
  }

  // What it stands for; two code units have ten bits each.
  function CharText(x: Char): (text: Bytes)
    ensures 1 <= |text| <= 4
  {
    match x
    case Raw(c) => [c]
    case Short(c) => [c]
    case Escape(u) => Utf8(UnitValue(u))
    case Pair(high, low) => Utf8(0x1_0000 + 0x400 * (UnitValue(high) % 0x400) + UnitValue(low) % 0x400)
  }

  predicate ProperChars(xs: seq<Char>) {
    forall i | 0 <= i < |xs| :: ProperChar(xs[i])
  }

  function SpelledChars(xs: seq<Char>): Bytes {
    if xs == [] then [] else SpelledChar(xs[0]) + SpelledChars(xs[1..])
  }

  function CharsText(xs: seq<Char>): Bytes
  {
    if xs == [] then [] else CharText(xs[0]) + CharsText(xs[1..])
  }

  function SpelledString(xs: seq<Char>): Bytes {
    [0x22] + SpelledChars(xs) + [0x22]
  }

  // ---------------------------------------------------------------------------
  // Numbers (section 6).

  type Digit = n: nat | n < 10

  datatype Sign = Unsigned | Plus | Minus
  datatype Exponent = NoExponent | Exponent(upper: bool, sign: Sign, digits: seq<Digit>)

  // No digits of a fraction mean that there is none.
  datatype Number = Number(minus: bool, integer: seq<Digit>, fraction: seq<Digit>, exponent: Exponent)

  function SpelledDigits(ds: seq<Digit>): (digits: Bytes)
    ensures |digits| == |ds| && forall i | 0 <= i < |ds| :: digits[i] as int == 0x30 + ds[i] as int
  {
    seq(|ds|, i requires 0 <= i < |ds| => (0x30 + ds[i] as int) as byte)
  }

  predicate ProperNumber(n: Number) {
    && n.integer != [] && (|n.integer| > 1 ==> n.integer[0] != 0)
    && (n.exponent.Exponent? ==> n.exponent.digits != [])
  }

  function SpelledFraction(ds: seq<Digit>): Bytes {
    if ds == [] then [] else [0x2E] + SpelledDigits(ds)
  }

  function SpelledSign(s: Sign): Bytes {
    match s case Unsigned => [] case Plus => [0x2B] case Minus => [0x2D]
  }

  function SpelledExponent(e: Exponent): Bytes {
    match e
    case NoExponent => []
    case Exponent(upper, sign, digits) => [if upper then 0x45 else 0x65] + SpelledSign(sign) + SpelledDigits(digits)
  }

  function SpelledNumber(n: Number): Bytes {
    (if n.minus then [0x2D] else []) + SpelledDigits(n.integer) + SpelledFraction(n.fraction)
    + SpelledExponent(n.exponent)
  }

  function ValueOf(ds: seq<Digit>): nat {
    if ds == [] then 0 else 10 * ValueOf(ds[..|ds| - 1]) + ds[|ds| - 1]
  }

  // A number without fraction and exponent of at most 64 bits is said as the narrowest integer event of its
  // sign, any other one as a double.
  function NumberEvent(n: Number): Event {
    var m := ValueOf(n.integer);
    if n.fraction != [] || n.exponent.Exponent? then Double(SpelledNumber(n))
    else if n.minus then
      if m <= 0x8000_0000 then Int(0 - m) else if m <= 0x8000_0000_0000_0000 then Int64(0 - m)
      else Double(SpelledNumber(n))
    else
      if m <= 0xFFFF_FFFF then Uint(m) else if m <= 0xFFFF_FFFF_FFFF_FFFF then Uint64(m)
      else Double(SpelledNumber(n))
  }

  // ---------------------------------------------------------------------------
  // Values (sections 3 to 5).

  datatype Syntax =
    | NullWord
    | TrueWord
    | FalseWord
    | NumberOf(number: Number)
    | StringOf(chars: seq<Char>)
    | ArrayOf(inside: Bytes, items: seq<Item>)      // `inside` is what an empty one has between its brackets
    | ObjectOf(inside: Bytes, fields: seq<Field>)

  datatype Item = Item(before: Bytes, value: Syntax, after: Bytes)

  datatype Field =
    Field(before: Bytes, name: seq<Char>, beforeColon: Bytes, afterColon: Bytes, value: Syntax, after: Bytes)

  predicate ProperValue(g: Syntax)
    decreases g
  {
    match g
    case NumberOf(n) => ProperNumber(n)
    case StringOf(xs) => ProperChars(xs)
    case ArrayOf(inside, items) => Blank(inside) && forall x | x in items :: ProperItem(x)
    case ObjectOf(inside, fields) => Blank(inside) && forall x | x in fields :: ProperField(x)
    case _ => true
  }

  predicate ProperItem(x: Item)
    decreases x
  {
    Blank(x.before) && ProperValue(x.value) && Blank(x.after)
  }

  predicate ProperField(x: Field)
    decreases x
  {
    && Blank(x.before) && ProperChars(x.name) && Blank(x.beforeColon) && Blank(x.afterColon)
    && ProperValue(x.value) && Blank(x.after)
  }

  function Spelled(g: Syntax): (text: Bytes)
    decreases g
  {
    match g
    case NullWord => [0x6E, 0x75, 0x6C, 0x6C]
    case TrueWord => [0x74, 0x72, 0x75, 0x65]
    case FalseWord => [0x66, 0x61, 0x6C, 0x73, 0x65]
    case NumberOf(n) => SpelledNumber(n)
    case StringOf(xs) => SpelledString(xs)
    case ArrayOf(inside, items) => [0x5B] + (if items == [] then inside else SpelledItems(items)) + [0x5D]
    case ObjectOf(inside, fields) => [0x7B] + (if fields == [] then inside else SpelledFields(fields)) + [0x7D]
  }

  function SpelledItem(x: Item): Bytes
    decreases x
  {
    x.before + Spelled(x.value) + x.after
  }

  // With commas between them.
  function SpelledItems(items: seq<Item>): Bytes
    decreases items
  {
    if items == [] then []
    else SpelledItem(items[0]) + (if |items| == 1 then [] else [0x2C] + SpelledItems(items[1..]))
  }

  function SpelledField(x: Field): Bytes
    decreases x
  {
    x.before + SpelledString(x.name) + x.beforeColon + [0x3A] + x.afterColon + Spelled(x.value) + x.after
  }

  function SpelledFields(fields: seq<Field>): Bytes
    decreases fields
  {
    if fields == [] then []
    else SpelledField(fields[0]) + (if |fields| == 1 then [] else [0x2C] + SpelledFields(fields[1..]))
  }

  // The events of a value; counts have 32 bits.
  function Said(g: Syntax): seq<Event>
    decreases g
  {
    match g
    case NullWord => [Null]
    case TrueWord => [Bool(true)]
    case FalseWord => [Bool(false)]
    case NumberOf(n) => [NumberEvent(n)]
    case StringOf(xs) => [String(CharsText(xs))]
    case ArrayOf(_, items) => [StartArray] + ItemsSaid(items) + [EndArray(|items| % 0x1_0000_0000)]
    case ObjectOf(_, fields) => [StartObject] + FieldsSaid(fields) + [EndObject(|fields| % 0x1_0000_0000)]
  }

  function ItemsSaid(items: seq<Item>): seq<Event>
    decreases items
  {
    if items == [] then [] else Said(items[0].value) + ItemsSaid(items[1..])
  }

  function FieldSaid(x: Field): seq<Event>
    decreases x
  {
    [Key(CharsText(x.name))] + Said(x.value)
  }

  function FieldsSaid(fields: seq<Field>): seq<Event>
    decreases fields
  {
    if fields == [] then []
    else FieldSaid(fields[0]) + FieldsSaid(fields[1..])
  }

  // The value: an integer of at most 64 bits, or a double, which stays as its text.
  function NumberMeaning(n: Number): Json {
    if NumberEvent(n).Double? then JDouble(SpelledNumber(n))
    else JInt(if n.minus then 0 - ValueOf(n.integer) else ValueOf(n.integer))
  }

  function Meaning(g: Syntax): Json
    decreases g
  {
    match g
    case NullWord => JNull
    case TrueWord => JBool(true)
    case FalseWord => JBool(false)
    case NumberOf(n) => NumberMeaning(n)
    case StringOf(xs) => JString(CharsText(xs))
    case ArrayOf(_, items) => JArray(ItemsMeaning(items))
    case ObjectOf(_, fields) => JObject(FieldsMeaning(fields))
  }

  function ItemsMeaning(items: seq<Item>): (elems: seq<Json>)
    ensures |elems| == |items|
    decreases items
  {
    if items == [] then [] else [Meaning(items[0].value)] + ItemsMeaning(items[1..])
  }

  function FieldsMeaning(fields: seq<Field>): (members: seq<Member>)
    ensures |members| == |fields|
    decreases fields
  {
    if fields == [] then []
    else [Member(CharsText(fields[0].name), Meaning(fields[0].value))] + FieldsMeaning(fields[1..])
  }

  // No array or object has more entries than 32 bits can count.
  predicate Countable(g: Syntax)
    decreases g
  {
    match g
    case ArrayOf(_, items) => |items| < 0x1_0000_0000 && forall x | x in items :: Countable(x.value)
    case ObjectOf(_, fields) => |fields| < 0x1_0000_0000 && forall x | x in fields :: Countable(x.value)
    case _ => true
  }

  // None of its doubles overflows.
  predicate InRange(overflows: Bytes -> bool, g: Syntax)
    decreases g
  {
    match g
    case NumberOf(n) => NumberEvent(n).Double? ==> !overflows(SpelledNumber(n))
    case ArrayOf(_, items) => forall x | x in items :: InRange(overflows, x.value)
    case ObjectOf(_, fields) => forall x | x in fields :: InRange(overflows, x.value)
    case _ => true
  }

  // A text: white space, a value, white space; what follows a NUL is not looked at.
  datatype Document = Document(before: Bytes, value: Syntax, after: Bytes, unread: Bytes)

  predicate Spells(overflows: Bytes -> bool, d: Document, text: Bytes) {
    && Blank(d.before) && ProperValue(d.value) && Blank(d.after) && (d.unread == [] || d.unread[0] == 0)
    && InRange(overflows, d.value)
    && text == d.before + Spelled(d.value) + d.after + d.unread
  }
}
