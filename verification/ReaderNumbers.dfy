/** The string streams, and the number loops of the reader over them. */
module ReaderNumbers {
  import opened BigIntBytes
  import opened JsonTree
  import opened JsonText

  newtype uint32 = x: int | 0 <= x < 0x1_0000_0000
  newtype uint64 = x: int | 0 <= x < 0x1_0000_0000_0000_0000

  /** GenericStringStream and GenericInsituStringStream: a cursor over a text, and for the second
      one another over what is written into the same buffer. */
  class StringStream {
    const src: array<byte>
    var pos: nat
    var dst: nat

    ghost predicate Valid()
      reads this
    {
      pos <= src.Length
    }

    constructor (src: array<byte>)
      ensures Valid() && this.src == src && pos == 0 && dst == 0
    {
      this.src, pos, dst := src, 0, 0;
    }

    ghost function Rest(): (r: Bytes)
      requires Valid()
      reads this, src
      ensures |r| == src.Length - pos
    {
      src[pos..]
    }

    function Front(): (c: byte)
      requires Valid()
      reads this, src
      ensures c == Peek(Rest())
    {
      if pos == src.Length then 0 else src[pos]
    }

    method Take() returns (c: byte)
      requires Valid() && Rest() != []
      modifies `pos
      ensures Valid() && c == old(Front()) && Rest() == old(Rest())[1..]
    {
      c := src[pos];
      pos := pos + 1;
    }

    method Consume(expected: byte) returns (ok: bool)
      requires Valid() && expected != 0
      modifies `pos
      ensures Valid() && ok == (old(Front()) == expected)
      ensures Rest() == if ok then old(Rest())[1..] else old(Rest())
    {
      ok := Front() == expected;
      if ok {
        var _ := Take();
      }
    }

    method SkipWhitespace()
      requires Valid()
      modifies `pos
      ensures Valid() && Rest() == SkipSpaces(old(Rest()))
    {
      while IsSpace(Front())
        invariant Valid() && SkipSpaces(Rest()) == SkipSpaces(old(Rest()))
        decreases |Rest()|
      {
        var _ := Take();
      }
    }
  }

  // ---------------------------------------------------------------------------
  // Digits.

  lemma {:induction false} DigitCountFrom(r: Bytes, k: nat)
    requires k <= |r| && forall i | 0 <= i < k :: IsDigit(r[i])
    ensures DigitCount(r) == k + DigitCount(r[k..])
  {
    if k == 0 {
      assert r[0..] == r;
    } else {
      assert r[k..] == r[1..][k - 1..];
      DigitCountFrom(r[1..], k - 1);
    }
  }

  // Where the digits of r end, when k of them are behind us.
  lemma DigitsEnd(r: Bytes, k: nat)
    requires k <= |r| && forall i | 0 <= i < k :: IsDigit(r[i])
    ensures k <= DigitCount(r) && AfterDigits(r[k..]) == AfterDigits(r)
    ensures !IsDigit(Peek(r[k..])) <==> DigitCount(r) == k
  {
    DigitCountFrom(r, k);
  }

  lemma DecimalStep(r: Bytes, k: nat)
    requires k < |r| && forall i | 0 <= i <= k :: IsDigit(r[i])
    ensures Decimal(r[..k + 1]) == Decimal(r[..k]) * 10 + DigitValue(r[k])
  {
    assert r[..k + 1][..k] == r[..k];
  }

  lemma {:induction false} DecimalGrows(r: Bytes, k: nat, n: nat)
    requires k <= n <= |r| && forall i | 0 <= i < n :: IsDigit(r[i])
    ensures Decimal(r[..k]) <= Decimal(r[..n])
    decreases n
  {
    if k < n {
      DecimalStep(r, n - 1);
      DecimalGrows(r, k, n - 1);
    }
  }

  function LeadingDigits(r: Bytes): (digits: Bytes)
    ensures forall i | 0 <= i < |digits| :: IsDigit(digits[i])
  {
    r[..DigitCount(r)]
  }

  function AfterDigits(r: Bytes): Bytes {
    r[DigitCount(r)..]
  }

  lemma DigitsStep(r: Bytes)
    ensures IsDigit(Peek(r)) ==>
              && LeadingDigits(r) == [r[0]] + LeadingDigits(r[1..])
              && LeadingDigits(r) != [] && LeadingDigits(r)[0] == r[0] && LeadingDigits(r)[1..] == LeadingDigits(r[1..])
              && AfterDigits(r) == AfterDigits(r[1..])
    ensures !IsDigit(Peek(r)) ==> LeadingDigits(r) == [] && AfterDigits(r) == r
  {
  }

  method SkipDigits(s: StringStream)
    requires s.Valid()
    modifies s`pos
    ensures s.Valid() && s.Rest() == AfterDigits(old(s.Rest()))
  {
    ghost var r := s.Rest();
    while IsDigit(s.Front())
      invariant s.Valid() && AfterDigits(s.Rest()) == AfterDigits(r)
      decreases |s.Rest()|
    {
      DigitsStep(s.Rest());
      var _ := s.Take();
    }
    DigitsStep(s.Rest());
  }

  // How far the digits r have been read into an accumulator.
  ghost predicate Accumulated(s: StringStream, r: Bytes, k: nat, value: int)
    reads s, s.src
  {
    && s.Valid() && k <= |r| && s.Rest() == r[k..]
    && (forall i | 0 <= i < k :: IsDigit(r[i]))
    && value == Decimal(r[..k])
  }

  // The largest magnitudes of the 32-bit and 64-bit events.
  function Limit32(minus: bool): nat {
    if minus then 0x8000_0000 else 0xFFFF_FFFF
  }

  function Limit64(minus: bool): nat {
    if minus then 0x8000_0000_0000_0000 else 0xFFFF_FFFF_FFFF_FFFF
  }

  // The next digit would take the value past this limit, so the whole literal is past it.
  lemma PastLimit(s: StringStream, r: Bytes, k: nat, value: int, limit: nat)
    requires Accumulated(s, r, k, value) && IsDigit(s.Front())
    requires value * 10 + DigitValue(s.Front()) > limit
    ensures Decimal(r[..DigitCount(r)]) > limit
  {
    assert r[k] == s.Front();
    DecimalStep(r, k);
    DigitCountFrom(r, k);
    DecimalGrows(r, k + 1, DigitCount(r));
  }

  // The two loops over a 32-bit accumulator, for literals with and without a minus. They stop in
  // front of the digit that would not fit.
  method Read32(s: StringStream, minus: bool) returns (i: uint32, use64bit: bool, ghost k: nat)
    requires s.Valid() && 0x31 <= s.Front() <= 0x39
    modifies s`pos
    ensures Accumulated(s, old(s.Rest()), k, i as int) && (use64bit <==> IsDigit(s.Front()))
    ensures i as int <= Limit32(minus)
    ensures var r := old(s.Rest());
            use64bit ==> Decimal(r[..DigitCount(r)]) > Limit32(minus)
  {
    ghost var r := s.Rest();
    var limit: uint32 := if minus then 214748364 else 429496729;
    var last: byte := if minus then 0x38 else 0x35;
    var c := s.Take();
    i, use64bit, k := c as uint32 - 0x30, false, 1;
    assert r[..1][..0] == [];
    while IsDigit(s.Front())
      invariant Accumulated(s, r, k, i as int) && !use64bit
      invariant i as int <= Limit32(minus)
      decreases |s.Rest()|
    {
      if i >= limit && (i != limit || s.Front() > last) {
        PastLimit(s, r, k, i as int, Limit32(minus));
        use64bit := true;
        break;
      }
      DecimalStep(r, k);
      c := s.Take();
      i := i * 10 + (c as uint32 - 0x30);
      k := k + 1;
    }
  }

  // The two loops over a 64-bit accumulator.
  method Read64(s: StringStream, minus: bool, ghost r: Bytes, ghost k0: nat, start: uint64)
    returns (i64: uint64, useDouble: bool, ghost k: nat)
    requires Accumulated(s, r, k0, start as int)
    requires start as int <= Limit64(minus)
    modifies s`pos
    ensures Accumulated(s, r, k, i64 as int) && (useDouble <==> IsDigit(s.Front()))
    ensures i64 as int <= Limit64(minus)
    ensures useDouble ==> Decimal(r[..DigitCount(r)]) > Limit64(minus)
  {
    var limit: uint64 := if minus then 0x0CCC_CCCC_CCCC_CCCC else 0x1999_9999_9999_9999;
    var last: byte := if minus then 0x38 else 0x35;
    i64, useDouble, k := start, false, k0;
    while IsDigit(s.Front())
      invariant Accumulated(s, r, k, i64 as int) && !useDouble
      invariant i64 as int <= Limit64(minus)
      decreases |s.Rest()|
    {
      if i64 >= limit && (i64 != limit || s.Front() > last) {
        PastLimit(s, r, k, i64 as int, Limit64(minus));
        useDouble := true;
        break;
      }
      DecimalStep(r, k);
      var c := s.Take();
      i64 := i64 * 10 + (c as uint64 - 0x30);
      k := k + 1;
    }
  }

  // ~n + 1, converted to a signed integer of the same width.
  function Negated32(n: uint32): (m: int)
    ensures n <= 0x8000_0000 ==> m == -(n as int)
  {
    var m := (0x1_0000_0000 - n as int) % 0x1_0000_0000;
    if m < 0x8000_0000 then m else m - 0x1_0000_0000
  }

  function Negated64(n: uint64): (m: int)
    ensures n <= 0x8000_0000_0000_0000 ==> m == -(n as int)
  {
    var m := (0x1_0000_0000_0000_0000 - n as int) % 0x1_0000_0000_0000_0000;
    if m < 0x8000_0000_0000_0000 then m else m - 0x1_0000_0000_0000_0000
  }

  lemma SmallLiteral(minus: bool, n: int)
    requires 0 <= n <= Limit32(minus)
    ensures LiteralEvent(minus, n) == [if minus then Int(-n) else Uint(n)]
  {
  }

  lemma LargeLiteral(minus: bool, n: int)
    requires n > Limit32(minus)
    ensures LiteralEvent(minus, n) ==
            if n <= Limit64(minus) then [if minus then Int64(-n) else Uint64(n)] else []
  {
  }

  // All digits of a number that does not begin with a zero; v is their value.
  method ReadDigits(s: StringStream, minus: bool)
    returns (i: uint32, use64bit: bool, i64: uint64, useDouble: bool, ghost v: nat)
    requires s.Valid() && 0x31 <= s.Front() <= 0x39
    modifies s`pos
    ensures s.Valid() && s.Rest() == AfterDigits(old(s.Rest()))
    ensures v == Decimal(LeadingDigits(old(s.Rest())))
    ensures (use64bit <==> v > Limit32(minus)) && (useDouble <==> v > Limit64(minus))
    ensures !use64bit ==> i as int == v
    ensures use64bit && !useDouble ==> i64 as int == v
  {
    ghost var r := s.Rest();
    ghost var k;
    i64, useDouble := 0, false;
    i, use64bit, k := Read32(s, minus);
    v := Decimal(LeadingDigits(r));
    if use64bit {
      i64, useDouble, k := Read64(s, minus, r, k, i as uint64);
    }
    DigitsEnd(r, k);
    if useDouble { SkipDigits(s); }
  }

  /** The integer part of a number: the value of every literal within 64 bits is read exactly and
      sent in the event its range selects; for the others no event is chosen. */
  method ReadInteger(s: StringStream, minus: bool) returns (useDouble: bool, event: Event)
    requires s.Valid() && IsDigit(s.Front())
    modifies s`pos
    ensures var r := old(s.Rest());
            var n := IntegerLength(r);
            && s.Valid() && s.Rest() == r[n..]
            && LiteralEvent(minus, Decimal(r[..n])) == if useDouble then [] else [event]
  {
    ghost var r := s.Rest();
    var i: uint32, use64bit, i64: uint64 := 0, false, 0;
    useDouble := false;
    if s.Front() == ZERO {
      var _ := s.Take();
      assert r[..1][..0] == [];
      SmallLiteral(minus, 0);
    } else {
      ghost var v;
      i, use64bit, i64, useDouble, v := ReadDigits(s, minus);
      if use64bit {
        LargeLiteral(minus, v);
      } else {
        SmallLiteral(minus, v);
      }
    }
    if useDouble {
      event := Null;
    } else if use64bit {
      event := if minus then Int64(Negated64(i64)) else Uint64(i64 as int);
    } else {
      event := if minus then Int(Negated32(i)) else Uint(i as int);
    }
  }

  // ---------------------------------------------------------------------------
  // The exponent behind -expFrac digits of fraction.

  // The largest exponent that may take one more digit; the division truncates.
  function MaxNegativeExponent(expFrac: int): int
    requires INT32_MIN <= expFrac <= 0
  {
    if expFrac + 2147483639 >= 0 then (expFrac + 2147483639) / 10 else 0
  }

  // The exponent that is read: digits are added until it is past the limit.
  function ExponentRead(exp: nat, r: Bytes, limit: int): (e: nat)
    ensures e >= exp
    decreases |r|
  {
    if !IsDigit(Peek(r)) then exp
    else
      var next := exp * 10 + DigitValue(r[0]);
      if next > limit then next else ExponentRead(next, r[1..], limit)
  }

  function NegativeExponent(r: Bytes, expFrac: int): nat
    requires IsDigit(Peek(r)) && INT32_MIN <= expFrac <= 0
  {
    ExponentRead(DigitValue(r[0]), r[1..], MaxNegativeExponent(expFrac))
  }

  const MOST_FRACTION_DIGITS: int := 2147483549

  lemma {:induction false} ExponentBounded(exp: nat, r: Bytes, limit: nat)
    requires exp <= limit
    ensures ExponentRead(exp, r, limit) <= limit * 10 + 9
    decreases |r|
  {
    if IsDigit(Peek(r)) {
      var next := exp * 10 + DigitValue(r[0]);
      if next <= limit { ExponentBounded(next, r[1..], limit); }
    }
  }

  /** -exp + expFrac stays within 32 bits for all exponents exactly when at most 2147483549 digits
      of fraction have been counted; behind more, an exponent of -99 takes it below. */
  lemma NegativeExponentFits(expFrac: int)
    requires INT32_MIN <= expFrac <= 0
    ensures (forall r: Bytes | IsDigit(Peek(r)) :: expFrac - NegativeExponent(r, expFrac) >= INT32_MIN)
            <==> -expFrac <= MOST_FRACTION_DIGITS
  {
    if -expFrac <= MOST_FRACTION_DIGITS {
      forall r: Bytes | IsDigit(Peek(r)) ensures expFrac - NegativeExponent(r, expFrac) >= INT32_MIN {
        ExponentBounded(DigitValue(r[0]), r[1..], MaxNegativeExponent(expFrac));
      }
    } else {
      var r: Bytes := [NINE, NINE];
      assert r[1..] == [NINE] && IsDigit(Peek(r)) && IsDigit(Peek(r[1..]));
      assert ExponentRead(9, r[1..], MaxNegativeExponent(expFrac)) == 99;
      assert expFrac - NegativeExponent(r, expFrac) < INT32_MIN;
    }
  }

  lemma ExponentUnrolled(r: Bytes, exp: nat, limit: int)
    requires IsDigit(Peek(r))
    ensures var next := exp * 10 + DigitValue(r[0]);
            ExponentRead(exp, r, limit) == if next > limit then next else ExponentRead(next, r[1..], limit)
  {
  }

  method TakeExponentDigit(s: StringStream, exp: int, maxExp: int) returns (next: int)
    requires s.Valid() && IsDigit(s.Front()) && 0 <= exp <= maxExp <= 214748363
    modifies s`pos
    ensures s.Valid() && |s.Rest()| < old(|s.Rest()|) && AfterDigits(s.Rest()) == AfterDigits(old(s.Rest()))
    ensures 0 <= next <= INT32_MAX
    ensures ExponentRead(exp, old(s.Rest()), maxExp) ==
            if next > maxExp then next else ExponentRead(next, s.Rest(), maxExp)
  {
    ghost var r := s.Rest();
    DigitsStep(r);
    ExponentUnrolled(r, exp, maxExp);
    var c := s.Take();
    next := exp * 10 + DigitValue(c);
  }

  /** The loop over the digits of a negative exponent: no 32-bit value overflows. */
  method ReadNegativeExponent(s: StringStream, expFrac: int) returns (exp: int)
    requires s.Valid() && IsDigit(s.Front()) && -MOST_FRACTION_DIGITS <= expFrac <= 0
    modifies s`pos
    ensures s.Valid() && s.Rest() == AfterDigits(old(s.Rest()))
    ensures exp == NegativeExponent(old(s.Rest()), expFrac)
  {
    ghost var r, e := s.Rest(), NegativeExponent(s.Rest(), expFrac);
    DigitsStep(r);
    var maxExp := (expFrac + 2147483639) / 10;
    var c := s.Take();
    exp := DigitValue(c);
    while IsDigit(s.Front())
      invariant s.Valid() && AfterDigits(s.Rest()) == AfterDigits(r)
      invariant 0 <= exp <= maxExp && ExponentRead(exp, s.Rest(), maxExp) == e
      decreases |s.Rest()|
    {
      exp := TakeExponentDigit(s, exp, maxExp);
      if exp > maxExp {
        SkipDigits(s);
        return;
      }
    }
    DigitsStep(s.Rest());
  }

  // A positive exponent is an error once it is past this limit.
  function MaxPositiveExponent(expFrac: int): int {
    308 - expFrac
  }

  function PositiveExponent(r: Bytes, expFrac: int): nat
    requires IsDigit(Peek(r)) && expFrac <= 0
  {
    ExponentRead(DigitValue(r[0]), r[1..], MaxPositiveExponent(expFrac))
  }

  const MOST_BEFORE_POSITIVE: int := 214748055

  lemma Digit(c: byte, n: nat)
    requires n < 10 && c as nat == 0x30 + n
    ensures IsDigit(c) && DigitValue(c) == n
  {
  }

  // One digit more, while the limit is not passed.
  lemma ExponentGoesOn(exp: nat, c: byte, rest: Bytes, limit: int, n: nat)
    requires n < 10 && c as nat == 0x30 + n && exp * 10 + n <= limit
    ensures ExponentRead(exp, [c] + rest, limit) == ExponentRead(exp * 10 + n, rest, limit)
  {
    Digit(c, n);
    ExponentUnrolled([c] + rest, exp, limit);
    assert ([c] + rest)[1..] == rest;
  }

  lemma ExponentEnds(exp: nat, c: byte, limit: int, n: nat)
    requires n < 10 && c as nat == 0x30 + n
    ensures ExponentRead(exp, [c], limit) == exp * 10 + n
  {
    Digit(c, n);
    ExponentUnrolled([c], exp, limit);
    assert [c][1..] == [];
  }

  // The exponent 2147483648 is read to its last digit.
  lemma LargestExponent(limit: int) returns (r: Bytes)
    requires limit >= 214748364
    ensures IsDigit(Peek(r)) && ExponentRead(DigitValue(r[0]), r[1..], limit) == 2147483648
  {
    var r1: Bytes := [0x38];
    var r2, r3 := [0x34] + r1, [0x36] + ([0x34] + r1);
    var r4, r5 := [0x33] + r3, [0x38] + ([0x33] + r3);
    var r6, r7 := [0x34] + r5, [0x37] + ([0x34] + r5);
    var r8, r9 := [0x34] + r7, [0x31] + ([0x34] + r7);
    r := [0x32] + r9;
    assert r[1..] == r9 && DigitValue(r[0]) == 2;
    ExponentGoesOn(2, 0x31, r8, limit, 1);
    ExponentGoesOn(21, 0x34, r7, limit, 4);
    ExponentGoesOn(214, 0x37, r6, limit, 7);
    ExponentGoesOn(2147, 0x34, r5, limit, 4);
    ExponentGoesOn(21474, 0x38, r4, limit, 8);
    ExponentGoesOn(214748, 0x33, r3, limit, 3);
    ExponentGoesOn(2147483, 0x36, r2, limit, 6);
    ExponentGoesOn(21474836, 0x34, r1, limit, 4);
    ExponentEnds(214748364, 0x38, limit, 8);
  }

  /** A positive exponent stays within 32 bits for all its texts exactly when at most 214748055 digits of
      fraction have been counted: the limit grows with them. */
  lemma PositiveExponentFits(expFrac: int)
    requires expFrac <= 0
    ensures (forall r: Bytes | IsDigit(Peek(r)) :: PositiveExponent(r, expFrac) <= INT32_MAX)
            <==> -expFrac <= MOST_BEFORE_POSITIVE
  {
    if -expFrac <= MOST_BEFORE_POSITIVE {
      forall r: Bytes | IsDigit(Peek(r)) ensures PositiveExponent(r, expFrac) <= INT32_MAX {
        ExponentBounded(DigitValue(r[0]), r[1..], MaxPositiveExponent(expFrac));
      }
    } else {
      var r := LargestExponent(MaxPositiveExponent(expFrac));
      assert PositiveExponent(r, expFrac) > INT32_MAX;
    }
  }

  /** The loop over the digits of a positive exponent: it ends at the first value past the limit. */
  method ReadPositiveExponent(s: StringStream, expFrac: int) returns (tooBig: bool, exp: int)
    requires s.Valid() && IsDigit(s.Front()) && -MOST_BEFORE_POSITIVE <= expFrac <= 0
    modifies s`pos
    ensures s.Valid() && exp == PositiveExponent(old(s.Rest()), expFrac) <= INT32_MAX
    ensures tooBig <==> exp > MaxPositiveExponent(expFrac)
    ensures !tooBig ==> s.Rest() == AfterDigits(old(s.Rest()))
  {
    ghost var r, e := s.Rest(), PositiveExponent(s.Rest(), expFrac);
    DigitsStep(r);
    PositiveExponentFits(expFrac);
    var maxExp := 308 - expFrac;
    var c := s.Take();
    exp := DigitValue(c);
    while IsDigit(s.Front())
      invariant s.Valid() && AfterDigits(s.Rest()) == AfterDigits(r)
      invariant 0 <= exp <= maxExp && ExponentRead(exp, s.Rest(), maxExp) == e
      decreases |s.Rest()|
    {
      exp := TakeExponentDigit(s, exp, maxExp);
      if exp > maxExp { return true, exp; }
    }
    DigitsStep(s.Rest());
    return false, exp;
  }

  // ---------------------------------------------------------------------------
  // How many digits of a fraction are counted in expFrac.

  const FAST_LIMIT: nat := 0x1F_FFFF_FFFF_FFFF

  // `significand` is what has been read of the number, `digits` how many digits from its first non-zero
  // one on, and `fast` says that it is still held as an integer.
  function Counted(r: Bytes, significand: nat, digits: nat, fast: bool): (n: nat)
    ensures n <= DigitCount(r)
    decreases |r|
  {
    if !IsDigit(Peek(r)) then 0
    else if fast && significand > FAST_LIMIT then CountedSlow(r, significand > 0, digits)
    else if !fast then CountedSlow(r, significand > 0, digits)
    else
      var next := significand * 10 + DigitValue(r[0]);
      1 + Counted(r[1..], next, if next != 0 then digits + 1 else digits, true)
  }

  // As a double, which is positive once a digit was not zero, up to 17 digits.
  function CountedSlow(r: Bytes, positive: bool, digits: nat): (n: nat)
    ensures n <= DigitCount(r)
    decreases |r|
  {
    if !IsDigit(Peek(r)) then 0
    else if digits < 17 then
      var next := positive || DigitValue(r[0]) > 0;
      1 + CountedSlow(r[1..], next, if next then digits + 1 else digits)
    else CountedSlow(r[1..], positive, digits)
  }

  /** Over a whole fraction, with any exponent behind it, the sum stays within 32 bits exactly if the
      digits counted are at most 2147483549, which they are if there are no more digits than that. */
  lemma FractionFits(r: Bytes, significand: nat, digits: nat, fast: bool)
    requires Counted(r, significand, digits, fast) <= -INT32_MIN
    ensures (forall t: Bytes | IsDigit(Peek(t)) ::
               var expFrac: int := 0 - Counted(r, significand, digits, fast);
               expFrac - NegativeExponent(t, expFrac) >= INT32_MIN)
            <==> Counted(r, significand, digits, fast) <= MOST_FRACTION_DIGITS
    ensures DigitCount(r) <= MOST_FRACTION_DIGITS ==> Counted(r, significand, digits, fast) <= MOST_FRACTION_DIGITS
  {
    NegativeExponentFits(0 - Counted(r, significand, digits, fast));
  }

  /** The same with any positive exponent behind the fraction, at a tenth of that. */
  lemma FractionFitsPositive(r: Bytes, significand: nat, digits: nat, fast: bool)
    ensures (forall t: Bytes | IsDigit(Peek(t)) ::
               PositiveExponent(t, 0 - Counted(r, significand, digits, fast)) <= INT32_MAX)
            <==> Counted(r, significand, digits, fast) <= MOST_BEFORE_POSITIVE
    ensures DigitCount(r) <= MOST_BEFORE_POSITIVE ==> Counted(r, significand, digits, fast) <= MOST_BEFORE_POSITIVE
  {
    PositiveExponentFits(0 - Counted(r, significand, digits, fast));
  }

  /** Zeros behind "0." are all counted. */
  lemma {:induction false} ZerosCounted(r: Bytes, digits: nat)
    requires forall i | 0 <= i < DigitCount(r) :: r[i] == ZERO
    ensures Counted(r, 0, digits, true) == DigitCount(r)
    decreases |r|
  {
    if IsDigit(Peek(r)) {
      assert r[0] == ZERO;
      assert forall i | 0 <= i < DigitCount(r[1..]) :: r[1..][i] == r[i + 1];
      ZerosCounted(r[1..], digits);
    }
  }

  // The loop while the significand is a 64-bit integer.
  method CountFast(s: StringStream, start: uint64, significandDigit: nat)
    returns (i64: uint64, digits: nat, expFrac: int)
    requires s.Valid()
    modifies s`pos
    ensures s.Valid() && AfterDigits(s.Rest()) == AfterDigits(old(s.Rest()))
    ensures Counted(old(s.Rest()), start as nat, significandDigit, true) ==
            -expFrac + CountedSlow(s.Rest(), i64 > 0, digits)
  {
    ghost var r := s.Rest();
    i64, digits, expFrac := start, significandDigit, 0;
    while IsDigit(s.Front())
      invariant s.Valid() && AfterDigits(s.Rest()) == AfterDigits(r)
      invariant Counted(r, start as nat, significandDigit, true) ==
                -expFrac + Counted(s.Rest(), i64 as nat, digits, true)
      decreases |s.Rest()|
    {
      if i64 as nat > FAST_LIMIT { return; }
      DigitsStep(s.Rest());
      var c := s.Take();
      i64 := i64 * 10 + DigitValue(c) as uint64;
      expFrac := expFrac - 1;
      if i64 != 0 { digits := digits + 1; }
    }
  }

  // A digit of it: whether it counts, and what is known behind it.
  method TakeSlowDigit(s: StringStream, positive: bool, digits: nat) returns (counts: bool, next: bool, more: nat)
    requires s.Valid() && IsDigit(s.Front())
    modifies s`pos
    ensures s.Valid() && |s.Rest()| < old(|s.Rest()|) && AfterDigits(s.Rest()) == AfterDigits(old(s.Rest()))
    ensures CountedSlow(old(s.Rest()), positive, digits) ==
            (if counts then 1 else 0) + CountedSlow(s.Rest(), next, more)
  {
    DigitsStep(s.Rest());
    var c := s.Take();
    counts, next, more := digits < 17, positive, digits;
    if counts {
      next := positive || DigitValue(c) > 0;
      if next { more := digits + 1; }
    }
  }

  // The loop while it is a double, of which only its sign matters here.
  method CountSlow(s: StringStream, start: bool, significandDigit: nat, from: int) returns (expFrac: int)
    requires s.Valid()
    modifies s`pos
    ensures s.Valid() && s.Rest() == AfterDigits(old(s.Rest()))
    ensures expFrac == from - CountedSlow(old(s.Rest()), start, significandDigit)
  {
    ghost var r := s.Rest();
    var positive, digits := start, significandDigit;
    expFrac := from;
    while IsDigit(s.Front())
      invariant s.Valid() && AfterDigits(s.Rest()) == AfterDigits(r)
      invariant expFrac - CountedSlow(s.Rest(), positive, digits) == from - CountedSlow(r, start, significandDigit)
      decreases |s.Rest()|
    {
      var counts;
      counts, positive, digits := TakeSlowDigit(s, positive, digits);
      if counts { expFrac := expFrac - 1; }
    }
    DigitsStep(s.Rest());
  }

  /** The digits of a fraction: both loops together count as defined. */
  method CountFraction(s: StringStream, i64: uint64, useDouble: bool, significandDigit: nat) returns (expFrac: int)
    requires s.Valid()
    modifies s`pos
    ensures s.Valid() && s.Rest() == AfterDigits(old(s.Rest()))
    ensures expFrac == 0 - Counted(old(s.Rest()), i64 as nat, significandDigit, !useDouble)
  {
    var significand, digits := i64, significandDigit;
    expFrac := 0;
    if !useDouble {
      significand, digits, expFrac := CountFast(s, i64, significandDigit);
    }
    expFrac := CountSlow(s, significand > 0, digits, expFrac);
  }

  // ---------------------------------------------------------------------------
  // The whole number.

  // '.' and its digits, if there is a '.'.
  method ReadFraction(s: StringStream) returns (ok: bool, present: bool)
    requires s.Valid()
    modifies s`pos
    ensures s.Valid() && s.pos >= old(s.pos)
    ensures match AfterFraction(old(s.Rest()))
            case Bad(code, left) => !ok && code == NumberMissFraction && left == |s.Rest()|
            case Scanned(text, rest) => ok && (present <==> text != []) && s.Rest() == rest
  {
    ghost var r := s.Rest();
    ok := true;
    present := s.Consume(DOT);
    if present {
      ok := IsDigit(s.Front());
      DigitsStep(r[1..]);
      if ok { SkipDigits(s); }
      assert r[1..][DigitCount(r[1..])..] == r[1 + DigitCount(r[1..])..];
    }
  }

  method SkipSign(s: StringStream)
    requires s.Valid()
    modifies s`pos
    ensures s.Valid() && s.pos >= old(s.pos) && s.Rest() == AfterSign(old(s.Rest()))
  {
    var plus := s.Consume(PLUS);
    if !plus {
      var minus := s.Consume(MINUS);
    }
  }

  // 'e' or 'E', a sign, and digits, if there is an 'e' or 'E'.
  method ReadExponent(s: StringStream) returns (ok: bool, present: bool)
    requires s.Valid()
    modifies s`pos
    ensures s.Valid() && s.pos >= old(s.pos)
    ensures match AfterExponent(old(s.Rest()))
            case Bad(code, left) => !ok && code == NumberMissExponent && left == |s.Rest()|
            case Scanned(text, rest) => ok && (present <==> text != []) && s.Rest() == rest
  {
    ok := true;
    present := s.Consume(LOWER_E);
    if !present { present := s.Consume(UPPER_E); }
    if present {
      SkipSign(s);
      ok := IsDigit(s.Front());
      DigitsStep(s.Rest());
      if ok { SkipDigits(s); }
    }
  }

  method ReadTail(s: StringStream) returns (ok: bool, code: LexicalError, present: bool)
    requires s.Valid()
    modifies s`pos
    ensures s.Valid() && s.pos >= old(s.pos)
    ensures match AfterTail(old(s.Rest()))
            case Bad(c, left) => !ok && code == c && left == |s.Rest()|
            case Scanned(text, rest) => ok && (present <==> text != []) && s.Rest() == rest
  {
    code := NumberMissFraction;
    var exponent;
    ok, present := ReadFraction(s);
    if ok {
      code := NumberMissExponent;
      ok, exponent := ReadExponent(s);
      present := present || exponent;
    }
  }

  method ReadLiteral(s: StringStream)
    returns (ok: bool, code: LexicalError, isDouble: bool, event: Event, ghost lit: Literal)
    requires s.Valid()
    modifies s`pos
    ensures s.Valid() && s.pos >= old(s.pos) && lit == SplitNumber(old(s.Rest()))
    ensures match lit
            case BadLiteral(c, left) => !ok && code == c && left == |s.Rest()|
            case Literal(integer, hasTail, rest) =>
              && ok && s.Rest() == rest && (isDouble <==> hasTail || integer == [])
              && (integer != [] ==> event == integer[0])
  {
    lit := SplitNumber(s.Rest());
    event := Null;
    var minus := s.Consume(MINUS);
    if !IsDigit(s.Front()) {
      return false, ValueInvalid, false, event, lit;
    }
    isDouble, event := ReadInteger(s, minus);
    var tail;
    ok, code, tail := ReadTail(s);
    isDouble := isDouble || tail;
  }

  // The last step, for a literal lit at the front of r = s.src[startOffset..].
  method SelectEvent(s: StringStream, overflows: Bytes -> bool, startOffset: nat, isDouble: bool, integer: Event,
                     ghost r: Bytes, ghost lit: Literal)
    returns (ok: bool, event: Event)
    requires s.Valid() && startOffset < s.pos && r == s.src[startOffset..]
    requires lit.Literal? && lit.rest == s.Rest() && (isDouble <==> lit.hasTail || lit.integer == [])
    requires |lit.integer| <= 1 && (lit.integer != [] ==> integer == lit.integer[0] && IsNumber(integer))
    ensures ChooseEvent(overflows, r, lit) == if ok then Numeral(event, s.Rest()) else BadNumeral(NumberTooBig, |r|)
  {
    ok, event := true, integer;
    if isDouble {
      var text := s.src[startOffset..s.pos];
      assert text == r[..|r| - |s.Rest()|];
      ok, event := !overflows(text), Double(text);
    }
  }

  /** ParseNumber up to its event. The overflow of a double is the parameter's answer for the
      literal. */
  method ReadNumber(s: StringStream, overflows: Bytes -> bool)
    returns (ok: bool, code: LexicalError, offset: nat, event: Event)
    requires s.Valid()
    modifies s`pos
    ensures s.Valid() && s.pos >= old(s.pos) && offset <= s.src.Length
    ensures ScanNumber(overflows, old(s.Rest())) ==
            if ok then Numeral(event, s.Rest()) else BadNumeral(code, s.src.Length - offset)
  {
    ghost var r := s.Rest();
    var startOffset := s.pos;
    var isDouble;
    ghost var lit;
    ok, code, isDouble, event, lit := ReadLiteral(s);
    offset := s.pos;
    if ok {
      code, offset := NumberTooBig, startOffset;
      ok, event := SelectEvent(s, overflows, startOffset, isDouble, event, r, lit);
    }
  }
}
