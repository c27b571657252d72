/** The two byte forms of the shared number: BigInteger.ToByteArray in the client and
    mpz_export in the server, both least significant byte first. */
module BigIntBytes {
  newtype byte = x: int | 0 <= x < 256
  type Bytes = seq<byte>

  function Value(bytes: seq<byte>): nat {
    if bytes == [] then 0 else bytes[0] as nat + 256 * Value(bytes[1..])
  }

  // mpz_export writes the base-256 digits and nothing for zero.
  function Digits(n: nat): (digits: seq<byte>)
    ensures n == 0 <==> digits == []
  {
    if n == 0 then [] else [(n % 256) as byte] + Digits(n / 256)
  }

  function Export(n: nat): seq<byte> {
    Digits(n)
  }

  // ToByteArray is two's complement: a digit above 127 at the top is followed by a zero, and
  // zero itself is one byte.
  function ToByteArray(n: nat): seq<byte> {
    if n == 0 then [0]
    else
      var digits := Digits(n);
      if digits[|digits| - 1] >= 128 then digits + [0] else digits
  }

  lemma {:induction false} ValueOfAppendedZero(bytes: seq<byte>)
    ensures Value(bytes + [0]) == Value(bytes)
  {
    if bytes == [] {
      assert ([] + [0 as byte])[1..] == [];
    } else {
      assert (bytes + [0])[1..] == bytes[1..] + [0];
      ValueOfAppendedZero(bytes[1..]);
    }
  }

  lemma {:induction false} ValueOfDigits(n: nat)
    ensures Value(Digits(n)) == n
  {
    if n > 0 {
      ValueOfDigits(n / 256);
      assert Digits(n)[1..] == Digits(n / 256);
    }
  }

  /** Both forms decode to the number, for every number. */
  lemma EncodersDecode(n: nat)
    ensures Value(Export(n)) == n && Value(ToByteArray(n)) == n
  {
    ValueOfDigits(n);
    ValueOfAppendedZero(Digits(n));
    assert Value([0 as byte]) == 0 by { assert [0 as byte][1..] == []; }
  }

  // Two's complement of a natural number in as few bytes as it takes: the top byte leaves the sign clear,
  // and is zero only if the byte below it would not.
  predicate LeastComplement(bytes: seq<byte>) {
    && bytes != []
    && bytes[|bytes| - 1] < 128
    && (|bytes| > 1 && bytes[|bytes| - 1] == 0 ==> bytes[|bytes| - 2] >= 128)
  }

  lemma {:induction false} DigitsAreUnique(bytes: seq<byte>)
    requires bytes != [] ==> bytes[|bytes| - 1] != 0
    ensures bytes == Digits(Value(bytes))
  {
    if bytes != [] {
      var rest := bytes[1..];
      assert rest != [] ==> rest[|rest| - 1] == bytes[|bytes| - 1];
      DigitsAreUnique(rest);
      assert rest == [] ==> Value(rest) == 0;
      var n := Value(bytes);
      assert n % 256 == bytes[0] as nat && n / 256 == Value(rest);
      assert bytes == [bytes[0]] + rest;
      assert n != 0;
    }
  }

  /** ToByteArray(n) is the one such byte string whose value is n. */
  lemma ToByteArrayExactly(n: nat, bytes: seq<byte>)
    ensures bytes == ToByteArray(n) <==> LeastComplement(bytes) && Value(bytes) == n
  {
    EncodersDecode(n);
    LastDigit(n);
    if LeastComplement(bytes) && Value(bytes) == n {
      var top := |bytes| - 1;
      if bytes[top] != 0 {
        DigitsAreUnique(bytes);
        assert n != 0;
      } else if top > 0 {
        assert bytes == bytes[..top] + [0];
        ValueOfAppendedZero(bytes[..top]);
        DigitsAreUnique(bytes[..top]);
        assert n != 0;
      } else {
        assert bytes == [0];
      }
    }
  }

  lemma {:induction false} LastDigit(n: nat)
    ensures n > 0 ==> Digits(n)[|Digits(n)| - 1] != 0
  {
    if n >= 256 {
      LastDigit(n / 256);
    } else {
      assert Digits(n / 256) == [];
    }
  }

  function TopDigit(n: nat): nat
    requires n > 0
  {
    if n < 256 then n else TopDigit(n / 256)
  }

  lemma {:induction false} TopDigitIsLast(n: nat)
    requires n > 0
    ensures Digits(n)[|Digits(n)| - 1] as nat == TopDigit(n)
  {
    if n >= 256 {
      TopDigitIsLast(n / 256);
    } else {
      assert Digits(n / 256) == [];
    }
  }

  /** The forms are the same bytes exactly when the number is positive and its top base-256
      digit is below 128. */
  lemma EncodersAgree(n: nat)
    ensures Export(n) == ToByteArray(n) <==> n > 0 && TopDigit(n) < 128
  {
    if n > 0 {
      TopDigitIsLast(n);
      assert |Digits(n) + [0]| == |Digits(n)| + 1;
    }
  }

  // mpz_sizeinbase(n, 2): the length in bits, and 1 for zero.
  function SizeInBase2(n: nat): nat {
    if n < 2 then 1 else 1 + SizeInBase2(n / 2)
  }

  function GuessSize(n: nat): nat {
    SizeInBase2(n) / 8 + 1
  }

  /** The vector is resized to the guess before the export writes into it: the guess covers
      every digit, and is at most one too many for a positive number. */
  lemma {:induction false} GuessCovers(n: nat)
    ensures |Export(n)| <= GuessSize(n)
    ensures n > 0 ==> GuessSize(n) <= |Export(n)| + 1
  {
    if n == 0 {
    } else if n < 256 {
      assert Digits(n / 256) == [];
      BitsOfByte(n);
    } else {
      EightMoreBits(n);
      GuessCovers(n / 256);
    }
  }

  lemma BitsOfByte(n: nat)
    requires 0 < n < 256
    ensures 1 <= SizeInBase2(n) <= 8
  {
    BitsBelow(n, 8);
  }

  function TwoTo(k: nat): nat {
    if k == 0 then 1 else 2 * TwoTo(k - 1)
  }

  lemma {:induction false} BitsBelow(n: nat, k: nat)
    requires 0 < n < TwoTo(k)
    ensures SizeInBase2(n) <= k
  {
    if n >= 2 {
      BitsBelow(n / 2, k - 1);
    }
  }

  lemma EightMoreBits(n: nat)
    requires n >= 256
    ensures SizeInBase2(n) == SizeInBase2(n / 256) + 8
  {
    var n1, n2, n3, n4 := n / 2, n / 4, n / 8, n / 16;
    var n5, n6, n7, n8 := n / 32, n / 64, n / 128, n / 256;
    assert SizeInBase2(n) == 1 + SizeInBase2(n1) && n1 / 2 == n2;
    assert SizeInBase2(n1) == 1 + SizeInBase2(n2) && n2 / 2 == n3;
    assert SizeInBase2(n2) == 1 + SizeInBase2(n3) && n3 / 2 == n4;
    assert SizeInBase2(n3) == 1 + SizeInBase2(n4) && n4 / 2 == n5;
    assert SizeInBase2(n4) == 1 + SizeInBase2(n5) && n5 / 2 == n6;
    assert SizeInBase2(n5) == 1 + SizeInBase2(n6) && n6 / 2 == n7;
    assert SizeInBase2(n6) == 1 + SizeInBase2(n7) && n7 / 2 == n8;
    assert SizeInBase2(n7) == 1 + SizeInBase2(n8);
  }
}
