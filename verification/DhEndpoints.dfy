/** The objects behind the handshake: DHShare, Ratchet and HandshakeStateMachine of the client and
    DHCalculator of the server, each proved against the functions that the protocol model uses. */
module DhEndpoints {
  import opened ModArith
  import opened BigIntBytes
  import opened Handshake
  import opened Options

  // The modulus written in both programs, which is an odd number of 1484 bits.
  const PRIME: nat :=
    323170060713110073007148766886699519604441026697154840321303454275246551231210190004743780002581458342061717766914730359825349042875546873115956286388235378759375195778185778053217122993532058804720734560989429228147496250841552460787205130062136182120940042224585395982569773322139764833106002054134700002100677270100158324043348564230764560134909421347235904972093595995702295002933116041213041748195365487233421073015459402268178774054733479303

  lemma SharedModulusIsValid(kdf: seq<byte> -> Key)
    ensures ValidGroup(Group(PRIME, kdf))
  {
  }

  // 2 to the powers of 64, 128, 256, 512 and 1024.
  const P64: nat := 0x1_0000_0000_0000_0000
  const P128: nat := P64 * P64
  const P256: nat := P128 * P128
  const P512: nat := P256 * P256
  const P1024: nat := P512 * P512

  /** It has 1484 bits, between 2^1483 and 2^1484; the group of section 3 of RFC 3526 has 2048. */
  lemma PrimeBits()
    ensures P1024 * P256 * P128 * P64 * 0x800 <= PRIME < P1024 * P256 * P128 * P64 * 0x1000
  {
    assert P128 == 0x1_0000_0000_0000_0000_0000_0000_0000_0000;
  }

  // The first draw that is no larger than prime - 1.
  function FirstInRange(prime: nat, draws: seq<nat>): Option<nat> {
    if draws == [] then None
    else if draws[0] < prime then Some(draws[0])
    else FirstInRange(prime, draws[1..])
  }

  class DHShare {
    const prime: nat
    var myPow: nat
    var myValue: nat

    constructor (prime: nat)
      requires prime > 0
      ensures this.prime == prime
    {
      this.prime := prime;
      myPow, myValue := 0, 0;
    }

    // Draws until a number falls into the range; `draws` is what the random source yields.
    method GenerateRandomBigInteger(draws: seq<nat>) returns (r: Option<nat>)
      ensures r == FirstInRange(prime, draws)
      ensures r.Some? ==> r.value < prime
    {
      var i := 0;
      while i < |draws|
        invariant i <= |draws|
        invariant FirstInRange(prime, draws) == FirstInRange(prime, draws[i..])
      {
        if draws[i] < prime {
          return Some(draws[i]);
        }
        i := i + 1;
      }
      return None;
    }

    // `draw` is the number that the loop above ends with.
    method MakeMyNum(draw: nat) returns (value: nat)
      requires prime > 0
      modifies this
      ensures myPow == draw && myValue == value == ModPow(2, draw, prime)
    {
      myPow := draw;
      myValue := ModPow(2, myPow, prime);
      value := myValue;
    }

    function GetSharedSecret(input: nat): nat
      requires prime > 0
      reads this
    {
      ModPow(input, myPow, prime)
    }
  }

  datatype KEYS = KEYS(session: Option<Key>, sender: Option<Key>, count: int)

  /** The key table. AddData is the only member that stores a session key under a new name. */
  class Ratchet {
    var table: map<Name, KEYS>

    constructor ()
      ensures table == map[]
    {
      table := map[];
    }

    function Sessions(): (keys: Keys)
      reads this
      ensures keys.Keys == table.Keys
    {
      map who | who in table :: table[who].session
    }

    // Dictionary.Add: false stands for its exception on a null name or a name already there.
    method AddData(who: Option<Name>, data: KEYS) returns (ok: bool)
      modifies this
      ensures ok <==> who.Some? && who.value !in old(table)
      ensures table == if ok then old(table)[who.value := data] else old(table)
      ensures Sessions() == if ok then old(Sessions())[who.value := data.session] else old(Sessions())
    {
      ok := who.Some? && who.value !in table;
      if ok {
        table := table[who.value := data];
      }
    }

    method AccessData(who: Name) returns (data: Option<KEYS>)
      ensures data == if who in table then Some(table[who]) else None
    {
      data := if who in table then Some(table[who]) else None;
    }

    // A sender key replaces nothing of the session key: the table stays write-once in that respect.
    method SetOpponentSenderKey(who: Name, key: Key) returns (ok: bool)
      modifies this
      ensures ok <==> who in old(table)
      ensures Sessions() == old(Sessions())
      ensures ok ==> table == old(table)[who := old(table)[who].(sender := Some(key))]
      ensures !ok ==> table == old(table)
    {
      ok := who in table;
      if ok {
        var temp := table[who];
        temp := temp.(sender := Some(key));
        table := table[who := temp];
      }
    }
  }

  class HandshakeStateMachine {
    const kdf: seq<byte> -> Key
    const share: DHShare
    const ratchet: Ratchet
    var myState: Status
    var currentHandshaker: Option<Name>
    var myBignum: nat
    var opponentBignum: nat
    var sharedSecret: nat

    constructor (kdf: seq<byte> -> Key, share: DHShare, ratchet: Ratchet)
      ensures this.kdf == kdf && this.share == share && this.ratchet == ratchet
      ensures View() == Machine(Idle, Some(SERVER), 0, 0, share.myPow)
    {
      this.kdf, this.share, this.ratchet := kdf, share, ratchet;
      myState, currentHandshaker := Idle, Some(SERVER);
      myBignum, opponentBignum, sharedSecret := 0, 0, 0;
    }

    function View(): Machine
      reads this, share
    {
      Machine(myState, currentHandshaker, myBignum, opponentBignum, share.myPow)
    }

    function TheGroup(): Group {
      Group(share.prime, kdf)
    }

    method SetMyStateToSendDH(draw: nat)
      requires share.prime > 0
      modifies this, share
      ensures View() == ToSendDh(TheGroup(), old(View()), draw)
    {
      if myBignum == 0 {
        myBignum := share.MakeMyNum(draw);
      }
      myState := SendDh;
    }

    method SetMyStateToRcvedDH(draw: nat)
      requires share.prime > 0
      modifies this, share
      ensures View() == ToRcvedDh(TheGroup(), old(View()), draw)
    {
      if myBignum == 0 {
        myBignum := share.MakeMyNum(draw);
      }
      myState := RcvedDh;
    }

    method SetMyStateToWaitingForRcvDH()
      modifies this
      ensures View() == ToWaiting(old(View()))
    {
      myState := WaitingForRcvDh;
    }

    method GetSharedSecret() returns (ok: bool)
      requires share.prime > 0
      modifies this`sharedSecret, ratchet
      ensures ok <==> CanConclude(View(), old(ratchet.Sessions()))
      ensures ratchet.Sessions() == if ok then Concluded(TheGroup(), View(), old(ratchet.Sessions()))
                                    else old(ratchet.Sessions())
      ensures sharedSecret == Pow(opponentBignum, share.myPow) % share.prime
      ensures ok ==> ratchet.Sessions()
                     == old(ratchet.Sessions())[currentHandshaker.value := Some(kdf(ToByteArray(sharedSecret)))]
    {
      sharedSecret := share.GetSharedSecret(opponentBignum);
      var derived := kdf(ToByteArray(sharedSecret));
      ok := ratchet.AddData(currentHandshaker, KEYS(Some(derived), None, 0));
    }

    // The key is stored before anything is reset, so an exception leaves the machine as it was.
    method SetMyStateToIdle() returns (ok: bool)
      requires share.prime > 0
      modifies this, ratchet
      ensures ok <==> CanConclude(old(View()), old(ratchet.Sessions()))
      ensures ok ==> View() == ToIdle(old(View()))
                     && ratchet.Sessions() == Concluded(TheGroup(), old(View()), old(ratchet.Sessions()))
      ensures !ok ==> View() == old(View()) && ratchet.Sessions() == old(ratchet.Sessions())
    {
      ok := GetSharedSecret();
      if !ok {
        return;
      }
      currentHandshaker := None;
      myBignum, opponentBignum, sharedSecret := 0, 0, 0;
      myState := Idle;
    }
  }

  class DHCalculator {
    const prime: nat
    var x: nat
    var myNum: nat
    var opponentNum: nat
    var sharedSecret: nat

    constructor (prime: nat)
      ensures this.prime == prime
    {
      this.prime := prime;
      x, myNum, opponentNum, sharedSecret := 0, 0, 0, 0;
    }

    // mpz_urandomm yields a number below the modulus.
    method SetMyNum(draw: nat) returns (num: nat)
      requires prime > 0
      modifies this
      ensures x == draw && num == myNum == ModPow(2, draw, prime)
      ensures opponentNum == old(opponentNum) && sharedSecret == old(sharedSecret)
    {
      x := draw;
      myNum := ModPow(2, x, prime);
      num := myNum;
    }

    method CalculateSharedSecret(input: nat)
      requires prime > 0
      modifies this
      ensures opponentNum == input && sharedSecret == ModPow(input, old(x), prime)
      ensures x == old(x) && myNum == old(myNum)
    {
      opponentNum := input;
      sharedSecret := ModPow(opponentNum, x, prime);
    }

    // mpz_export fills the vector, which was resized to the guess; then it is cut to the count.
    method GetShareSecretByte() returns (output: seq<byte>)
      ensures output == Export(sharedSecret)
    {
      var guessSize := GuessSize(sharedSecret);
      var buffer := new byte[guessSize];
      var digits := Export(sharedSecret);
      var count := |digits|;
      GuessCovers(sharedSecret);
      var i := 0;
      while i < count
        invariant i <= count
        invariant buffer[..i] == digits[..i]
      {
        buffer[i] := digits[i];
        i := i + 1;
      }
      output := buffer[..count];
    }
  }

  /** The client and the server reach the same number for all exponents, and give HKDF the same
      bytes exactly when the top base-256 digit of that number is below 128. */
  lemma ClientAndServerInputs(prime: nat, client: nat, server: nat)
    requires prime > 1 && prime % 2 == 1
    ensures var secret := ModPow(ModPow(2, server, prime), client, prime);
            && secret == ModPow(ModPow(2, client, prime), server, prime)
            && secret > 0
            && (ToByteArray(secret) == Export(secret) <==> TopDigit(secret) < 128)
  {
    SharedSecret(2, server, client, prime);
    PowOfMod(Pow(2, server), client, prime);
    PowMul(2, server, client);
    PowerOfTwoNotMultiple(server * client, prime);
    EncodersAgree(ModPow(ModPow(2, server, prime), client, prime));
  }

  /** Exponents for which the two programs hash different bytes: README.md's promise of one key
      from the shared number fails for them. */
  lemma DifferentInputs()
    ensures var secret := ModPow(ModPow(2, 7, PRIME), 1, PRIME);
            ToByteArray(secret) == [128, 0] && Export(secret) == [128]
  {
    assert Pow(2, 7) == 128;
    assert Pow(128, 1) == 128;
    assert Digits(128) == [128] by { assert Digits(0) == []; }
  }
}
