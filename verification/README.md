# Verification of the chat client, server and JSON engine

A Dafny model of two layers of this repository, with proofs about it. `dafny verify dfyconfig.toml`
checks all of it; no file needs another language or library.

**The protocol.** Every chat client runs a receiver task and a handshaker task over one state
machine with four states, one key table and one channel of capacity 1. Requests are repeated every
100 ms and dropped while the peer is busy; requests and replies are the same message. `Handshake.dfy`
cuts the two tasks into steps at every await and every test of the shared state, lets the steps of N clients and the server
interleave in any order, and joins clients by a FIFO stream per ordered pair. `HandshakeLocal`,
`HandshakePairs`, `HandshakeSteps` and `HandshakeRuns` build the inductive invariant up to key agreement
and the discipline of the channel; `HandshakeBinding` says where keys come from and when a handshaker
ends; `HandshakeMutual` says when a key is mutual, and `HandshakeWitness` shows runs that are reached. `DhEndpoints`
and `HandshakeTasks` are the classes themselves, each method proved to make the model's step. `ModArith` and `BigIntBytes` hold the arithmetic of the shared number and its two byte
forms, and `Framing` the length-prefixed stream.

**The JSON engine.** `JsonText` and `JsonReader` define the reader as recursive functions on bytes.
`JsonGrammar` is the grammar of RFC 8259 as syntax trees, each with its spelling, its events and its meaning;
`JsonSpelling` and `JsonLanguage` prove that the reader takes exactly what the grammar spells, and `JsonErrors`
where and why a string or number is refused. `JsonIterative` is the table-driven automaton with its stack, and
`JsonAgreement` proves it equal to the recursive reader. `ReaderNumbers`, `ReaderStrings` and `ReaderObjects` are
the reader over an array of bytes with its cursors, copying and in place. `JsonWriter`, `JsonRoundTrip`,
`JsonDocument`, `JsonObjects` and `JsonController` go from a tree to text and back; `JsonShortest` and `JsonLayout`
say which of all texts the two writers write. `Schema`, `SchemaValidator`, `SchemaProofs`, `SchemaTheorem`,
`SchemaObjects` and `SchemaRun` relate the streaming schema validator to a recursive definition of validity, and
`SchemaDraft` that one to draft-04. `PointerText`, `PointerGrammar` and `PointerObjects` are about the texts of
JSON Pointers, `PointerTree` and `PointerFrame` about Get, Create and Set. `DomEquality` and `DomDuplicates` cover
`operator==`, `UriPath` and `UriRelative` dot segments, `Unicode` the UTF-8 automaton and UTF-16, and
`PoolAllocator`, `PoolAnswers` and `PoolObjects` the pool allocator.

Code that changes state is modelled by methods over classes, arrays and sequences; each is proved
against a function, and the properties are proved of that function.

Assumptions about what is outside: streams between two names are faithful and FIFO; nicknames are
unique and none is the server's; the server announces a newcomer at most once to each client (it announces
again on a repeated request to itself, which the model excludes); a key is an uninterpreted function of the bytes fed to HKDF; a random exponent is a parameter; `ModPow`,
`mpz_powm`, `ToByteArray`, `mpz_export` and decimal printing do what their documentation says; whether a
double overflows is a parameter; a new chunk from the base allocator is aligned and free. Sizes and
addresses have 64 bits, `SizeType` has 32, and a byte is unsigned.

## Where the code differs from what is said about it

- The modulus is odd, which the proofs use, but it is not the 2048-bit group of section 3 of RFC 3526
  (`DhEndpoints.PRIME`, Client/DHShare.cs:10-16): it has 1484 bits (`PrimeBits`).
- A client whose handshaker meets a peer that already has a key ends that task for good, and so itself
  (`RequestEndsHandshaker`, `EndedForGood`, Client/ClientRunner.cs:40-43); a late copy of
  an answered request brings this about (`LateCopyEndsHandshaker`).
- When requests cross, one client may hold a key while its peer holds none (`OneSidedKeyReached`), and
  that for good (`StrandedForGood`); `MutualExactly` says when. If both hold one, the keys are equal
  (`KeyAgreement`), and made from both exponents (`SharedKeyOfBoth`).
- Client and server derive their keys from different bytes whenever the top digit of the shared number
  is 128 or more (`ClientAndServerInputs`, `DifferentInputs`).
- The reader takes bytes in strings that are no UTF-8, and looks at nothing behind a NUL; but for that, and for
  doubles that overflow, it takes the language of RFC 8259 and no other (`ExactLanguage`).
- At a root that cannot begin a value the two parsers give different error codes (`BadRoot`), and they
  place the error of a refused opening or closing bracket one byte apart (`IterativeAgrees`).
- The bound on a negative exponent presumes at most 2147483549 fraction digits
  (`NegativeExponentFits`, `FractionFits`), and a positive one at most 214748055 (`PositiveExponentFits`).
- Against draft-04, a required property may be missing if its schema has a default string
  (`DefaultExcuses`), a name that is only required is not an additional one (`OnlyRequiredPasses`), an empty
  tuple of items counts as no `items` at all (`EmptyTupleForgotten`), and an integer beyond 64 bits is none
  (`LargeIntegerRefused`). For loaded schemas and trees without these the verdict is that of draft-04
  (`StreamMeetsDraft4`).
- A comment says that comparing an object with duplicate names is always false; without doubles it never
  is (`SomethingIsEqual`), and `SelfEqual` and `SymmetricExactly` say what is left.
- `operator==` takes integers for equal that share a 64-bit word, such as -1 and 2^64 - 1
  (`WordsTellApart`).
- On a relative path the removal of dot segments may differ from RFC 3986 (`RelativePathsDiffer`);
  `ExactlyIfAgrees` says when.
- The overflow test on a token index misses some wrap-arounds (`WrapAroundMissed`); `IndexOfAny`
  says which.
- Set with a name on an array loses its elements, as a comment says; `OthersKept` states what else is kept.
- Requests near 2^64 bytes wrap in the pool allocator (`WrapUnsafe`); `SafeExactlyIfFits` states the
  exact limit.

## Model

| member | source | states |
|---|---|---|
| HandshakeRuns.KeyAgreement | Client/Communicator.cs:90-124 | in every world that any run of N clients reaches, if a and b each hold a session key for the other, the two keys are equal, and are HKDF of the bytes of 2^(x*y) mod p for two exponents x and y; covers retransmitted requests, requests dropped while busy and requests that cross |
| HandshakeRuns.QueueDiscipline | Client/Communicator.cs:322-395 | in every reachable world the channel holds at most one token and is empty when a token is about to be written, so the write never waits; outside send_dh it is empty; a token in hand always meets send_dh, so the branch for a wrong state is dead; a live handshaker is in send_dh exactly when one token exists; the states that the receiver tested without a lock still hold when it acts |
| HandshakeRuns.StepKeepsInv | Client/Communicator.cs:68-180 | every step of every task and of the server keeps the joint invariant of all pairs of clients |
| HandshakeRuns.RunKeepsInv | Client/Communicator.cs:68-395 | by induction over runs: the invariant holds wherever a run of any length leads |
| HandshakeRuns.InitialInv | Client/ServerConnector.cs:23-30 | start-up (state send_dh towards the server, one token queued, own name in the table) establishes the invariant |
| HandshakeSteps.ReceiverKeepsPair | Client/Communicator.cs:90-124 | one step of a receiver task keeps what holds between its client and any other one |
| HandshakeSteps.HandshakerKeepsPair | Client/Communicator.cs:320-399 | one step of a handshaker task, including each retransmission and the reply, keeps it too |
| HandshakeSteps.ReceivePeerKeepsPair | Client/Communicator.cs:70-76 | taking the next message of a peer from its stream keeps it |
| HandshakeSteps.ServerEnterKeepsPair | Client/Communicator.cs:149-177 | an enter notice that comes once for a peer keeps it |
| HandshakeLocal.LocalReceiver | Client/Communicator.cs:90-177 | the receiver keeps the client's own invariant, whichever shared access it performs next |
| HandshakeLocal.LocalHandshaker | Client/Communicator.cs:320-399 | so does the handshaker |
| HandshakeBinding.KeyBinding | Client/HandShakeStateMachine.cs:67-75 | on every run, each stored key for w is HKDF of the least two's complement, low byte first, of num^e mod p, where num is a number that the receiver took from the stream of w during that run, and e the exponent that the client itself bore in a handshake with w, whose public number was then its own |
| HandshakeBinding.SharedKeyOfBoth | Client/HandShakeStateMachine.cs:67-75 | on every run, two clients that hold keys for each other hold HKDF of the bytes of 2^(x*y) mod p, where x is an exponent that the one bore in a handshake with the other on that run, and y one that the other bore in a handshake with it |
| HandshakeBinding.HandshakeIsBound | Client/Communicator.cs:331-357 | while a handshake is on, no step changes peer, exponent or public number, and every request sent carries 2^exponent mod p to that peer |
| HandshakeBinding.ReplyMatchesKey | Client/Communicator.cs:376-387 | a reply about to be sent carries 2^mine mod p, and the key just stored for its receiver is HKDF of the bytes of 2^(theirs*mine) mod p |
| HandshakeBinding.RequestEndsHandshaker | Client/Communicator.cs:110-122 | a request that a resting client handles ends its handshaker exactly when the sender already has an entry in the table; otherwise the key is stored and a reply follows |
| HandshakeWitness.HandlingIsARun | Client/Communicator.cs:110-122 | that handling is ten steps of the step model in a row, which change nothing else but the stream the request is taken from |
| HandshakeWitness.LateCopyEndsHandshaker | Client/Communicator.cs:341-351 | for every valid group and any two nicknames a world is reached in which the second copy of an answered request has ended the handshaker of the one who answered |
| HandshakeWitness.BothKeysReached | Client/Communicator.cs:320-399 | a world is reached in which both clients hold a key for each other, so key agreement is about something |
| HandshakeWitness.OneSidedKeyReached | Client/Communicator.cs:94-102 | when requests cross, a world is reached in which one side holds a key and the other none: a request is taken for the reply, and nothing was sent back |
| HandshakeMutual.MutualUnlessInFirst | Client/Communicator.cs:90-124 | in every reachable world, if a holds a key for b, then b holds none for a exactly while b is in a handshake with a that it has not concluded; one that is idle or busy with somebody else holds its key |
| HandshakeMutual.MutualExactly | Client/Communicator.cs:90-124 | in every reachable world, if a holds a key for b, then b holds one or some further run gives it one, exactly unless b waits for a number of a that is neither at hand nor on its way |
| HandshakeMutual.StrandedForGood | Client/Communicator.cs:341-351 | one that so waits, with its peer done, has no key for that peer however the run goes on, for all its repeated requests |
| HandshakeMutual.HopeFulfilled | Client/Communicator.cs:94-122 | any other client in a handshake is led to its key by steps that are given |
| HandshakeMutual.StrandedReached | Client/Communicator.cs:94-102 | crossing requests lead to such waiting |
| HandshakeBinding.EndedForGood | Client/Ratchet.cs:110-113 | a handshaker ends only because its peer has an entry already, and after that no step changes the client's state, peer or table |
| DhEndpoints.SharedModulusIsValid | Client/DHShare.cs:10-16 | the modulus in the code is odd and greater than 1, which is what the results above ask of the group |
| DhEndpoints.PrimeBits | Client/DHShare.cs:10-16 | the modulus lies between 2^1483 and 2^1484 |
| DhEndpoints.DHShare.GenerateRandomBigInteger | Client/DHShare.cs:33-45 | the first draw in range is the exponent, and it is below the modulus |
| DhEndpoints.DHShare.MakeMyNum | Client/DHShare.cs:21-26 | the number sent is 2 to the kept exponent, modulo p |
| DhEndpoints.Ratchet.AddData | Client/Ratchet.cs:110-113 | succeeds exactly for a new non-null name, and never replaces an entry |
| DhEndpoints.Ratchet.SetOpponentSenderKey | Client/Ratchet.cs:46-61 | changes the sender key of an existing entry and no session key of anybody |
| DhEndpoints.HandshakeStateMachine.SetMyStateToSendDH | Client/HandShakeStateMachine.cs:42-50 | the fields change as in the transition of the protocol model; a number is drawn only if there is none |
| DhEndpoints.HandshakeStateMachine.SetMyStateToRcvedDH | Client/HandShakeStateMachine.cs:51-59 | as above for rcved_dh |
| DhEndpoints.HandshakeStateMachine.GetSharedSecret | Client/HandShakeStateMachine.cs:67-75 | the shared number is the opponent's to the kept exponent modulo p; HKDF of its bytes is stored for the current peer, or every session key is left alone |
| DhEndpoints.HandshakeStateMachine.SetMyStateToIdle | Client/HandShakeStateMachine.cs:32-41 | concludes the handshake as the model does, or changes nothing that the model sees |
| HandshakeTasks.ClientTasks.constructor | Client/Program.cs:36-43 | the objects after start-up form an initial client of the model |
| HandshakeTasks.ClientTasks.RunReceiver | Client/Communicator.cs:90-177 | the receiver task over the shared objects makes exactly the model's receiver step |
| HandshakeTasks.ClientTasks.RunHandshaker | Client/Communicator.cs:320-399 | the handshaker task makes exactly the model's step and sends what the model says it sends |
| ModArith.SharedSecret | Client/DHShare.cs:28-31 | raising either public number to the other exponent gives the same number, for all exponents and any modulus |
| ModArith.PowerOfTwoNotMultiple | Client/HandShakeStateMachine.cs:42-47 | a drawn public number is never 0 for an odd modulus, so the test for 0 means "not drawn yet" |
| DhEndpoints.ClientAndServerInputs | Server/code/DHCalculator.cpp:35-57 | client and server reach the same positive number for all exponents, and feed the same bytes to key derivation exactly when its top base-256 digit is below 128 |
| DhEndpoints.DifferentInputs | Server/code/DHCalculator.cpp:49-57 | with exponents 7 and 1 the two sides derive their keys from different bytes |
| DhEndpoints.DHCalculator.SetMyNum | Server/code/DHCalculator.cpp:35-41 | the server's number is 2 to its exponent modulo p |
| DhEndpoints.DHCalculator.CalculateSharedSecret | Server/code/DHCalculator.cpp:43-47 | the shared number is the input to that exponent modulo p |
| DhEndpoints.DHCalculator.GetShareSecretByte | Server/code/DHCalculator.cpp:49-57 | the bytes left after both resizes are the exported digits |
| BigIntBytes.EncodersDecode | Client/HandShakeStateMachine.cs:31 | both byte forms read back, least significant byte first, to the number they were made from |
| BigIntBytes.ToByteArrayExactly | Client/HandShakeStateMachine.cs:31 | of all byte strings, ToByteArray gives the one that is the least two's complement with that value, low byte first |
| BigIntBytes.EncodersAgree | Client/HandShakeStateMachine.cs:67-70 | the two forms are the same bytes exactly for positive numbers whose top digit is below 128 |
| BigIntBytes.GuessCovers | Server/code/DHCalculator.cpp:51-56 | the size guessed from the number of bits covers the exported bytes and exceeds them by at most one |
| Framing.FramesReadBack | Server/code/Communicator.cpp:18-26 | any list of messages below 2^31 bytes, framed one after another, reads back as that list and leaves exactly what follows |
| Framing.MakePacket | Server/code/Communicator.cpp:18-26 | the packet is four bytes, which weigh 2^24, 2^16, 2^8 and 1 in the length, and the message |
| Framing.ReadNBytes | Client/Communicator.cs:222-238 | however the receive calls split the stream, the buffer gets exactly the next n bytes; it fails exactly if the stream ends before |
| Framing.Recieve | Client/Communicator.cs:209-221 | one call returns what the stream's frame says and consumes exactly that frame |
| Framing.RecieveMany | Client/Communicator.cs:68-74 | repeated calls read frame after frame, for every splitting |
| JsonLanguage.ExactLanguage | Server/include/rapidjson/rapidjson/reader.h:559-590 | under a handler that accepts everything, exactly those texts are parsed without error that the grammar of RFC 8259 spells (any bytes from 0x20 on count as characters), up to a NUL and as long as no double overflows, and the events are what the text says |
| JsonLanguage.ValueTaken | Server/include/rapidjson/rapidjson/reader.h:1752-1765 | for any handler, what is taken for a value is the spelling of a syntax tree, and what was sent is what that tree says |
| JsonSpelling.ValueRead | Server/include/rapidjson/rapidjson/reader.h:1752-1765 | the spelling of any syntax tree, with white space wherever the grammar has it, is taken as a whole and sends what it says |
| JsonSpelling.CharsRead | Server/include/rapidjson/rapidjson/reader.h:991-1068 | characters, the eight short escapes, code units in hexadecimal digits of either case, and surrogate pairs decode to the text they stand for |
| JsonLanguage.EscapesRead | Server/include/rapidjson/rapidjson/reader.h:906-925 | for every list of scalar values, the string of their escapes, four digits of either case or a surrogate pair each, is read as their UTF-8 |
| JsonSpelling.NumberRead | Server/include/rapidjson/rapidjson/reader.h:1468-1748 | a number of the grammar is taken as a whole, as the narrowest integer event of its sign that holds it, or as a double |
| JsonLanguage.NumberTaken | Server/include/rapidjson/rapidjson/reader.h:1468-1748 | what is taken for a number is a number of the grammar |
| JsonErrors.StringRefused | Server/include/rapidjson/rapidjson/reader.h:991-1068 | a string is refused with a code and a place exactly if well-formed characters are followed there by the fault of that code: its end or a NUL, a control character, a wrong letter, a missing digit, a lone surrogate |
| JsonErrors.NumberRefused | Server/include/rapidjson/rapidjson/reader.h:1529-1676 | a number is refused for a missing integer part, fraction or exponent exactly if a beginning of a number stands in front of the place and no digit there |
| JsonErrors.TooBig | Server/include/rapidjson/rapidjson/reader.h:1662-1725 | a number is refused as too big only at its beginning, and only if it is a double that overflows |
| JsonErrors.OverflowRefused | Server/include/rapidjson/rapidjson/reader.h:1662-1725 | and always if it is, where nothing goes on behind it |
| JsonAgreement.IterativeAgrees | Server/include/rapidjson/rapidjson/reader.h:2192-2224 | for every input and every handler the table-driven parser gives the recursive parser's events, verdict, error code and error place; the two known exceptions (a root that cannot begin a value, the place when a handler refuses a bracket) are stated exactly |
| JsonAgreement.SameVerdictAndEvents | Server/include/rapidjson/rapidjson/reader.h:559-590 | both parsers accept the same inputs and send the same events, with the same counts |
| JsonAgreement.BadRoot | Server/include/rapidjson/rapidjson/reader.h:2163-2170 | a closing bracket at the root: DocumentEmpty from one parser, ValueInvalid from the other |
| JsonAgreement.IterateAgrees | Server/include/rapidjson/rapidjson/reader.h:2199-2217 | the same from any state of the automaton: running on equals finishing the enclosing arrays and objects recursively |
| JsonAgreement.StepKept | Server/include/rapidjson/rapidjson/reader.h:2011-2160 | one transition keeps what the recursive parser would still do |
| JsonIterative.StepPlaced | Server/include/rapidjson/rapidjson/reader.h:2011-2108 | after every transition the stack is one frame of saved state and count per nesting level, fits the state, and input was consumed |
| JsonIterative.FramedPush | Server/include/rapidjson/rapidjson/reader.h:2028-2031 | opening a level pushes exactly one such frame |
| JsonIterative.PredictStays | Server/include/rapidjson/rapidjson/reader.h:1844-2006 | the transition table keeps array states within arrays and object states within objects |
| ReaderObjects.GenericReader.Parse | Server/include/rapidjson/rapidjson/reader.h:559-590 | copying or in place: the events, the error and its offset are those of the recursive definition of the grammar; in place, every string handed out still reads as it was sent when the document ends; copying, the buffer is untouched |
| ReaderObjects.GenericReader.IterativeParse | Server/include/rapidjson/rapidjson/reader.h:2192-2224 | the same for the loop over the automaton with its explicit stack |
| ReaderObjects.GenericReader.ParseValue | Server/include/rapidjson/rapidjson/reader.h:1752-1765 | any value from any position: same outcome as the definition, spans handed out before are kept |
| ReaderObjects.GenericReader.ParseArray | Server/include/rapidjson/rapidjson/reader.h:808-853 | the loop over elements and its count agree with the recursive definition |
| ReaderObjects.GenericReader.ParseObject | Server/include/rapidjson/rapidjson/reader.h:740-805 | the loop over members and its count agree with it |
| ReaderObjects.GenericReader.AfterElement | Server/include/rapidjson/rapidjson/reader.h:831-842 | behind an element: either the array ends as defined or the loop goes on with less input |
| ReaderObjects.GenericReader.AfterMember | Server/include/rapidjson/rapidjson/reader.h:778-792 | behind a member, likewise |
| ReaderObjects.GenericReader.ParseName | Server/include/rapidjson/rapidjson/reader.h:764-773 | a name and its colon, with the error of each |
| ReaderObjects.GenericReader.ParseString | Server/include/rapidjson/rapidjson/reader.h:959-986 | in place and copying send the same event; no earlier span is overwritten |
| ReaderObjects.GenericReader.ParseNumber | Server/include/rapidjson/rapidjson/reader.h:1468-1748 | one number event, or the error with its offset |
| ReaderObjects.GenericReader.ParseWord | Server/include/rapidjson/rapidjson/reader.h:856-892 | null, true and false, with the offset at the first byte that differs |
| ReaderObjects.GenericReader.Transit | Server/include/rapidjson/rapidjson/reader.h:2011-2160 | the switch with its pushes and pops makes the model's transition |
| ReaderObjects.GenericReader.FinishObject | Server/include/rapidjson/rapidjson/reader.h:2080-2108 | restores the saved state and sends the member count |
| ReaderObjects.GenericReader.FinishArray | Server/include/rapidjson/rapidjson/reader.h:2110-2138 | restores the saved state and sends the element count |
| ReaderObjects.GenericReader.HandleError | Server/include/rapidjson/rapidjson/reader.h:2163-2181 | the first error stands; otherwise the state chooses the code |
| ReaderStrings.ParseStringToStream | Server/include/rapidjson/rapidjson/reader.h:991-1068 | decodes to the text of the definition; what is written in place never passes the read cursor and never touches bytes before the string |
| ReaderStrings.ParseEscape | Server/include/rapidjson/rapidjson/reader.h:1010-1048 | one escape, in place or copied, writes no more bytes than it has read |
| ReaderStrings.ParseCodepoint | Server/include/rapidjson/rapidjson/reader.h:1022-1045 | a \u escape, with surrogate pairs joined and lone surrogates refused |
| ReaderStrings.ParseHex4 | Server/include/rapidjson/rapidjson/reader.h:906-925 | four hexadecimal digits and their value, or refusal |
| ReaderStrings.StringSink.Put | Server/include/rapidjson/rapidjson/stream.h:199-202 | in place, a byte written leaves everything still unread unchanged |
| ReaderStrings.StringSink.InPlaceText | Server/include/rapidjson/rapidjson/reader.h:968-974 | the span between the two cursors is the decoded text |
| ReaderStrings.StringSink.Encode | Server/include/rapidjson/rapidjson/encodings.h:102-121 | writes the UTF-8 form of a code point |
| ReaderNumbers.ReadInteger | Server/include/rapidjson/rapidjson/reader.h:1483-1582 | for digit strings of any length the accumulators never overflow, and the branch taken delivers exactly the decimal value, up to [-2^63, 2^64-1]; beyond it a double is chosen |
| ReaderNumbers.ReadDigits | Server/include/rapidjson/rapidjson/reader.h:1495-1582 | 32-bit, 64-bit or double is chosen exactly by the size of the value |
| ReaderNumbers.Read32 | Server/include/rapidjson/rapidjson/reader.h:1495-1522 | the 32-bit loop stops exactly where the next digit would pass 2^31 or 2^32-1 |
| ReaderNumbers.Read64 | Server/include/rapidjson/rapidjson/reader.h:1550-1575 | the 64-bit loop, likewise at 2^63 and 2^64-1 |
| ReaderNumbers.NegativeExponentFits | Server/include/rapidjson/rapidjson/reader.h:1648-1665 | for every exponent text the sum -exp + expFrac stays at or above -2^31 exactly when there are at most 2147483549 fraction digits |
| ReaderNumbers.ReadNegativeExponent | Server/include/rapidjson/rapidjson/reader.h:1648-1665 | with at most that many fraction digits counted, the loop reads that exponent without overflow and skips all its digits |
| ReaderNumbers.PositiveExponentFits | Server/include/rapidjson/rapidjson/reader.h:1666-1673 | for every exponent text its value stays within 32 bits up to the limit exactly when at most 214748055 fraction digits are counted, since the limit grows with them |
| ReaderNumbers.ReadPositiveExponent | Server/include/rapidjson/rapidjson/reader.h:1666-1673 | with at most that many, the loop ends at the first value past the limit, or behind all digits |
| ReaderNumbers.FractionFitsPositive | Server/include/rapidjson/rapidjson/reader.h:1584-1673 | the same for the text of any fraction |
| ReaderNumbers.CountFraction | Server/include/rapidjson/rapidjson/reader.h:1584-1625 | the two loops over a fraction, as an integer and then as a double, count the digits that the definition counts |
| ReaderNumbers.FractionFits | Server/include/rapidjson/rapidjson/reader.h:1584-1665 | for the text of any fraction and any negative exponent behind it the sum stays in range exactly when at most 2147483549 digits are counted, which no shorter fraction exceeds |
| ReaderNumbers.ZerosCounted | Server/include/rapidjson/rapidjson/reader.h:1599-1608 | zeros behind "0." are all counted, so that number of digits can be reached |
| ReaderNumbers.ReadNumber | Server/include/rapidjson/rapidjson/reader.h:1468-1748 | the whole literal: event or error with its place, as the grammar defines |
| ReaderNumbers.ReadFraction | Server/include/rapidjson/rapidjson/reader.h:1584-1591 | a point must be followed by a digit, or the error is placed behind it |
| ReaderNumbers.ReadExponent | Server/include/rapidjson/rapidjson/reader.h:1632-1646 | an exponent mark and its sign must be followed by a digit, or the error is placed behind them |
| JsonDocument.WritingThenParsing | Server/include/rapidjson/rapidjson/document.h:1948-1985 | for every tree of objects, arrays, byte strings, booleans, null and 64-bit integers, and for either writer, parsing what was written rebuilds the tree |
| JsonRoundTrip.TreeSpelled | Server/include/rapidjson/rapidjson/writer.h:217-254 | what either writer writes for such a tree is spelled by the grammar, and means the tree |
| JsonShortest.WriterIsShortest | Server/include/rapidjson/rapidjson/writer.h:383-455 | of all texts below 4 GB that are parsed to a tree, doubles included as their text, none is shorter than what Writer writes for it |
| JsonShortest.CharsShortest | Server/include/rapidjson/rapidjson/writer.h:383-455 | no spelling of a string is shorter than the escaped form that is written |
| JsonLayout.PrettyIsLaidOut | Server/include/rapidjson/rapidjson/prettywriter.h:208-255 | PrettyWriter's text of any such tree is Writer's text after one pass that counts open brackets and breaks and indents lines by their number |
| JsonWriter.TreeWritten | Server/include/rapidjson/rapidjson/writer.h:217-254 | the writer, driven event by event with its stack of levels, writes exactly the text defined by recursion on the tree |
| JsonWriter.ValueWritten | Server/include/rapidjson/rapidjson/writer.h:479-497 | the same for a value at any depth: commas, colons and indentation come from the level alone |
| JsonDocument.TextMeans | Server/include/rapidjson/rapidjson/document.h:2643-2660 | the tree of any text that the grammar spells, with fewer than 2^32 entries in each array and object, is what the text means |
| JsonDocument.ValueBuilt | Server/include/rapidjson/rapidjson/document.h:2821-2861 | the document's stack machine, fed the events of any value, pushes exactly what the value means |
| JsonDocument.ObjectEnds | Server/include/rapidjson/rapidjson/document.h:2849-2853 | EndObject folds the name and value pairs above the object into it |
| JsonObjects.WriteTree | Server/include/rapidjson/rapidjson/document.h:1948-1985 | Accept over the writer object gives the text of the tree |
| JsonObjects.Accept | Server/include/rapidjson/rapidjson/document.h:1948-1985 | the traversal sends the events of the tree, in order |
| JsonObjects.Writer.WriteString | Server/include/rapidjson/rapidjson/writer.h:383-455 | the loop writes the quoted, escaped form |
| JsonObjects.Writer.WritePrefix | Server/include/rapidjson/rapidjson/prettywriter.h:208-250 | separator, indentation and level count, as the model of the writer has them |
| JsonObjects.Writer.WriteIndent | Server/include/rapidjson/rapidjson/prettywriter.h:252-255 | one indentation per open level |
| JsonObjects.Writer.HandleEnd | Server/include/rapidjson/rapidjson/writer.h:232-254 | closing a level, with a line break unless it is empty or on a single line |
| JsonObjects.GenericDocument.EndObject | Server/include/rapidjson/rapidjson/document.h:2849-2853 | pops the pairs and sets the object, or fails as the model does |
| JsonObjects.GenericDocument.EndArray | Server/include/rapidjson/rapidjson/document.h:2857-2861 | pops the elements and sets the array |
| JsonObjects.ParseDocument | Server/include/rapidjson/rapidjson/document.h:2643-2660 | the reader and the document together compute the parsed tree, or none |
| JsonController.FieldsReadBack | Server/code/JsonController.cpp:28-60 | each field parser finds, in what buildJson wrote, the value given to it, cut at its first NUL |
| JsonController.BuildThenParse | Server/code/JsonController.cpp:9-60 | end to end: the type always comes back, and each string comes back exactly if it holds no NUL |
| JsonController.BuildJson | Server/code/JsonController.cpp:9-26 | the message is the text of the five members in order |
| JsonController.ParseTypeFromJson | Server/code/JsonController.cpp:28-33 | an int32 in the member "type", or none where the library's assertion would fail |
| JsonController.ParseStringFromJson | Server/code/JsonController.cpp:34-60 | the string member of that name, cut at its first NUL |
| JsonController.TextHasNoNul | Server/include/rapidjson/rapidjson/writer.h:383-455 | no text of a tree contains a NUL, so c_str() passes it on whole |
| SchemaTheorem.StreamingValidity | Server/include/rapidjson/rapidjson/schema.h:2799-2891 | fed the events of any tree, the validator ends valid exactly if the tree satisfies the recursive definition of validity, in which allOf, anyOf and oneOf quantify over the subschemas themselves, and which includes the three exceptions that the code makes from draft-04 |
| SchemaDraft.StreamMeetsDraft4 | Server/include/rapidjson/rapidjson/schema.h:2799-2891 | for every loaded schema without the three exceptions (a required property with a default; a name only required where additional properties are restricted; an empty tuple that restricts further items) and every tree without integers beyond 64 bits, the validator ends valid exactly if the tree is valid by sections 5.3 to 5.5 of draft-04, written down on its own |
| SchemaDraft.OneLevel | Server/include/rapidjson/rapidjson/schema.h:1104-1177 | for a schema whose parts are such, draft-04 accepts exactly what the code accepts if no required property is missing, members whose names are only required meet additionalProperties, and elements behind an empty tuple meet additionalItems |
| SchemaDraft.OnlyRequiredPasses | Server/include/rapidjson/rapidjson/schema.h:644-679 | {"a":true} passes a schema that requires "a", lists no properties and allows no additional ones, and is not valid by draft-04 |
| SchemaDraft.TypeExactly | Server/include/rapidjson/rapidjson/schema.h:1033-1051 | the type test differs from the draft exactly on an integer beyond 64 bits where integers are allowed and other numbers are not |
| SchemaDraft.LargeIntegerRefused | Server/include/rapidjson/rapidjson/schema.h:1033-1051 | 2^64 is refused by a schema of integers, and valid by draft-04 |
| SchemaDraft.RequiredExactly | Server/include/rapidjson/rapidjson/schema.h:1159-1177 | the end of an object is accepted although a required name is missing exactly if the counts are right and every missing required property has a default |
| SchemaDraft.DefaultExcuses | Server/include/rapidjson/rapidjson/schema.h:1161-1164 | {} passes a schema that requires a property with a default, and is not valid by draft-04 |
| SchemaDraft.EmptyTupleForgotten | Server/include/rapidjson/rapidjson/schema.h:762-766 | [null] passes a schema with an empty tuple and no further items, and is not valid by draft-04 |
| SchemaTheorem.ValueFed | Server/include/rapidjson/rapidjson/schema.h:2980-3011 | from any open context: a value is accepted exactly if it is valid for the schema expected there, and every enclosing context's validators have seen exactly its events |
| SchemaTheorem.ParallelsJudge | Server/include/rapidjson/rapidjson/schema.h:1460-1501 | the parallel validators of a context end with the verdicts of allOf, anyOf, oneOf and not on its value |
| SchemaTheorem.ElementsFed | Server/include/rapidjson/rapidjson/schema.h:867-897 | the elements of an array are judged by the items schema, the tuple schemas and additionalItems |
| SchemaTheorem.MembersFed | Server/include/rapidjson/rapidjson/schema.h:1104-1155 | the members of an object are judged by properties and additionalProperties, and the flags record which properties occurred |
| SchemaTheorem.CompoundEnds | Server/include/rapidjson/rapidjson/schema.h:2863-2891 | an end event accepts exactly if counts, required properties and combinators hold |
| SchemaProofs.JudgedCombination | Server/include/rapidjson/rapidjson/schema.h:941-985 | EndValue's tests on the flags are the combinators of the definition |
| SchemaProofs.FeedKeepsNested | Server/include/rapidjson/rapidjson/schema.h:2810-2819 | validators nest with ever smaller schemas, so the recursion over them ends |
| SchemaRun.Validate | Server/include/rapidjson/rapidjson/schema.h:2825-2891 | the validator object, driven over any tree, returns true exactly for a valid one |
| SchemaRun.StackGrows | Server/include/rapidjson/rapidjson/schema.h:2980-3054 | each event opens or closes exactly one context or leaves their number alone |
| SchemaObjects.GenericSchemaValidator.HandleValue | Server/include/rapidjson/rapidjson/schema.h:2825-2840 | the begin, parallel and end macros for a scalar make the model's step |
| SchemaObjects.GenericSchemaValidator.HandleStart | Server/include/rapidjson/rapidjson/schema.h:2842-2848 | the start of an object or array, likewise |
| SchemaObjects.GenericSchemaValidator.Key | Server/include/rapidjson/rapidjson/schema.h:2850-2861 | a name, likewise |
| SchemaObjects.GenericSchemaValidator.HandleEnd | Server/include/rapidjson/rapidjson/schema.h:2863-2872 | the end of an object or array, likewise |
| SchemaObjects.GenericSchemaValidator.BeginValue | Server/include/rapidjson/rapidjson/schema.h:2980-3011 | pushes the context for the next value, or refuses it |
| SchemaObjects.ValueEnds | Server/include/rapidjson/rapidjson/schema.h:941-985 | the loops over the parallel validators decide the combinators |
| SchemaObjects.ObjectEnds | Server/include/rapidjson/rapidjson/schema.h:1157-1184 | the loop over the properties decides what is required |
| SchemaObjects.ExactlyOneValid | Server/include/rapidjson/rapidjson/schema.h:963-977 | true exactly if the number of valid validators in the range is 1 |
| SchemaObjects.EveryValid | Server/include/rapidjson/rapidjson/schema.h:946-951 | true exactly if all validators of the range are valid |
| SchemaObjects.AnyValid | Server/include/rapidjson/rapidjson/schema.h:953-961 | true exactly if some validator of the range is valid |
| SchemaObjects.FindPropertyIndex | Server/include/rapidjson/rapidjson/schema.h:1509-1520 | the first property of that name, or none |
| DomEquality.EqualIsSameMeaning | Server/include/rapidjson/rapidjson/document.h:1025-1064 | without duplicate names and doubles, operator== is equality of the trees with objects taken as maps and integers as their 64-bit words |
| DomEquality.SymmetricAndTransitive | Server/include/rapidjson/rapidjson/document.h:1025-1044 | hence it is symmetric and transitive, though it looks names up one way only |
| DomEquality.WordsTellApart | Server/include/rapidjson/rapidjson/document.h:1053-1060 | two 64-bit integers share a word exactly if they are equal or differ by 2^64 |
| DomEquality.DuplicatesBreakIt | Server/include/rapidjson/rapidjson/document.h:1019-1024 | two objects on which operator== with a repeated name is true one way and false the other |
| DomDuplicates.SomethingIsEqual | Server/include/rapidjson/rapidjson/document.h:1019-1024 | for every tree without doubles some tree compares equal to it, so comparing an object with repeated names is not always false |
| DomDuplicates.SelfEqual | Server/include/rapidjson/rapidjson/document.h:1025-1044 | a tree without doubles equals itself exactly if, at every level, each member that repeats a name equals the first of that name |
| DomDuplicates.SymmetricExactly | Server/include/rapidjson/rapidjson/document.h:1025-1044 | for all trees without doubles with a == b, b == a holds exactly if, level by level, b has no name that a has not, and b equals itself |
| DomDuplicates.Transitive | Server/include/rapidjson/rapidjson/document.h:1025-1064 | it is transitive on all trees without doubles, whatever names repeat |
| DomEquality.AreEqual | Server/include/rapidjson/rapidjson/document.h:1025-1064 | the switch and its loops compute that equality, on trees without doubles |
| DomEquality.FindMember | Server/include/rapidjson/rapidjson/document.h:2282-2288 | the value of the first member of that name |
| UriPath.RemoveInPlace | Server/include/rapidjson/rapidjson/uri.h:411-458 | over one buffer, with no unread byte overwritten: the result is the removal of dot segments, and for a path that begins with a slash it is that of section 5.2.4 of RFC 3986 |
| UriPath.AbsolutePaths | Server/include/rapidjson/rapidjson/uri.h:417-456 | for every path that begins with a slash the segment loop computes the five rewriting rules of section 5.2.4 of RFC 3986 |
| UriPath.NoneLeft | Server/include/rapidjson/rapidjson/uri.h:424-442 | for every path, no dot segment is left, and removing again changes nothing |
| UriRelative.ExactlyIfAgrees | Server/include/rapidjson/rapidjson/uri.h:411-458 | for every path the loop computes remove_dot_segments of RFC 3986 exactly if a count of segments, which looks at nothing that is written, says so |
| UriRelative.MeetsExact | Server/include/rapidjson/rapidjson/uri.h:424-440 | what the loop makes of a rest with and without one more slash in front is the same exactly if a ".." meets an empty segment that is the only one written |
| UriRelative.GroundedExact | Server/include/rapidjson/rapidjson/uri.h:417-456 | behind a first segment they agree as long as a segment is left, and else as above |
| UriPath.RelativePaths | Server/include/rapidjson/rapidjson/uri.h:334-335 | a relative path without empty segments gives what RFC 3986 gives for it with a slash in front, without that slash |
| UriPath.RelativePathsDiffer | Server/include/rapidjson/rapidjson/uri.h:408-411 | for a/../b the loop gives b, and RFC 3986 gives /b |
| UriPath.RemoveLoop | Server/include/rapidjson/rapidjson/uri.h:412-456 | the loop ends, writes no further than it has read, and computes that function |
| UriPath.TakeSegment | Server/include/rapidjson/rapidjson/uri.h:418-455 | one turn: back up, drop or move one segment; the unread rest stays |
| UriPath.MoveDown | Server/include/rapidjson/rapidjson/uri.h:446 | memmove over overlapping ranges |
| UriPath.BackUp | Server/include/rapidjson/rapidjson/uri.h:429-439 | finds the next to last slash |
| Unicode.AcceptsTheSyntax | Server/include/rapidjson/rapidjson/encodings.h:146-176 | the decoder accepts exactly the byte sequences of section 4 of RFC 3629 and consumes exactly their length |
| Unicode.Validate | Server/include/rapidjson/rapidjson/encodings.h:179-202 | accepts exactly what the decoder and the syntax accept, and copies exactly the bytes it consumed |
| Unicode.EncodeThenDecode | Server/include/rapidjson/rapidjson/encodings.h:102-121 | every scalar value decodes from its encoding, whatever follows |
| Unicode.EncodingsInOrder | Server/include/rapidjson/rapidjson/encodings.h:102-121 | the encodings of two scalar values are ordered byte by byte as these are; with the syntax this leaves one encoding only |
| Unicode.DecodeThenEncode | Server/include/rapidjson/rapidjson/encodings.h:146-176 | what decodes is the encoding of a scalar value: no overlong form, no surrogate |
| Unicode.TextsDecode | Server/include/rapidjson/rapidjson/encodings.h:102-176 | for every list of scalar values, encoding and decoding gives it back |
| Unicode.TextsEncode | Server/include/rapidjson/rapidjson/encodings.h:102-176 | for every text that decodes, encoding gives the bytes back |
| Unicode.ThereAndBack | Server/include/rapidjson/rapidjson/encodings.h:657-683 | UTF-8 to UTF-16 and back gives the bytes back |
| Unicode.Utf16ThenDecode | Server/include/rapidjson/rapidjson/encodings.h:276-322 | a scalar value decodes from its one or two UTF-16 units |
| Unicode.PairsInOrder | Server/include/rapidjson/rapidjson/encodings.h:276-290 | up to U+FFFF a scalar value is its own unit, and above, the pairs of high and low surrogates are in its order |
| Unicode.CopyTails | Server/include/rapidjson/rapidjson/encodings.h:188-199 | the continuation bytes are copied up to the first zero and tested against their masks |
| PointerText.PlainRoundTrips | Server/include/rapidjson/rapidjson/pointer.h:930-1100 | parsing what was printed gives any tokens back, and printing what was parsed gives any plain pointer back |
| PointerText.FragmentRoundTrip | Server/include/rapidjson/rapidjson/pointer.h:1069-1100 | as a URI fragment, exactly the pointers whose names are all UTF-8 can be printed, and these read back |
| PointerGrammar.ExactPointers | Server/include/rapidjson/rapidjson/pointer.h:930-1060 | exactly those texts are parsed that RFC 6901 spells, as a plain pointer or as a fragment, percent-encoding in digits of either case and percent-encoded tildes included, and the names are what they stand for |
| PointerGrammar.PrintedIsShortest | Server/include/rapidjson/rapidjson/pointer.h:1069-1100 | of all fragments that are parsed to the same names, none is shorter than the one printed for them |
| PointerText.NamesFit | Server/include/rapidjson/rapidjson/pointer.h:939-946 | decoded names with their terminators never need more bytes than the source has, which is what is allocated |
| PointerTree.IndexExact | Server/include/rapidjson/rapidjson/pointer.h:1017-1045 | a token index is the value of the name exactly for canonical decimals below 2^32; other names have none |
| PointerTree.IndexOfAny | Server/include/rapidjson/rapidjson/pointer.h:1033-1045 | for every canonical decimal the wrap-around is noticed exactly if from some digit to the next the remainder modulo 2^32 gets smaller; otherwise the index is the remainder |
| PointerTree.TenDigits | Server/include/rapidjson/rapidjson/pointer.h:1036-1041 | for ten digits that is arithmetic on the first nine and the last |
| PointerTree.WrapAroundMissed | Server/include/rapidjson/rapidjson/pointer.h:1036-1041 | 8589934590 is taken for the index 4294967294: the test for overflow does not catch it |
| PointerTree.ExistsIfResolved | Server/include/rapidjson/rapidjson/pointer.h:458-505 | alreadyExist is true exactly if Get would have resolved before |
| PointerTree.GetAfterSet | Server/include/rapidjson/rapidjson/pointer.h:732-739 | after Set, Get with the same pointer gives the value set, except exactly when a "-" appended to an array |
| PointerFrame.GetStep | Server/include/rapidjson/rapidjson/pointer.h:601-629 | one token leads to the first member of that name, or to the element of that index, or nowhere |
| PointerFrame.SetStep | Server/include/rapidjson/rapidjson/pointer.h:458-505 | what each token does to the value it meets: members and elements stay in order in front of a new one, nulls fill an array up to an index, and what cannot take the token becomes an object or array with that entry alone |
| PointerFrame.OthersKept | Server/include/rapidjson/rapidjson/pointer.h:458-505 | a value that another pointer leads to, which parts from this one, is there as before after Set exactly if no array on their common way had to become an object; otherwise it is gone |
| PointerFrame.NoPrefixParts | Server/include/rapidjson/rapidjson/pointer.h:458-505 | where one leads to a value, two pointers part unless one is a prefix of the other or an index was wrapped |
| PointerTree.NoDashNoAppend | Server/include/rapidjson/rapidjson/pointer.h:463-467 | a pointer without "-" never appends, so for it Get always returns the value set |
| PointerTree.CreateKeeps | Server/include/rapidjson/rapidjson/pointer.h:458-505 | creating what is there already changes nothing |
| PointerTree.GetValue | Server/include/rapidjson/rapidjson/pointer.h:601-629 | the loop returns the value, or the first token that does not resolve |
| PointerTree.ComputeIndex | Server/include/rapidjson/rapidjson/pointer.h:1017-1045 | the accumulating loop with its 32-bit wrap-around |
| PointerObjects.ParsePointer | Server/include/rapidjson/rapidjson/pointer.h:930-1060 | the loops give the names, or the error code and its offset |
| PointerObjects.ReadChar | Server/include/rapidjson/rapidjson/pointer.h:969-1021 | one character: percent-decoding, then the tilde escapes |
| PointerObjects.WritePointer | Server/include/rapidjson/rapidjson/pointer.h:1069-1100 | the loops print the pointer in either form, or fail on a name that is no UTF-8 |
| PoolAllocator.RunSafe | Server/include/rapidjson/rapidjson/allocators.h:321-369 | over every run of Malloc and Realloc, blocks are 8-aligned, lie in the used part of one chunk and are apart from each other, and no chunk uses more than its capacity |
| PoolAllocator.SafeExactlyIfFits | Server/include/rapidjson/rapidjson/allocators.h:321-369 | a call that hands out a block keeps all that exactly when no sum on its way passes 64 bits |
| PoolAnswers.MallocAnswers | Server/include/rapidjson/rapidjson/allocators.h:321-334 | fails exactly for size 0, or if the newest chunk lacks the rounded size and the base allocator gives nothing; adds a chunk, as large as the chunk capacity or the block, exactly if there is no room; hands out what comes next in the newest chunk |
| PoolAnswers.ReallocAnswers | Server/include/rapidjson/rapidjson/allocators.h:337-369 | for a live block: fails exactly for size 0, or if it must grow with room neither behind it nor anywhere else; keeps the address exactly if it need not grow or grows in place; otherwise hands out a new block |
| PoolAllocator.WrapUnsafe | Server/include/rapidjson/rapidjson/allocators.h:326-333 | a request of 2^64 - 8 bytes behind 8 bytes in use is granted, and its block does not lie in its chunk |
| PoolAllocator.ReallocKeepsContents | Server/include/rapidjson/rapidjson/allocators.h:336-369 | the block given begins with the old bytes, and every other block keeps its own, whether it grew in place or moved |
| PoolAllocator.GrownSafe | Server/include/rapidjson/rapidjson/allocators.h:353-359 | growing the last block in place reaches no other block |
| PoolObjects.MemoryPoolAllocator.Malloc | Server/include/rapidjson/rapidjson/allocators.h:321-334 | the object's chunk list and sizes change as in the model |
| PoolObjects.MemoryPoolAllocator.Realloc | Server/include/rapidjson/rapidjson/allocators.h:337-369 | for a live block and sums below 2^64, likewise, with the copy made in memory |
| PoolObjects.MemoryPoolAllocator.AddChunk | Server/include/rapidjson/rapidjson/allocators.h:390-402 | puts a new empty chunk in front of the list |
| PoolObjects.MemoryPoolAllocator.Clear | Server/include/rapidjson/rapidjson/allocators.h:270-281 | leaves the first chunk, empty |
| PoolObjects.MemoryPoolAllocator.WithBuffer | Server/include/rapidjson/rapidjson/allocators.h:201-212 | a caller's buffer is aligned and becomes a first chunk that ends where it ends |

## Left out

- Sockets, epoll, the accept loop, console input, logging, time-outs and cancellation: input and output.
- AES, HKDF, base64 and random generators: foreign calls; keys are uninterpreted, draws are parameters.
- Handshakes with the server as a peer: it draws a new exponent for each repeated request (Server/code/Server.cpp:90-92), so no agreement holds; in the model it may send any number at any time.
- The sender-key exchange and `leave` messages, so an entry is never removed; and shutting down: when a handshaker ends, the code cancels the other tasks (Client/ClientRunner.cs), while the model lets the receiver run on.
- HandshakeRuns.KeyAgreement: says nothing about liveness; a handshake may go unanswered for ever, and HandshakeMutual.HopeFulfilled says only that some run concludes it.
- HandshakeBinding.RequestEndsHandshaker: is about a request handled without another step in between; other interleavings are covered by the invariants only.
- The server's `ReadNBytes`: every read starts at offset 0 (Server/code/Communicator.cpp:60), so the general property holds for the client's reader only.
- `Ratchet.UpdateSessionKey`, which is never called, and the maps of `ClientManager`.
- ReaderNumbers.ReadNumber: doubles stay as their text, and `overflows` decides the error for one too big, also behind a positive exponent; exponents and fraction digits are computed apart from it, by CountFraction, ReadNegativeExponent and ReadPositiveExponent; dtoa, strtod and full precision are not modelled.
- ReaderNumbers.ReadNegativeExponent: is not about more than 2147483549 counted fraction digits, where the sum leaves 32 bits.
- ReaderNumbers.ReadPositiveExponent: is not about more than 214748055 of them, where the exponent does.
- Comments, NaN and Inf, trailing commas, stop-when-done, numbers as strings, encoding validation and the SIMD variants: flags that are off by default, or other code for the same loop.
- Strings of 4 GB or more, whose length would wrap, and failures of the memory allocator inside the reader, the writer and the document.
- The bytes of decoded strings on the reader's stack: only its frames of state and count are modelled there.
- JsonLanguage.ExactLanguage: is about a handler that accepts every event; ValueTaken is about any handler.
- JsonErrors.StringRefused: is about strings, as NumberRefused is about numbers; the codes and places of errors between values are stated by JsonAgreement.IterativeAgrees only.
- JsonShortest.WriterIsShortest: is not about texts of 4 GB or more, where counts wrap.
- ReaderObjects.GenericReader.Parse: the handler's answer is a function of the events sent so far; a handler that changes the buffer is not modelled.
- JsonObjects.ParseDocument: the events are recorded and then fed to the document, which never refuses one while parsing.
- `Writer` and `PrettyWriter` are one class with a style; raw values, strings that are not UTF-8 under encoding validation, and other target encodings are not modelled.
- JSON Schema: enum, uniqueItems, patternProperties, dependencies, string lengths and patterns, number ranges, readOnly, writeOnly, continue-on-error, `$ref`, the loader (a schema is what it has made of the document) and error reports.
- SchemaDraft.StreamMeetsDraft4: for a schema with an exception deeper inside there is no such equivalence; OneLevel states what an exception at the top comes to, for trees that count their entries in 32 bits.
- SchemaObjects.GenericSchemaValidator.HandleValue: the validators inside a context are values that are replaced, not objects that are updated in place; the outermost validator is an object.
- DomEquality.EqualIsSameMeaning: is not about doubles, nor objects with duplicate names; DomDuplicates is about the latter.
- DomEquality.SymmetricAndTransitive: is not about doubles or duplicate names either.
- DomDuplicates.SymmetricExactly: is not about doubles, nor are SelfEqual, Transitive and SomethingIsEqual.
- DomEquality.AreEqual: is not about doubles, whose comparison is one of values.
- The rest of uri.h and pointer.h: Resolve, Erase, Swap, Append, comparison, and tokens that a user makes with an index of their own.
- PointerFrame.NoPrefixParts: is not about indexes that were wrapped, where two pointers may lead to one element.
- PointerTree.ExistsIfResolved: Create and Set work on values; the reference into the tree and its update in place are not modelled, nor is an allocator that fails.
- PoolObjects.MemoryPoolAllocator.Realloc: is not about sums of 2^64 or more, where the block would not lie in memory.
- PoolAllocator.RunSafe: is about one allocator between two calls of Clear; reference counts, copies, moves and the destructor are not modelled.
- UTF-16 byte orders, UTF-32, ASCII and AutoUTF, and UTF16::Validate.
- gmp.h, fwd.h, the error strings, the internal headers and generated files.
