/** The length-prefixed stream from the server to a client: MakePacket on one side, the read
    loops on the other, over a connection that delivers any number of bytes at a time. */
module Framing {
  import opened BigIntBytes

  const INT_LIMIT: nat := 0x8000_0000

  // htonl of the size, as the four bytes of the packet's head.
  function BigEndian(n: nat): (bytes: seq<byte>)
    requires n < INT_LIMIT
    ensures |bytes| == 4
  {
    [(n / 0x100_0000) as byte, (n / 0x1_0000 % 256) as byte, (n / 256 % 256) as byte, (n % 256) as byte]
  }

  function Frame(message: seq<byte>): seq<byte>
    requires |message| < INT_LIMIT
  {
    BigEndian(|message|) + message
  }

  function Frames(messages: seq<seq<byte>>): seq<byte>
    requires forall m | m in messages :: |m| < INT_LIMIT
  {
    if messages == [] then [] else Frame(messages[0]) + Frames(messages[1..])
  }

  // Sender::MakePacket: two copies into a vector of the right size.
  method MakePacket(message: seq<byte>) returns (packet: seq<byte>)
    requires |message| < INT_LIMIT
    ensures packet == Frame(message)
    ensures |packet| == 4 + |message| && packet[4..] == message
    ensures 0x100_0000 * packet[0] as nat + 0x1_0000 * packet[1] as nat + 0x100 * packet[2] as nat + packet[3] as nat
            == |message|
  {
    HeadRoundTrip(|message|);
    var size := |message|;
    var head := BigEndian(size);
    var buffer := new byte[4 + size];
    forall i | 0 <= i < 4 { buffer[i] := head[i]; }
    forall i | 0 <= i < size { buffer[4 + i] := message[i]; }
    packet := buffer[..];
    assert packet[..4] == head && packet[4..] == message;
  }

  // BitConverter.ToInt32 of the reversed head: the int that the four bytes stand for.
  function FromBigEndian(bytes: seq<byte>): int
    requires |bytes| == 4
  {
    var n := bytes[0] as int * 0x100_0000 + bytes[1] as int * 0x1_0000 + bytes[2] as int * 256 + bytes[3] as int;
    if n < INT_LIMIT then n else n - 2 * INT_LIMIT
  }

  lemma HeadRoundTrip(n: nat)
    requires n < INT_LIMIT
    ensures FromBigEndian(BigEndian(n)) == n
  {
    var b, c := n / 256, n / 0x1_0000;
    assert b / 256 == c && c / 256 == n / 0x100_0000;
    assert n == b * 256 + n % 256 && b == c * 256 + b % 256 && c == (c / 256) * 256 + c % 256;
  }

  method CopyIn(buffer: array<byte>, offset: nat, bytes: seq<byte>)
    requires offset + |bytes| <= buffer.Length
    modifies buffer
    ensures buffer[..] == old(buffer[..offset]) + bytes + old(buffer[offset + |bytes|..])
  {
    forall i | 0 <= i < |bytes| { buffer[offset + i] := bytes[i]; }
  }

  /** A TCP connection: the bytes still to come, and how the network will cut them up. */
  class Connection {
    var incoming: seq<byte>
    var cuts: seq<nat>

    constructor (incoming: seq<byte>, cuts: seq<nat>)
      ensures this.incoming == incoming && this.cuts == cuts
    {
      this.incoming, this.cuts := incoming, cuts;
    }

    // ReceiveAsync: at least one byte and at most `count`, and 0 when the peer has closed.
    method Receive(buffer: array<byte>, offset: nat, count: nat) returns (got: nat)
      requires count > 0 && offset + count <= buffer.Length
      modifies this, buffer
      ensures got <= count && got <= |old(incoming)| && (got == 0 <==> old(incoming) == [])
      ensures incoming == old(incoming)[got..]
      ensures buffer[..] == old(buffer[..offset]) + old(incoming)[..got] + old(buffer[offset + got..])
    {
      var available := if |incoming| < count then |incoming| else count;
      got := available;
      if cuts != [] {
        if 0 < cuts[0] < available { got := cuts[0]; }
        cuts := cuts[1..];
      }
      CopyIn(buffer, offset, incoming[..got]);
      incoming := incoming[got..];
    }
  }

  // ReadNBytesAsync: false stands for its exception when the stream ends early.
  method ReadNBytes(conn: Connection, n: nat, buffer: array<byte>) returns (ok: bool)
    requires buffer.Length == n
    modifies conn, buffer
    ensures ok <==> n <= |old(conn.incoming)|
    ensures ok ==> buffer[..] == old(conn.incoming)[..n] && conn.incoming == old(conn.incoming)[n..]
  {
    var currentRead := 0;
    ghost var before := conn.incoming;
    while currentRead < n
      invariant currentRead <= n && currentRead <= |before|
      invariant conn.incoming == before[currentRead..]
      invariant buffer[..currentRead] == before[..currentRead]
      decreases n - currentRead
    {
      var bytesRead := conn.Receive(buffer, currentRead, n - currentRead);
      if bytesRead <= 0 {
        return false;
      }
      assert buffer[..currentRead + bytesRead] == before[..currentRead + bytesRead];
      currentRead := currentRead + bytesRead;
    }
    return true;
  }

  datatype Reading = Message(bytes: seq<byte>) | Closed | BadSize

  // What RecieveAsync makes of the bytes to come, and how many of them it uses for a message.
  function Read(incoming: seq<byte>): (Reading, nat) {
    if |incoming| < 4 then (Closed, 0)
    else
      var size := FromBigEndian(incoming[..4]);
      if size < 0 then (BadSize, 0)
      else if |incoming| < 4 + size then (Closed, 0)
      else (Message(incoming[4..4 + size]), 4 + size)
  }

  // RecieveAsync; a negative size is the exception of `new byte[msg_size]`.
  method Recieve(conn: Connection) returns (r: Reading)
    modifies conn
    ensures r == Read(old(conn.incoming)).0
    ensures r.Message? ==> conn.incoming == old(conn.incoming)[Read(old(conn.incoming)).1..]
  {
    var head := new byte[4];
    var ok := ReadNBytes(conn, 4, head);
    if !ok {
      return Closed;
    }
    var size := FromBigEndian(head[..]);
    if size < 0 {
      return BadSize;
    }
    var body := new byte[size];
    ok := ReadNBytes(conn, size, body);
    if !ok {
      return Closed;
    }
    r := Message(body[..]);
  }

  lemma ReadOfFrame(message: seq<byte>, rest: seq<byte>)
    requires |message| < INT_LIMIT
    ensures Read(Frame(message) + rest) == (Message(message), |Frame(message)|)
    ensures (Frame(message) + rest)[|Frame(message)|..] == rest
  {
    var s := Frame(message) + rest;
    assert s[..4] == BigEndian(|message|);
    HeadRoundTrip(|message|);
    assert s[4..4 + |message|] == message;
  }

  // The messages of the first `count` rounds of the receive loop, and the bytes left after them.
  function ReadMany(incoming: seq<byte>, count: nat): (seq<seq<byte>>, seq<byte>)
    decreases count
  {
    var (r, used) := Read(incoming);
    if count == 0 || !r.Message? then ([], incoming)
    else
      var (more, rest) := ReadMany(incoming[used..], count - 1);
      ([r.bytes] + more, rest)
  }

  lemma ReadManyStep(message: seq<byte>, tail: seq<byte>, count: nat)
    requires |message| < INT_LIMIT
    ensures ReadMany(Frame(message) + tail, count + 1) ==
            ([message] + ReadMany(tail, count).0, ReadMany(tail, count).1)
  {
    ReadOfFrame(message, tail);
  }

  lemma FramesFirst(messages: seq<seq<byte>>, rest: seq<byte>)
    requires messages != [] && forall m | m in messages :: |m| < INT_LIMIT
    ensures Frames(messages) + rest == Frame(messages[0]) + (Frames(messages[1..]) + rest)
  {
  }

  /** Every list of messages that the server framed comes back as it was, in order and to the last
      byte, and the reader is left exactly at what follows. */
  lemma {:induction false} FramesReadBack(messages: seq<seq<byte>>, rest: seq<byte>)
    requires forall m | m in messages :: |m| < INT_LIMIT
    ensures ReadMany(Frames(messages) + rest, |messages|) == (messages, rest)
  {
    if messages == [] {
      assert Frames(messages) + rest == rest;
    } else {
      FramesFirst(messages, rest);
      ReadManyStep(messages[0], Frames(messages[1..]) + rest, |messages| - 1);
      FramesReadBack(messages[1..], rest);
      assert [messages[0]] + messages[1..] == messages;
    }
  }

  // The receive loop, for the first `count` messages: how the network cuts the stream does not matter.
  method RecieveMany(conn: Connection, count: nat) returns (received: seq<seq<byte>>)
    modifies conn
    ensures received == ReadMany(old(conn.incoming), count).0
    ensures |received| == count ==> conn.incoming == ReadMany(old(conn.incoming), count).1
  {
    received := [];
    var i := 0;
    while i < count
      invariant i <= count && |received| == i
      invariant ReadMany(old(conn.incoming), count).0 == received + ReadMany(conn.incoming, count - i).0
      invariant ReadMany(old(conn.incoming), count).1 == ReadMany(conn.incoming, count - i).1
    {
      ghost var before := conn.incoming;
      var r := Recieve(conn);
      if !r.Message? {
        assert received + [] == received;
        return;
      }
      ghost var more := ReadMany(conn.incoming, count - i - 1).0;
      assert received + ([r.bytes] + more) == (received + [r.bytes]) + more;
      received := received + [r.bytes];
      i := i + 1;
    }
  }
}
