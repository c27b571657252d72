/** The client's Diffie-Hellman handshake as a state machine: N clients, each with a
    receiver task and a handshaker task that share one HandshakeStateMachine, one key
    table and one capacity-1 channel, joined by one FIFO stream per ordered pair of names.

    A step ends wherever the source awaits or has tested the shared state, so the interleavings include
    every one that its await points allow. What one step groups is a run of accesses to the machine in
    states in which the other task leaves it alone (HandshakeRuns.QueueDiscipline). */
module Handshake {
  import opened ModArith
  import opened BigIntBytes
  import opened Options

  // Nicknames are unique, and nobody takes the server's name.
  datatype Name = SERVER | Nickname(text: string)
  type Key = seq<byte>

  /** The group, and HKDF from the bytes of the shared number to a session key, which is left
      uninterpreted. */
  datatype Group = Group(prime: nat, kdf: seq<byte> -> Key)

  ghost predicate ValidGroup(g: Group) {
    g.prime > 1 && g.prime % 2 == 1
  }

  function Public(g: Group, exponent: nat): nat
    requires g.prime > 0
  {
    ModPow(2, exponent, g.prime)
  }

  // ---------------------------------------------------------------------------
  // HandshakeStateMachine and DHShare: the fields, and what each setter does.

  datatype Status = Idle | SendDh | RcvedDh | WaitingForRcvDh

  datatype Machine = Machine(state: Status, peer: Option<Name>, bignum: nat, opponent: nat, exponent: nat)

  type Keys = map<Name, Option<Key>>

  // `draw` is the exponent that the random source yields if one is drawn.
  function Drawn(g: Group, m: Machine, draw: nat): Machine
    requires g.prime > 0
  {
    if m.bignum == 0 then m.(exponent := draw, bignum := Public(g, draw)) else m
  }

  function ToSendDh(g: Group, m: Machine, draw: nat): Machine
    requires g.prime > 0
  {
    Drawn(g, m, draw).(state := SendDh)
  }

  function ToRcvedDh(g: Group, m: Machine, draw: nat): Machine
    requires g.prime > 0
  {
    Drawn(g, m, draw).(state := RcvedDh)
  }

  function ToWaiting(m: Machine): Machine {
    m.(state := WaitingForRcvDh)
  }

  function SessionKey(g: Group, opponent: nat, exponent: nat): Key
    requires g.prime > 0
  {
    g.kdf(ToByteArray(ModPow(opponent, exponent, g.prime)))
  }

  // Dictionary.Add throws on a null name and on a name already in the table.
  predicate CanConclude(m: Machine, keys: Keys) {
    m.peer.Some? && m.peer.value !in keys
  }

  function ToIdle(m: Machine): Machine {
    m.(state := Idle, peer := None, bignum := 0, opponent := 0)
  }

  function Concluded(g: Group, m: Machine, keys: Keys): Keys
    requires g.prime > 0
    requires CanConclude(m, keys)
  {
    keys[m.peer.value := Some(SessionKey(g, m.opponent, m.exponent))]
  }

  // ---------------------------------------------------------------------------
  // The two tasks of one client.

  datatype Token = RcvFirst | SendFirst

  // Where the receiver task stands.
  datatype Receiver =
    | Listening
    | GotDh(from: Name, num: nat)            // about to read the state for the first test
    | Comparing(from: Name, num: nat)        // it read waiting; about to compare the peer
    | StoringReply(from: Name, num: nat)     // about to set the opponent's number
    | Replied(from: Name)                    // about to enter rcved_dh
    | NotWaiting(from: Name, num: nat)       // about to read the state for the second test
    | StoringRequest(from: Name, num: nat)   // it read idle; about to set the opponent's number
    | Answering(from: Name)                  // about to set the peer and enter send_dh
    | GotEnter(who: Name)                    // about to read the state
    | Greeting(who: Name)                    // it read idle; about to set the peer and enter send_dh
    | Waking(token: Token)                   // about to write the token to the channel
    | Stopped                                // the server's key was missing: the task ended

  // Where the handshaker task stands.
  datatype Handshaker =
    | Blocked                                // reading the channel
    | Holding(token: Token)                  // about to test for send_dh
    | Building(token: Token)                 // about to build the message
    | Announcing(to: Name, num: nat)         // initiator: about to enter waiting
    | Polling(to: Name, num: nat)            // about to test for rcved_dh
    | Sending(to: Name, num: nat)            // about to send the request once more
    | Concluding                             // initiator: about to enter idle
    | Settling(to: Name, num: nat)           // responder: about to enter idle
    | Replying(to: Name, num: nat)           // about to send the reply
    | Faulted                                // the task ended with an exception

  datatype Client = Client(m: Machine, keys: Keys, queue: seq<Token>, recv: Receiver, hs: Handshaker)

  function ReceiverStep(g: Group, c: Client, draw: nat): Client
    requires g.prime > 0
  {
    match c.recv
    case Listening => c
    case GotDh(from, num) =>
      c.(recv := if c.m.state == WaitingForRcvDh then Comparing(from, num) else NotWaiting(from, num))
    case Comparing(from, num) =>
      c.(recv := if c.m.peer == Some(from) then StoringReply(from, num) else Listening)
    case StoringReply(from, num) =>
      c.(m := c.m.(opponent := num), recv := Replied(from))
    case Replied(from) =>
      c.(m := ToRcvedDh(g, c.m, draw), recv := Listening)
    case NotWaiting(from, num) =>
      c.(recv := if c.m.state == Idle then StoringRequest(from, num) else Listening)
    case StoringRequest(from, num) =>
      c.(m := c.m.(opponent := num), recv := Answering(from))
    case Answering(from) =>
      c.(m := ToSendDh(g, c.m.(peer := Some(from)), draw), recv := Waking(RcvFirst))
    case GotEnter(who) =>
      c.(recv := if c.m.state != Idle then Listening
                 else if SERVER in c.keys && c.keys[SERVER].Some? then Greeting(who) else Stopped)
    case Greeting(who) =>
      c.(m := ToSendDh(g, c.m.(peer := Some(who)), draw), recv := Waking(SendFirst))
    case Waking(token) =>
      // The channel is bounded: the write waits while it is full.
      if |c.queue| < 1 then c.(queue := c.queue + [token], recv := Listening) else c
    case Stopped => c
  }

  function HandshakerStep(g: Group, c: Client): Client
    requires g.prime > 0
  {
    match c.hs
    case Blocked =>
      if c.queue == [] then c else c.(queue := c.queue[1..], hs := Holding(c.queue[0]))
    case Holding(token) =>
      c.(hs := if c.m.state == SendDh then Building(token) else Blocked)
    case Building(token) =>
      // A null peer has nobody to send to; NoNullPeer shows it cannot be met here.
      if c.m.peer.None? then c.(hs := Faulted)
      else if token == SendFirst then c.(hs := Announcing(c.m.peer.value, c.m.bignum))
      else c.(hs := Settling(c.m.peer.value, c.m.bignum))
    case Announcing(to, num) =>
      c.(m := ToWaiting(c.m), hs := Polling(to, num))
    case Polling(to, num) =>
      c.(hs := if c.m.state == RcvedDh then Concluding else Sending(to, num))
    case Sending(to, num) =>
      c.(hs := Polling(to, num))
    case Concluding =>
      if CanConclude(c.m, c.keys)
      then c.(m := ToIdle(c.m), keys := Concluded(g, c.m, c.keys), hs := Blocked)
      else c.(hs := Faulted)
    case Settling(to, num) =>
      if CanConclude(c.m, c.keys)
      then c.(m := ToIdle(c.m), keys := Concluded(g, c.m, c.keys), hs := Replying(to, num))
      else c.(hs := Faulted)
    case Replying(to, num) =>
      c.(hs := Blocked)
    case Faulted => c
  }

  // ---------------------------------------------------------------------------
  // The clients together.

  datatype Message = Dh(num: nat) | Enter(who: Name)

  type Streams = map<(Name, Name), seq<Message>>

  /** `announced` is the server's record of the enter notices it has sent: (to, who). */
  datatype World = World(clients: map<Name, Client>, net: Streams, announced: set<(Name, Name)>)

  function Stream(w: World, from: Name, to: Name): seq<Message> {
    if (from, to) in w.net then w.net[(from, to)] else []
  }

  function Put(net: Streams, from: Name, to: Name, msg: Message): Streams {
    net[(from, to) := (if (from, to) in net then net[(from, to)] else []) + [msg]]
  }

  datatype Step =
    | ServerDh(to: Name, num: nat)       // the server sends any number as its own
    | ServerEnter(to: Name, who: Name)   // the server announces a newcomer
    | Receive(me: Name, from: Name)      // the receiver takes the next message of one stream
    | RunReceiver(me: Name, draw: nat)
    | RunHandshaker(me: Name)

  predicate Enabled(g: Group, w: World, s: Step) {
    match s
    case ServerDh(to, num) => to in w.clients
    case ServerEnter(to, who) =>
      to in w.clients && who != to && who != SERVER && (to, who) !in w.announced
    case Receive(me, from) =>
      me in w.clients && w.clients[me].recv == Listening && Stream(w, from, me) != []
    case RunReceiver(me, draw) => me in w.clients && draw < g.prime
    case RunHandshaker(me) => me in w.clients
  }

  function Taken(from: Name, msg: Message): Receiver {
    match msg
    case Dh(num) => GotDh(from, num)
    case Enter(who) => GotEnter(who)
  }

  function Apply(g: Group, w: World, s: Step): World
    requires g.prime > 0 && Enabled(g, w, s)
  {
    match s
    case ServerDh(to, num) => w.(net := Put(w.net, SERVER, to, Dh(num)))
    case ServerEnter(to, who) =>
      w.(net := Put(w.net, SERVER, to, Enter(who)), announced := w.announced + {(to, who)})
    case Receive(me, from) =>
      var c := w.clients[me];
      var stream := Stream(w, from, me);
      w.(clients := w.clients[me := c.(recv := Taken(from, stream[0]))],
         net := w.net[(from, me) := stream[1..]])
    case RunReceiver(me, draw) =>
      w.(clients := w.clients[me := ReceiverStep(g, w.clients[me], draw)])
    case RunHandshaker(me) =>
      var c := w.clients[me];
      var w' := w.(clients := w.clients[me := HandshakerStep(g, c)]);
      if c.hs.Sending? || c.hs.Replying? then w'.(net := Put(w.net, me, c.hs.to, Dh(c.hs.num))) else w'
  }

  // A client after ServerConnector.Init, the Sender constructor and Sender.Init.
  ghost predicate InitialClient(g: Group, me: Name, c: Client)
    requires g.prime > 0
  {
    && c.m.state == SendDh && c.m.peer == Some(SERVER) && c.m.opponent == 0
    && c.m.bignum == Public(g, c.m.exponent)
    && c.keys == map[me := None]
    && c.queue == [SendFirst]
    && c.recv == Listening
    && c.hs == Blocked
  }

  ghost predicate Initial(g: Group, w: World)
    requires g.prime > 0
  {
    && SERVER !in w.clients
    && (forall me | me in w.clients :: InitialClient(g, me, w.clients[me]))
    && w.net == map[]
    && w.announced == {}
  }

  /** The worlds reached by running `steps` from an initial world. */
  ghost predicate Runs(g: Group, w0: World, steps: seq<Step>, w: World)
    requires g.prime > 0
    decreases |steps|
  {
    if steps == [] then Initial(g, w0) && w == w0
    else
      var last := steps[|steps| - 1];
      exists v :: Runs(g, w0, steps[..|steps| - 1], v) && Enabled(g, v, last) && w == Apply(g, v, last)
  }

  ghost predicate Reachable(g: Group, w: World)
    requires g.prime > 0
  {
    exists w0, steps :: Runs(g, w0, steps, w)
  }
}
