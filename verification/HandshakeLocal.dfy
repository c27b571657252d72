/** What every step keeps about one client on its own: the discipline of the token channel
    and the binding of peer, exponent and public number to one handshake. */
module HandshakeLocal {
  import opened ModArith
  import opened Handshake
  import opened Options

  // How many tokens there are between the write and the test of the state, and beyond.
  function TokenCount(c: Client): nat {
    (if c.recv.Waking? then 1 else 0)
    + |c.queue|
    + (if c.hs.Holding? || c.hs.Building? || c.hs.Announcing? || c.hs.Settling? then 1 else 0)
  }

  // The token of the current handshake says that the client leads it: it greeted, rather than answered.
  predicate LeadingToken(c: Client) {
    || c.recv == Waking(SendFirst)
    || (c.queue != [] && c.queue[0] == SendFirst)
    || c.hs == Holding(SendFirst)
    || c.hs == Building(SendFirst)
    || c.hs.Announcing?
  }

  predicate Initiating(c: Client) {
    match c.m.state
    case WaitingForRcvDh => true
    case RcvedDh => true
    case SendDh => LeadingToken(c)
    case Idle => false
  }

  // One handshake has one token, and a handshaker with none is out of the handshake.
  predicate Discipline(c: Client) {
    && TokenCount(c) == (if c.m.state == SendDh && !c.hs.Faulted? then 1 else 0)
    && (c.m.state == Idle ==> c.hs.Blocked? || c.hs.Replying?)
    && (c.m.state == WaitingForRcvDh ==> c.hs.Polling? || c.hs.Sending?)
    && (c.m.state == RcvedDh ==> c.hs.Polling? || c.hs.Sending? || c.hs.Concluding? || c.hs.Faulted?)
    && (c.hs.Polling? || c.hs.Sending? ==> c.m.state == WaitingForRcvDh || c.m.state == RcvedDh)
    && (c.hs.Concluding? ==> c.m.state == RcvedDh)
    && (c.hs.Faulted? ==> c.m.state == SendDh || c.m.state == RcvedDh)
    && (c.recv.Comparing? || c.recv.StoringReply? || c.recv.Replied? ==> c.m.state == WaitingForRcvDh)
    && (c.recv.StoringRequest? || c.recv.Answering? || c.recv.Greeting? ==> c.m.state == Idle)
  }

  // Outside idle the peer and the public number are set; messages under way carry them.
  predicate Bound(g: Group, c: Client)
    requires g.prime > 0
  {
    && (c.m.state == Idle ==> c.m.bignum == 0)
    && (c.m.state != Idle ==> c.m.peer.Some? && c.m.bignum > 0 && c.m.bignum == Public(g, c.m.exponent))
    && (c.hs.Announcing? || c.hs.Polling? || c.hs.Sending? || c.hs.Settling? ==>
          c.m.peer == Some(c.hs.to) && c.m.bignum == c.hs.num)
    && (c.recv.StoringReply? || c.recv.Replied? ==> c.m.peer == Some(c.recv.from))
    && (c.hs.Faulted? ==> c.m.peer.Some? && c.m.peer.value in c.keys)
    && (c.hs.Replying? ==> c.hs.to in c.keys)
  }

  // No handshake with itself; the table has its own name, and the server's once it left send_dh first.
  predicate Table(me: Name, c: Client) {
    && me in c.keys && c.keys[me] == None
    && (forall who | who in c.keys && who != me :: c.keys[who].Some?)
    && (c.m.state != Idle ==> c.m.peer != Some(me))
    && (c.hs.Replying? ==> c.hs.to != me)
    && (c.recv.GotDh? || c.recv.Comparing? || c.recv.StoringReply? || c.recv.Replied? ==> c.recv.from != me)
    && (c.recv.NotWaiting? || c.recv.StoringRequest? || c.recv.Answering? ==> c.recv.from != me)
    && (c.recv.GotEnter? || c.recv.Greeting? ==> c.recv.who != me && c.recv.who != SERVER)
    && (SERVER !in c.keys ==> c.m.state != Idle && c.m.peer == Some(SERVER))
    && !c.recv.Stopped?
  }

  predicate Local(g: Group, me: Name, c: Client)
    requires g.prime > 0
  {
    Discipline(c) && Bound(g, c) && Table(me, c)
  }

  lemma LocalInitial(g: Group, me: Name, c: Client)
    requires ValidGroup(g) && me != SERVER && InitialClient(g, me, c)
    ensures Local(g, me, c)
  {
    PowerOfTwoNotMultiple(c.m.exponent, g.prime);
  }

  lemma DisciplineReceiver(g: Group, c: Client, draw: nat)
    requires g.prime > 0 && Discipline(c)
    requires !c.recv.Stopped? && (c.recv.StoringReply? || c.recv.Replied? ==> c.m.peer == Some(c.recv.from))
    ensures Discipline(ReceiverStep(g, c, draw))
  {
    match c.recv
    case Answering(_) =>
    case Greeting(_) =>
    case Waking(_) =>
    case _ =>
  }

  lemma LocalReceiver(g: Group, me: Name, c: Client, draw: nat)
    requires ValidGroup(g) && Local(g, me, c) && me != SERVER
    ensures Local(g, me, ReceiverStep(g, c, draw))
  {
    PowerOfTwoNotMultiple(draw, g.prime);
    DisciplineReceiver(g, c, draw);
  }

  lemma DisciplineHandshaker(g: Group, c: Client)
    requires g.prime > 0 && Discipline(c) && (c.m.state != Idle ==> c.m.peer.Some?)
    ensures Discipline(HandshakerStep(g, c))
  {
    match c.hs
    case Blocked =>
    case Building(_) =>
    case Concluding =>
    case Settling(_, _) =>
    case _ =>
  }

  lemma LocalHandshaker(g: Group, me: Name, c: Client)
    requires ValidGroup(g) && Local(g, me, c) && me != SERVER
    ensures Local(g, me, HandshakerStep(g, c))
  {
    DisciplineHandshaker(g, c);
  }

  lemma LocalReceive(g: Group, me: Name, c: Client, from: Name, msg: Message)
    requires g.prime > 0 && Local(g, me, c) && c.recv == Listening && from != me
    requires msg.Enter? ==> msg.who != me && msg.who != SERVER
    ensures Local(g, me, c.(recv := Taken(from, msg)))
  {
  }
}
