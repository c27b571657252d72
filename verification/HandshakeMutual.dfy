/** When a key is mutual: of two clients of which one holds a key for the other, exactly when the other
    holds one too, and exactly when it still can get one. */
module HandshakeMutual {
  import opened Handshake
  import opened HandshakeLocal
  import opened HandshakePairs
  import opened HandshakeRuns
  import opened HandshakeBinding
  import opened HandshakeWitness
  import opened Options

  /** If a holds a key for b, then b holds none for a exactly while b is in a handshake with a that it has
      not concluded: a client that is idle, or busy with somebody else, holds its key. */
  lemma MutualUnlessInFirst(g: Group, w: World, a: Name, b: Name)
    requires ValidGroup(g) && Reachable(g, w) && a in w.clients && b in w.clients && a != b
    requires b in w.clients[a].keys
    ensures a !in w.clients[b].keys <==> InFirst(w.clients[b], a)
  {
    var h := ReachableInv(g, w);
    assert PairIn(g, w, h, a, b) && PairIn(g, w, h, b, a);
  }

  // ---------------------------------------------------------------------------
  // What b may still use.

  // b's receiver has a number of a's that it has not dropped.
  predicate Useful(c: Client, a: Name) {
    Held(c, a) != [] && !c.recv.NotWaiting?
  }

  // A number of a's is on its way to b, or about to be sent.
  predicate Coming(w: World, a: Name, b: Name)
    requires a in w.clients
  {
    Stream(w, a, b) != [] || (w.clients[a].hs.Replying? && w.clients[a].hs.to == b)
  }

  // b waits for a number of a's, and there is none.
  predicate Stranded(w: World, a: Name, b: Name)
    requires a in w.clients && b in w.clients
  {
    Open(w.clients[b], a) && !Coming(w, a, b) && !Useful(w.clients[b], a)
  }

  // ---------------------------------------------------------------------------
  // Stranded for good.

  // What a step makes of a stream between two clients.
  lemma StreamAfter(g: Group, w: World, s: Step, a: Name, b: Name)
    requires g.prime > 0 && Enabled(g, w, s) && a != SERVER && a in w.clients
    ensures Stream(Apply(g, w, s), a, b) ==
            if s == Receive(b, a) then Stream(w, a, b)[1..]
            else if s == RunHandshaker(a) && (w.clients[a].hs.Sending? || w.clients[a].hs.Replying?)
                    && w.clients[a].hs.to == b
            then Stream(w, a, b) + [Dh(w.clients[a].hs.num)]
            else Stream(w, a, b)
  {
    match s
    case ServerDh(to, num) => PutStream(w, SERVER, to, Dh(num), a, b);
    case ServerEnter(to, who) => PutStream(w, SERVER, to, Enter(who), a, b);
    case RunHandshaker(me) =>
      var c := w.clients[me];
      if c.hs.Sending? || c.hs.Replying? { PutStream(w, me, c.hs.to, Dh(c.hs.num), a, b); }
    case _ =>
  }

  // One who is stranded was never answered: its peer led a handshake too, and took a request for the reply.
  lemma StrandedByLeader(g: Group, w: World, h: History, a: Name, b: Name)
    requires ValidGroup(g) && Inv(g, w, h) && a in w.clients && b in w.clients && a != b
    requires b in w.clients[a].keys && Stranded(w, a, b)
    ensures (a, b) in h && h[(a, b)].role == Init
  {
    assert PairIn(g, w, h, a, b) && PairIn(g, w, h, b, a);
    var inbox := Held(w.clients[b], a) + Stream(w, a, b);
    assert inbox == Held(w.clients[b], a);
  }

  // A leader with its key has nothing to send to that peer, and will not have.
  lemma LeaderIsSilent(g: Group, w: World, h: History, a: Name, b: Name)
    requires ValidGroup(g) && Inv(g, w, h) && a in w.clients && b in w.clients && a != b
    requires b in w.clients[a].keys && (a, b) in h && h[(a, b)].role == Init
    ensures var hs := w.clients[a].hs;
            && ((hs.Sending? || hs.Replying?) ==> hs.to != b)
            && (HandshakerStep(g, w.clients[a]).hs.Replying? ==> HandshakerStep(g, w.clients[a]).hs.to != b)
    ensures b in HandshakerStep(g, w.clients[a]).keys
  {
    assert PairIn(g, w, h, a, b) && Local(g, a, w.clients[a]);
  }

  lemma ReceiverStaysStranded(g: Group, b: Name, c: Client, a: Name, draw: nat)
    requires ValidGroup(g) && Local(g, b, c) && Open(c, a) && !Useful(c, a)
    ensures var c' := ReceiverStep(g, c, draw); Open(c', a) && !Useful(c', a)
  {
  }

  lemma HandshakerStaysStranded(g: Group, b: Name, c: Client, a: Name)
    requires ValidGroup(g) && Local(g, b, c) && Open(c, a) && !Useful(c, a)
    ensures var c' := HandshakerStep(g, c); Open(c', a) && !Useful(c', a)
  {
  }

  lemma TakingStaysStranded(c: Client, a: Name, from: Name, msg: Message)
    requires c.recv == Listening && Open(c, a) && from != a
    ensures var c' := c.(recv := Taken(from, msg)); Open(c', a) && !Useful(c', a)
  {
  }

  lemma PeerStaysStranded(g: Group, w: World, h: History, s: Step, a: Name, b: Name)
    requires ValidGroup(g) && Inv(g, w, h) && Enabled(g, w, s) && a in w.clients && b in w.clients && a != b
    requires Stranded(w, a, b)
    ensures var c' := ClientAfter(g, w, s, b); Open(c', a) && !Useful(c', a)
  {
    var c := w.clients[b];
    assert Local(g, b, c);
    if b == Subject(s) {
      match s
      case Receive(_, from) => TakingStaysStranded(c, a, from, Stream(w, from, b)[0]);
      case RunReceiver(_, draw) => ReceiverStaysStranded(g, b, c, a, draw);
      case RunHandshaker(_) => HandshakerStaysStranded(g, b, c, a);
      case _ =>
    }
  }

  lemma NothingComes(g: Group, w: World, h: History, s: Step, a: Name, b: Name)
    requires ValidGroup(g) && Inv(g, w, h) && Enabled(g, w, s) && a in w.clients && b in w.clients && a != b
    requires b in w.clients[a].keys && Stranded(w, a, b)
    ensures a in Apply(g, w, s).clients && b in Apply(g, w, s).clients[a].keys && !Coming(Apply(g, w, s), a, b)
  {
    StrandedByLeader(g, w, h, a, b);
    LeaderIsSilent(g, w, h, a, b);
    ClientAfterStep(g, w, s, a);
    StreamAfter(g, w, s, a, b);
    KeysKept(g, w, s, a);
  }

  lemma KeysKept(g: Group, w: World, s: Step, a: Name)
    requires g.prime > 0 && Enabled(g, w, s) && a in w.clients
    ensures w.clients[a].keys.Keys <= ClientAfter(g, w, s, a).keys.Keys
    ensures s != RunHandshaker(a) ==> ClientAfter(g, w, s, a).hs == w.clients[a].hs
  {
  }

  /** A client that is stranded stays so: it gets no key however the run goes on. */
  lemma {:induction false} StrandedForGood(g: Group, w: World, a: Name, b: Name, steps: seq<Step>, w': World)
    requires ValidGroup(g) && Reachable(g, w) && a in w.clients && b in w.clients && a != b
    requires b in w.clients[a].keys && Stranded(w, a, b) && Leads(g, w, steps, w')
    ensures b in w'.clients && a !in w'.clients[b].keys
    decreases |steps|
  {
    if steps != [] {
      var h := ReachableInv(g, w);
      PeerStaysStranded(g, w, h, steps[0], a, b);
      NothingComes(g, w, h, steps[0], a, b);
      ClientAfterStep(g, w, steps[0], b);
      OneMoreStep(g, w, steps[0]);
      StrandedForGood(g, Apply(g, w, steps[0]), a, b, steps[1..], w');
    }
  }

  /** Two requests that cross can leave b stranded. */
  lemma StrandedReached(g: Group, a: Name, b: Name) returns (w: World)
    requires ValidGroup(g) && a != SERVER && b != SERVER && a != b
    ensures Reachable(g, w) && a in w.clients && b in w.clients
    ensures b in w.clients[a].keys && Stranded(w, a, b)
  {
    w := OneSidedKeyReached(g, a, b);
  }

  // ---------------------------------------------------------------------------
  // And otherwise it can still get its key.

  // How many steps of the handshaker are left before it has concluded or polls.
  function HandshakerRank(hs: Handshaker): nat {
    match hs
    case Concluding => 1
    case Settling(_, _) => 1
    case Announcing(_, _) => 1
    case Building(_) => 2
    case Polling(_, _) => 2
    case Holding(_) => 3
    case Sending(_, _) => 3
    case Blocked => 4
    case Replying(_, _) => 5
    case Faulted => 0
  }

  // How many steps b takes at most until it has the number or, if none is at hand, takes one.
  function Rank(w: World, a: Name, b: Name): nat
    requires a in w.clients && b in w.clients
  {
    var c := w.clients[b];
    if !Open(c, a) || c.m.state == SendDh then
      (if Open(c, a) then 20 else 0) + HandshakerRank(c.hs) + (if c.recv.Waking? then 1 else 0)
    else match c.recv
      case Replied(_) => 6
      case StoringReply(_, _) => 7
      case Comparing(from, _) => if from == a then 8 else 12
      case GotDh(from, _) => if from == a then 9 else 13
      case Listening => if Stream(w, a, b) != [] then 10 else 11
      case _ => 12
  }

  // The step that brings b closer to its key.
  function Closer(w: World, a: Name, b: Name): Step
    requires a in w.clients && b in w.clients
  {
    var c := w.clients[b];
    if !Open(c, a) || c.m.state == SendDh then if c.recv.Waking? then RunReceiver(b, 0) else RunHandshaker(b)
    else if c.recv != Listening then RunReceiver(b, 0)
    else if Stream(w, a, b) != [] then Receive(b, a)
    else RunHandshaker(a)
  }

  // What is true until b has its key.
  predicate Hopeful(w: World, a: Name, b: Name) {
    a in w.clients && b in w.clients && InFirst(w.clients[b], a) && !Stranded(w, a, b)
  }

  // b has the number already, or has yet to send its request.
  lemma BusyCloser(g: Group, w: World, a: Name, b: Name)
    requires ValidGroup(g) && a in w.clients && b in w.clients && a != b && a != SERVER && b != SERVER
    requires Local(g, b, w.clients[b]) && Hopeful(w, a, b)
    requires !Open(w.clients[b], a) || w.clients[b].m.state == SendDh
    ensures var w' := Apply(g, w, Closer(w, a, b));
            && Enabled(g, w, Closer(w, a, b)) && a in w'.clients && b in w'.clients
            && (a in w'.clients[b].keys || (Hopeful(w', a, b) && Rank(w', a, b) < Rank(w, a, b)))
  {
    var s := Closer(w, a, b);
    ClientAfterStep(g, w, s, b);
    ClientAfterStep(g, w, s, a);
    StreamAfter(g, w, s, a, b);
  }

  // b polls, and its receiver is busy.
  lemma PollingCloser(g: Group, w: World, a: Name, b: Name)
    requires ValidGroup(g) && a in w.clients && b in w.clients && a != b && a != SERVER && b != SERVER
    requires Local(g, b, w.clients[b]) && Hopeful(w, a, b)
    requires Open(w.clients[b], a) && w.clients[b].m.state == WaitingForRcvDh && w.clients[b].recv != Listening
    ensures var w' := Apply(g, w, Closer(w, a, b));
            && Enabled(g, w, Closer(w, a, b)) && a in w'.clients && b in w'.clients
            && Hopeful(w', a, b) && Rank(w', a, b) < Rank(w, a, b)
  {
    var s := Closer(w, a, b);
    ClientAfterStep(g, w, s, b);
    ClientAfterStep(g, w, s, a);
    StreamAfter(g, w, s, a, b);
  }

  // b polls and listens.
  lemma ListeningCloser(g: Group, w: World, a: Name, b: Name)
    requires ValidGroup(g) && a in w.clients && b in w.clients && a != b && a != SERVER && b != SERVER
    requires Local(g, b, w.clients[b]) && Hopeful(w, a, b) && ProperStreams(w)
    requires Open(w.clients[b], a) && w.clients[b].m.state == WaitingForRcvDh && w.clients[b].recv == Listening
    ensures var w' := Apply(g, w, Closer(w, a, b));
            && Enabled(g, w, Closer(w, a, b)) && a in w'.clients && b in w'.clients
            && Hopeful(w', a, b) && Rank(w', a, b) < Rank(w, a, b)
  {
    var s := Closer(w, a, b);
    ClientAfterStep(g, w, s, b);
    ClientAfterStep(g, w, s, a);
    StreamAfter(g, w, s, a, b);
    if Stream(w, a, b) != [] { assert Stream(w, a, b)[0] in Stream(w, a, b); }
  }

  lemma OneStepCloser(g: Group, w: World, a: Name, b: Name)
    requires ValidGroup(g) && Reachable(g, w) && a != b && Hopeful(w, a, b)
    ensures var w' := Apply(g, w, Closer(w, a, b));
            && Enabled(g, w, Closer(w, a, b)) && a in w'.clients && b in w'.clients
            && (a in w'.clients[b].keys || (Hopeful(w', a, b) && Rank(w', a, b) < Rank(w, a, b)))
  {
    var h := ReachableInv(g, w);
    assert Local(g, b, w.clients[b]);
    if !Open(w.clients[b], a) || w.clients[b].m.state == SendDh {
      BusyCloser(g, w, a, b);
    } else if w.clients[b].recv != Listening {
      PollingCloser(g, w, a, b);
    } else {
      ListeningCloser(g, w, a, b);
    }
  }

  /** A client in a handshake that is not stranded can still get its key: these steps lead there. */
  lemma {:induction false} HopeFulfilled(g: Group, w: World, a: Name, b: Name) returns (steps: seq<Step>, w': World)
    requires ValidGroup(g) && Reachable(g, w) && a != b && Hopeful(w, a, b)
    ensures Leads(g, w, steps, w') && b in w'.clients && a in w'.clients[b].keys
    decreases Rank(w, a, b)
  {
    OneStepCloser(g, w, a, b);
    var s := Closer(w, a, b);
    var v := Apply(g, w, s);
    OneMoreStep(g, w, s);
    var rest := [];
    if a in v.clients[b].keys {
      w' := v;
    } else {
      rest, w' := HopeFulfilled(g, v, a, b);
    }
    steps := [s] + rest;
    assert steps[1..] == rest;
  }

  ghost predicate CanStillGet(g: Group, w: World, a: Name, b: Name)
    requires g.prime > 0
  {
    exists steps, w' :: Leads(g, w, steps, w') && b in w'.clients && a in w'.clients[b].keys
  }

  /** If a holds a key for b, then b holds one for a or can still get one exactly unless b waits for a
      number that is neither at hand nor on its way. */
  lemma MutualExactly(g: Group, w: World, a: Name, b: Name)
    requires ValidGroup(g) && Reachable(g, w) && a in w.clients && b in w.clients && a != b
    requires b in w.clients[a].keys
    ensures CanStillGet(g, w, a, b) <==> !Stranded(w, a, b)
  {
    if Stranded(w, a, b) {
      forall steps, w' | Leads(g, w, steps, w') ensures b in w'.clients && a !in w'.clients[b].keys {
        StrandedForGood(g, w, a, b, steps, w');
      }
    } else if a in w.clients[b].keys {
      assert Leads(g, w, [], w);
    } else {
      MutualUnlessInFirst(g, w, a, b);
      var steps, w' := HopeFulfilled(g, w, a, b);
    }
  }
}
