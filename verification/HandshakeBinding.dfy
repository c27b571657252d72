/** Where a session key comes from, what a handshake keeps fixed, and when a handshaker ends. */
module HandshakeBinding {
  import opened ModArith
  import opened BigIntBytes
  import opened Handshake
  import opened HandshakeLocal
  import opened HandshakePairs
  import opened HandshakeRuns
  import opened Options

  /** On the way of this run the receiver of `me` took Dh(num) from the stream of `from`. */
  ghost predicate Arrived(g: Group, w0: World, steps: seq<Step>, w: World, me: Name, from: Name, num: nat)
    requires g.prime > 0
    decreases |steps|
  {
    steps != [] &&
    var before, last := steps[..|steps| - 1], steps[|steps| - 1];
    exists v :: Runs(g, w0, before, v) && Enabled(g, v, last) && w == Apply(g, v, last)
                && (Arrived(g, w0, before, v, me, from, num) || Takes(v, last, me, from, num))
  }

  /** On the way of this run `me` was in a handshake with `who` whose secret exponent was e. */
  ghost predicate Bore(g: Group, w0: World, steps: seq<Step>, w: World, me: Name, who: Name, e: nat)
    requires g.prime > 0
    decreases |steps|
  {
    steps != [] &&
    var before, last := steps[..|steps| - 1], steps[|steps| - 1];
    exists v :: Runs(g, w0, before, v) && Enabled(g, v, last) && w == Apply(g, v, last)
                && (Bore(g, w0, before, v, me, who, e) || Shares(g, v, me, who, e))
  }

  predicate Shares(g: Group, v: World, me: Name, who: Name, e: nat)
    requires g.prime > 0
  {
    me in v.clients &&
    var m := v.clients[me].m;
    m.state != Idle && m.peer == Some(who) && m.exponent == e && m.bignum == Public(g, e)
  }

  predicate Takes(v: World, s: Step, me: Name, from: Name, num: nat) {
    s == Receive(me, from) && Stream(v, from, me) != [] && Stream(v, from, me)[0] == Dh(num)
  }

  // The number that the client has in hand, and from whom.
  function InHand(c: Client): Option<(Name, nat)> {
    match c.recv
    case GotDh(from, num) => Some((from, num))
    case Comparing(from, num) => Some((from, num))
    case StoringReply(from, num) => Some((from, num))
    case Replied(from) => Some((from, c.m.opponent))
    case NotWaiting(from, num) => Some((from, num))
    case StoringRequest(from, num) => Some((from, num))
    case Answering(from) => Some((from, c.m.opponent))
    case _ => None
  }

  // The client has the opponent's number of its current handshake.
  predicate Supplied(c: Client) {
    c.m.state == RcvedDh || (c.m.state == SendDh && !Initiating(c))
  }

  // The key is HKDF of the least two's complement of num to that exponent modulo the prime, low byte first.
  ghost predicate DerivedFrom(g: Group, key: Key, num: nat, exponent: nat)
    requires g.prime > 0
  {
    exists bytes ::
      LeastComplement(bytes) && Value(bytes) == Pow(num, exponent) % g.prime && key == g.kdf(bytes)
  }

  lemma KeyIsDerived(g: Group, num: nat, exponent: nat)
    requires g.prime > 0
    ensures DerivedFrom(g, SessionKey(g, num, exponent), num, exponent)
  {
    var shared := Pow(num, exponent) % g.prime;
    ToByteArrayExactly(shared, ToByteArray(shared));
  }

  ghost predicate Sourced(g: Group, w0: World, steps: seq<Step>, w: World, me: Name, c: Client)
    requires g.prime > 0
  {
    && (InHand(c).Some? ==> Arrived(g, w0, steps, w, me, InHand(c).value.0, InHand(c).value.1))
    && (Supplied(c) && c.m.peer.Some? ==> Arrived(g, w0, steps, w, me, c.m.peer.value, c.m.opponent))
    && (forall who | who in c.keys && c.keys[who].Some? ::
          exists num, e :: DerivedFrom(g, c.keys[who].value, num, e)
                           && Arrived(g, w0, steps, w, me, who, num) && Bore(g, w0, steps, w, me, who, e))
  }

  // What a step may change in a client, as far as sources go.
  lemma ReceiverSources(g: Group, me: Name, c: Client, draw: nat)
    requires ValidGroup(g) && Local(g, me, c) && me != SERVER
    ensures var c' := ReceiverStep(g, c, draw);
            && c'.keys == c.keys
            && (InHand(c').Some? ==> InHand(c') == InHand(c))
            && (Supplied(c') && c'.m.peer.Some? ==>
                  (Supplied(c) && c.m.peer == c'.m.peer && c.m.opponent == c'.m.opponent)
                  || InHand(c) == Some((c'.m.peer.value, c'.m.opponent)))
  {
    match c.recv
    case Replied(_) =>
    case Answering(_) =>
    case Greeting(_) =>
    case Waking(_) =>
    case _ =>
  }

  lemma HandshakerSources(g: Group, me: Name, c: Client)
    requires ValidGroup(g) && Local(g, me, c) && me != SERVER
    ensures var c' := HandshakerStep(g, c);
            && (InHand(c').Some? ==> InHand(c') == InHand(c))
            && (Supplied(c') && c'.m.peer.Some? ==>
                  Supplied(c) && c.m.peer == c'.m.peer && c.m.opponent == c'.m.opponent)
            && (c'.keys == c.keys
                || (Supplied(c) && c.m.peer.Some? && c.m.state != Idle && c.m.bignum == Public(g, c.m.exponent)
                    && c'.keys == c.keys[c.m.peer.value := Some(SessionKey(g, c.m.opponent, c.m.exponent))]))
  {
    match c.hs
    case Concluding =>
    case Settling(_, _) =>
    case Announcing(_, _) =>
    case _ =>
  }

  // The client `me` after a step, given only what concerns it.
  function ClientAfter(g: Group, w: World, s: Step, me: Name): Client
    requires g.prime > 0 && Enabled(g, w, s) && me in w.clients
  {
    var c := w.clients[me];
    if me != Subject(s) then c
    else match s
      case Receive(_, from) => c.(recv := Taken(from, Stream(w, from, me)[0]))
      case RunReceiver(_, draw) => ReceiverStep(g, c, draw)
      case RunHandshaker(_) => HandshakerStep(g, c)
      case _ => c
  }

  lemma ClientAfterStep(g: Group, w: World, s: Step, me: Name)
    requires g.prime > 0 && Enabled(g, w, s) && me in w.clients
    ensures me in Apply(g, w, s).clients && Apply(g, w, s).clients[me] == ClientAfter(g, w, s, me)
  {
    match s
    case Receive(_, _) =>
    case RunHandshaker(_) =>
    case _ =>
  }

  lemma ClientSources(g: Group, w: World, s: Step, me: Name)
    requires ValidGroup(g) && Enabled(g, w, s) && me in w.clients && SERVER !in w.clients
    requires Local(g, me, w.clients[me])
    ensures var c, c' := w.clients[me], ClientAfter(g, w, s, me);
            && (InHand(c').Some? ==>
                  InHand(c') == InHand(c) || Takes(w, s, me, InHand(c').value.0, InHand(c').value.1))
            && (Supplied(c') && c'.m.peer.Some? ==>
                  (Supplied(c) && c.m.peer == c'.m.peer && c.m.opponent == c'.m.opponent)
                  || InHand(c) == Some((c'.m.peer.value, c'.m.opponent)))
            && (c'.keys == c.keys
                || (Supplied(c) && c.m.peer.Some? && c.m.state != Idle && c.m.bignum == Public(g, c.m.exponent)
                    && c'.keys == c.keys[c.m.peer.value := Some(SessionKey(g, c.m.opponent, c.m.exponent))]))
  {
    if me == Subject(s) {
      match s
      case RunReceiver(_, draw) => ReceiverSources(g, me, w.clients[me], draw);
      case RunHandshaker(_) => HandshakerSources(g, me, w.clients[me]);
      case _ =>
    }
  }

  lemma ArrivedEarlier(g: Group, w0: World, before: seq<Step>, v: World, s: Step, me: Name, from: Name, num: nat)
    requires g.prime > 0 && Runs(g, w0, before, v) && Enabled(g, v, s)
    requires Arrived(g, w0, before, v, me, from, num) || Takes(v, s, me, from, num)
    ensures Arrived(g, w0, before + [s], Apply(g, v, s), me, from, num)
  {
    assert (before + [s])[..|before + [s]| - 1] == before;
  }

  lemma BoreEarlier(g: Group, w0: World, before: seq<Step>, v: World, s: Step, me: Name, who: Name, e: nat)
    requires g.prime > 0 && Runs(g, w0, before, v) && Enabled(g, v, s)
    requires Bore(g, w0, before, v, me, who, e) || Shares(g, v, me, who, e)
    ensures Bore(g, w0, before + [s], Apply(g, v, s), me, who, e)
  {
    assert (before + [s])[..|before + [s]| - 1] == before;
  }

  lemma SourcedKept(g: Group, w0: World, before: seq<Step>, v: World, s: Step, me: Name)
    requires ValidGroup(g) && Runs(g, w0, before, v) && Enabled(g, v, s) && me in v.clients && SERVER !in v.clients
    requires Local(g, me, v.clients[me]) && Sourced(g, w0, before, v, me, v.clients[me])
    ensures Sourced(g, w0, before + [s], Apply(g, v, s), me, Apply(g, v, s).clients[me])
  {
    var steps, w := before + [s], Apply(g, v, s);
    ClientAfterStep(g, v, s, me);
    ClientSources(g, v, s, me);
    var c, c' := v.clients[me], ClientAfter(g, v, s, me);
    if InHand(c').Some? {
      ArrivedEarlier(g, w0, before, v, s, me, InHand(c').value.0, InHand(c').value.1);
    }
    if Supplied(c') && c'.m.peer.Some? {
      ArrivedEarlier(g, w0, before, v, s, me, c'.m.peer.value, c'.m.opponent);
    }
    forall who | who in c'.keys && c'.keys[who].Some?
      ensures exists num, e :: DerivedFrom(g, c'.keys[who].value, num, e)
                               && Arrived(g, w0, steps, w, me, who, num) && Bore(g, w0, steps, w, me, who, e)
    {
      if who in c.keys && c'.keys[who] == c.keys[who] {
        var num, e :| DerivedFrom(g, c.keys[who].value, num, e)
                      && Arrived(g, w0, before, v, me, who, num) && Bore(g, w0, before, v, me, who, e);
        ArrivedEarlier(g, w0, before, v, s, me, who, num);
        BoreEarlier(g, w0, before, v, s, me, who, e);
      } else {
        ArrivedEarlier(g, w0, before, v, s, me, who, c.m.opponent);
        BoreEarlier(g, w0, before, v, s, me, who, c.m.exponent);
        KeyIsDerived(g, c.m.opponent, c.m.exponent);
      }
    }
  }

  // The same for a list of steps that ends with s.
  lemma SourcedAfter(g: Group, w0: World, steps: seq<Step>, v: World, me: Name)
    requires ValidGroup(g) && steps != [] && me in v.clients && SERVER !in v.clients
    requires var before, s := steps[..|steps| - 1], steps[|steps| - 1];
             && Runs(g, w0, before, v) && Enabled(g, v, s)
             && Local(g, me, v.clients[me]) && Sourced(g, w0, before, v, me, v.clients[me])
    ensures var w := Apply(g, v, steps[|steps| - 1]);
            me in w.clients && Sourced(g, w0, steps, w, me, w.clients[me])
  {
    var before, s := steps[..|steps| - 1], steps[|steps| - 1];
    ClientAfterStep(g, v, s, me);
    SourcedKept(g, w0, before, v, s, me);
    assert before + [s] == steps;
  }

  lemma LastStep(g: Group, w0: World, steps: seq<Step>, w: World, me: Name) returns (v: World)
    requires ValidGroup(g) && Runs(g, w0, steps, w) && steps != [] && me in w.clients
    ensures Runs(g, w0, steps[..|steps| - 1], v) && Enabled(g, v, steps[|steps| - 1])
    ensures w == Apply(g, v, steps[|steps| - 1])
    ensures me in v.clients && Local(g, me, v.clients[me]) && SERVER !in v.clients
  {
    v :| Runs(g, w0, steps[..|steps| - 1], v) && Enabled(g, v, steps[|steps| - 1])
         && w == Apply(g, v, steps[|steps| - 1]);
    var h := RunKeepsInv(g, w0, steps[..|steps| - 1], v);
    assert me in v.clients;
  }

  lemma InitialSourced(g: Group, w0: World, w: World, me: Name)
    requires ValidGroup(g) && Initial(g, w) && me in w.clients
    ensures Sourced(g, w0, [], w, me, w.clients[me])
  {
    assert InitialClient(g, me, w.clients[me]);
  }

  /** Key binding: a session key stored under a name was derived from a number that arrived in
      a dh message from that name, the server included, and from the exponent that the client drew for
      a handshake with it. */
  lemma {:induction false} KeyBinding(g: Group, w0: World, steps: seq<Step>, w: World, me: Name)
    requires ValidGroup(g) && Runs(g, w0, steps, w) && me in w.clients
    ensures Sourced(g, w0, steps, w, me, w.clients[me])
    decreases |steps|
  {
    if steps == [] {
      InitialSourced(g, w0, w, me);
    } else {
      var v := LastStep(g, w0, steps, w, me);
      KeyBinding(g, w0, steps[..|steps| - 1], v, me);
      SourcedAfter(g, w0, steps, v, me);
    }
  }

  /** From leaving idle until returning to it, a step of anyone leaves the peer, the secret
      exponent and the public number alone; and what the client then sends goes to that peer
      and is that public number. */
  lemma HandshakeIsBound(g: Group, w: World, s: Step, me: Name)
    requires ValidGroup(g) && Reachable(g, w) && Enabled(g, w, s) && me in w.clients
    requires w.clients[me].m.state != Idle
    ensures var c, c' := w.clients[me], Apply(g, w, s).clients[me];
            && (c'.m.state != Idle ==>
                  c'.m.peer == c.m.peer && c'.m.exponent == c.m.exponent && c'.m.bignum == c.m.bignum)
            && (c.hs.Sending? ==>
                  c.m.peer == Some(c.hs.to) && c.hs.num == Public(g, c.m.exponent))
  {
    var h := ReachableInv(g, w);
    assert Local(g, me, w.clients[me]);
    ClientAfterStep(g, w, s, me);
  }

  /** The reply that a responder still has to send is the public number of the exponent inside
      the key it has already stored for the one it answers. */
  lemma ReplyMatchesKey(g: Group, w: World, me: Name, peer: Name) returns (mine: nat, theirs: nat)
    requires ValidGroup(g) && Reachable(g, w) && me in w.clients && peer in w.clients && me != peer
    requires w.clients[me].hs.Replying? && w.clients[me].hs.to == peer
    ensures peer in w.clients[me].keys
    ensures w.clients[me].hs.num == Pow(2, mine) % g.prime
    ensures w.clients[me].keys[peer] == Some(g.kdf(ToByteArray(Pow(2, theirs * mine) % g.prime)))
  {
    var h := ReachableInv(g, w);
    assert PairIn(g, w, h, me, peer) && Local(g, me, w.clients[me]);
    mine, theirs := h[(me, peer)].exp, h[(peer, me)].exp;
    KeyOfPublic(g, theirs, mine);
  }

  // -------------------------------------------------------------------------
  // Whose exponents are inside a shared key.

  // On the way of this run, its end included, `me` was in a handshake with `who` on exponent e.
  ghost predicate Borne(g: Group, w0: World, steps: seq<Step>, w: World, me: Name, who: Name, e: nat)
    requires g.prime > 0
  {
    Bore(g, w0, steps, w, me, who, e) || Shares(g, w, me, who, e)
  }

  ghost predicate HistoryBorne(g: Group, w0: World, steps: seq<Step>, w: World, h: History)
    requires g.prime > 0
  {
    forall me, who | (me, who) in h :: Borne(g, w0, steps, w, me, who, h[(me, who)].exp)
  }

  lemma NewlyShares(g: Group, v: World, h: History, s: Step, me: Name, who: Name)
    requires ValidGroup(g) && Enabled(g, v, s) && Inv(g, v, h)
    requires (me, who) in Recorded(g, v, h, s) && (me, who) !in h
    ensures Shares(g, Apply(g, v, s), me, who, Recorded(g, v, h, s)[(me, who)].exp)
  {
    assert Local(g, me, v.clients[me]);
  }

  lemma HistoryBorneKept(g: Group, w0: World, before: seq<Step>, v: World, h: History, s: Step)
    requires ValidGroup(g) && Runs(g, w0, before, v) && Enabled(g, v, s) && Inv(g, v, h)
    requires HistoryBorne(g, w0, before, v, h)
    ensures HistoryBorne(g, w0, before + [s], Apply(g, v, s), Recorded(g, v, h, s))
  {
    var h' := Recorded(g, v, h, s);
    forall me, who | (me, who) in h'
      ensures Borne(g, w0, before + [s], Apply(g, v, s), me, who, h'[(me, who)].exp)
    {
      if (me, who) in h {
        assert h'[(me, who)] == h[(me, who)];
        BoreEarlier(g, w0, before, v, s, me, who, h[(me, who)].exp);
      } else {
        NewlyShares(g, v, h, s, me, who);
      }
    }
  }

  lemma HistoryAfter(g: Group, w0: World, before: seq<Step>, v: World, h: History, s: Step, steps: seq<Step>)
    requires ValidGroup(g) && Runs(g, w0, before, v) && Enabled(g, v, s) && Inv(g, v, h)
    requires HistoryBorne(g, w0, before, v, h) && steps != [] && before == steps[..|steps| - 1]
    requires s == steps[|steps| - 1]
    ensures Inv(g, Apply(g, v, s), Recorded(g, v, h, s))
    ensures HistoryBorne(g, w0, steps, Apply(g, v, s), Recorded(g, v, h, s))
  {
    StepKeepsInv(g, v, h, s);
    HistoryBorneKept(g, w0, before, v, h, s);
    assert before + [s] == steps;
  }

  lemma {:induction false} RunBearsHistory(g: Group, w0: World, steps: seq<Step>, w: World) returns (h: History)
    requires ValidGroup(g) && Runs(g, w0, steps, w)
    ensures Inv(g, w, h) && HistoryBorne(g, w0, steps, w, h)
    decreases |steps|
  {
    if steps == [] {
      InitialInv(g, w);
      h := map[];
    } else {
      var before, last := steps[..|steps| - 1], steps[|steps| - 1];
      var v :| Runs(g, w0, before, v) && Enabled(g, v, last) && w == Apply(g, v, last);
      var hv := RunBearsHistory(g, w0, before, v);
      HistoryAfter(g, w0, before, v, hv, last, steps);
      h := Recorded(g, v, hv, last);
    }
  }

  /** Two clients that both hold a key for the other hold HKDF of 2^(x * y) modulo the prime, where x is an
      exponent that the one bore in a handshake with the other on the way, and y one that the
      other bore in a handshake with it. */
  lemma SharedKeyOfBoth(g: Group, w0: World, steps: seq<Step>, w: World, a: Name, b: Name) returns (x: nat, y: nat)
    requires ValidGroup(g) && Runs(g, w0, steps, w)
    requires a in w.clients && b in w.clients && a != b
    requires b in w.clients[a].keys && a in w.clients[b].keys
    ensures Borne(g, w0, steps, w, a, b, x) && Borne(g, w0, steps, w, b, a, y)
    ensures w.clients[a].keys[b] == w.clients[b].keys[a]
            == Some(g.kdf(ToByteArray(Pow(2, x * y) % g.prime)))
  {
    var h := RunBearsHistory(g, w0, steps, w);
    assert PairIn(g, w, h, a, b) && PairIn(g, w, h, b, a);
    x, y := h[(a, b)].exp, h[(b, a)].exp;
    KeyOfPublic(g, y, x);
    KeyOfPublic(g, x, y);
    assert x * y == y * x;
  }

  // -------------------------------------------------------------------------
  // When a handshaker ends.

  // The receiver's steps over one request, from taking it to waking the handshaker.
  function Accepting(g: Group, c: Client, from: Name, num: nat, draw: nat): Client
    requires g.prime > 0
  {
    var taken := c.(recv := GotDh(from, num));
    var checked := ReceiverStep(g, ReceiverStep(g, taken, draw), draw);
    ReceiverStep(g, ReceiverStep(g, ReceiverStep(g, checked, draw), draw), draw)
  }

  // Then the handshaker's: it takes the token, tests the state, builds the message, concludes.
  function Handling(g: Group, c: Client, from: Name, num: nat, draw: nat): Client
    requires g.prime > 0
  {
    var built := HandshakerStep(g, HandshakerStep(g, HandshakerStep(g, Accepting(g, c, from, num, draw))));
    HandshakerStep(g, built)
  }

  lemma AcceptingARequest(g: Group, c: Client, from: Name, num: nat, draw: nat)
    requires g.prime > 0 && c.m.state == Idle && c.m.bignum == 0 && c.queue == []
    ensures Accepting(g, c, from, num, draw)
            == c.(m := Machine(SendDh, Some(from), Public(g, draw), num, draw), queue := [RcvFirst], recv := Listening)
  {
  }

  lemma ConcludingARequest(g: Group, c: Client, from: Name, num: nat, draw: nat)
    requires ValidGroup(g) && c.m.state == Idle && c.m.bignum == 0 && c.queue == []
    requires c.hs == Blocked
    ensures var c' := Handling(g, c, from, num, draw);
            && (c'.hs == Faulted <==> from in c.keys)
            && (from in c.keys ==> c'.keys == c.keys && c'.m.state == SendDh)
            && (from !in c.keys ==>
                  && c'.hs == Replying(from, Public(g, draw))
                  && c'.keys == c.keys[from := Some(SessionKey(g, num, draw))]
                  && c'.m.state == Idle)
  {
    AcceptingARequest(g, c, from, num, draw);
    var accepted := Accepting(g, c, from, num, draw);
    var built := HandshakerStep(g, HandshakerStep(g, HandshakerStep(g, accepted)));
    assert built == accepted.(queue := [], hs := Settling(from, Public(g, draw)));
  }

  /** README.md has the initiator repeat its request until the answer comes. An idle client that
      handles a request ends its handshaker exactly when it already has a key for the sender,
      which is what a late copy of an answered request is; otherwise it stores the key and is
      about to reply. */
  lemma RequestEndsHandshaker(g: Group, w: World, me: Name, from: Name, num: nat, draw: nat)
    requires ValidGroup(g) && Reachable(g, w) && me in w.clients && from != me
    requires w.clients[me].m.state == Idle && w.clients[me].recv == Listening && w.clients[me].hs == Blocked
    ensures var c, c' := w.clients[me], Handling(g, w.clients[me], from, num, draw);
            && (c'.hs == Faulted <==> from in c.keys)
            && (from in c.keys ==> c'.keys == c.keys && c'.m.state == SendDh)
            && (from !in c.keys ==>
                  && c'.hs == Replying(from, Public(g, draw))
                  && c'.keys == c.keys[from := Some(SessionKey(g, num, draw))]
                  && c'.m.state == Idle)
  {
    var h := ReachableInv(g, w);
    var c := w.clients[me];
    assert Local(g, me, c);
    ConcludingARequest(g, c, from, num, draw);
  }

  /** A handshaker ends only over a peer that already has an entry in the table, and then for
      good: no step changes the client's state, table or peer any more. */
  lemma EndedForGood(g: Group, w: World, s: Step, me: Name)
    requires ValidGroup(g) && Reachable(g, w) && Enabled(g, w, s) && me in w.clients
    requires w.clients[me].hs == Faulted
    ensures var c, c' := w.clients[me], Apply(g, w, s).clients[me];
            && c.m.peer.Some? && c.m.peer.value in c.keys
            && c'.hs == Faulted && c'.m.state == c.m.state && c'.m.peer == c.m.peer && c'.keys == c.keys
            && c.m.state != Idle
  {
    var h := ReachableInv(g, w);
    assert Local(g, me, w.clients[me]);
    ClientAfterStep(g, w, s, me);
  }
}
