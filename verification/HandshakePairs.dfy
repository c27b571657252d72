/** What every step keeps about two clients: the numbers one end has yet to take are those of
    the other end's first handshake with it, until they have been used. */
module HandshakePairs {
  import opened Handshake
  import opened HandshakeLocal
  import opened Options

  datatype Role = Init | Resp

  /** The first handshake that a client begins with a peer: its secret exponent and its role. */
  datatype First = First(exp: nat, role: Role)

  /** Bookkeeping of a run: for (me, peer), me's first handshake with peer. */
  type History = map<(Name, Name), First>

  function Find(h: History, a: Name, b: Name): Option<First> {
    if (a, b) in h then Some(h[(a, b)]) else None
  }

  // The message of `from` that the receiver task has taken and not yet used up.
  function Held(c: Client, from: Name): seq<Message> {
    match c.recv
    case GotDh(f, num) => if f == from then [Dh(num)] else []
    case Comparing(f, num) => if f == from then [Dh(num)] else []
    case StoringReply(f, num) => if f == from then [Dh(num)] else []
    case Replied(f) => if f == from then [Dh(c.m.opponent)] else []
    case NotWaiting(f, num) => if f == from then [Dh(num)] else []
    case StoringRequest(f, num) => if f == from then [Dh(num)] else []
    case Answering(f) => if f == from then [Dh(c.m.opponent)] else []
    case _ => []
  }

  // The client is in a handshake with `peer` and has no key for it.
  predicate InFirst(c: Client, peer: Name) {
    c.m.state != Idle && c.m.peer == Some(peer) && peer !in c.keys
  }

  // It leads that handshake and has not taken the peer's number yet.
  predicate Open(c: Client, peer: Name) {
    InFirst(c, peer) && Initiating(c) && c.m.state != RcvedDh
  }

  // What a's own state says of its first handshake with b.
  predicate Own(g: Group, b: Name, ca: Client, hab: Option<First>, hba: Option<First>)
    requires g.prime > 0
  {
    && (hab.Some? <==> b in ca.keys || InFirst(ca, b))
    && (InFirst(ca, b) ==>
          ca.m.exponent == hab.value.exp && (Initiating(ca) <==> hab.value.role == Init))
    && (b in ca.keys ==>
          hba.Some? && ca.keys[b] == Some(SessionKey(g, Public(g, hba.value.exp), hab.value.exp)))
    && (InFirst(ca, b) && !Open(ca, b) ==>
          hba.Some? && ca.m.opponent == Public(g, hba.value.exp))
    && (hab.Some? && hab.value.role == Init && b in ca.keys ==>
          !(ca.m.state != Idle && ca.m.peer == Some(b) && Initiating(ca)))
    && (ca.hs.Replying? && ca.hs.to == b ==>
          hab.Some? && hab.value.role == Resp && ca.hs.num == Public(g, hab.value.exp))
  }

  // b has entered its first handshake with a but sent nothing yet.
  predicate Silent(cb: Client, a: Name) {
    InFirst(cb, a) || (cb.hs.Replying? && cb.hs.to == a)
  }

  // a waits for b and will take whatever comes first from b.
  predicate Attentive(ca: Client, b: Name) {
    && ca.m.state == WaitingForRcvDh
    && !(ca.recv.NotWaiting? && ca.recv.from == b)
  }

  // What lies between the producer b and the consumer a.
  predicate Inbox(g: Group, a: Name, b: Name, ca: Client, cb: Client, ba: seq<Message>,
                  hab: Option<First>, hba: Option<First>)
    requires g.prime > 0
  {
    var inbox := Held(ca, b) + ba;
    && (hba.None? ==> inbox == [])
    && (hba.Some? && hba.value.role == Init ==>
          && (forall msg | msg in inbox :: msg == Dh(Public(g, hba.value.exp)))
          && (InFirst(cb, a) && cb.m.state == SendDh ==> inbox == []))
    && (hba.Some? && hba.value.role == Resp ==>
          && hab.Some? && hab.value.role == Init
          && (Open(ca, b) ==>
                && Attentive(ca, b)
                && (if Silent(cb, a) then inbox == []
                    else inbox != [] && inbox[0] == Dh(Public(g, hba.value.exp)))))
  }

  // At most one notice about `who` is on its way to b, and none once b has led a handshake with it.
  predicate Notices(b: Name, who: Name, cb: Client, sb: seq<Message>, hb: Option<First>, announced: bool) {
    var held := if cb.recv.GotEnter? || cb.recv.Greeting? then cb.recv.who == who else false;
    && (!announced ==> !held && Enter(who) !in sb)
    && (held ==> Enter(who) !in sb)
    && (forall i, j | 0 <= i < j < |sb| :: !(sb[i] == Enter(who) && sb[j] == Enter(who)))
    && (hb.Some? && hb.value.role == Init ==> announced && !held && Enter(who) !in sb)
  }

  predicate Pair(g: Group, a: Name, b: Name, ca: Client, cb: Client, ba: seq<Message>, sb: seq<Message>,
                 hab: Option<First>, hba: Option<First>, announced: bool)
    requires g.prime > 0
  {
    && Own(g, b, ca, hab, hba)
    && Inbox(g, a, b, ca, cb, ba, hab, hba)
    && Notices(b, a, cb, sb, hba, announced)
  }

  // Between clients only numbers travel; the server's stream carries numbers and notices of others.
  ghost predicate ProperStreams(w: World) {
    && (forall a, b | a in w.clients && b != SERVER :: forall msg | msg in Stream(w, b, a) :: msg.Dh?)
    && (forall a | a in w.clients :: Stream(w, a, a) == [])
    && (forall a | a in w.clients ::
          forall msg | msg in Stream(w, SERVER, a) :: msg.Enter? ==> msg.who != a && msg.who != SERVER)
  }

  ghost predicate Inv(g: Group, w: World, h: History)
    requires g.prime > 0
  {
    && SERVER !in w.clients
    && ProperStreams(w)
    && (forall a | a in w.clients :: Local(g, a, w.clients[a]))
    && (forall a, b | a in w.clients && b in w.clients && a != b :: PairIn(g, w, h, a, b))
  }

  ghost predicate PairIn(g: Group, w: World, h: History, a: Name, b: Name)
    requires g.prime > 0 && a in w.clients && b in w.clients
  {
    Pair(g, a, b, w.clients[a], w.clients[b], Stream(w, b, a), Stream(w, SERVER, b),
         Find(h, a, b), Find(h, b, a), (b, a) in w.announced)
  }
}
