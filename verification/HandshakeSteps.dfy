/** Every step keeps the pair invariant, seen from both sides of every pair. */
module HandshakeSteps {
  import opened Handshake
  import opened HandshakeLocal
  import opened HandshakePairs
  import opened Options

  /** Two clients and all that lies between them. */
  datatype Couple = Couple(a: Name, b: Name, ca: Client, cb: Client, ab: seq<Message>, ba: seq<Message>,
                           sa: seq<Message>, sb: seq<Message>, hab: Option<First>, hba: Option<First>,
                           aKnown: bool, bKnown: bool)  // whether b was told of a, and a of b

  predicate Good(g: Group, p: Couple)
    requires g.prime > 0
  {
    && Pair(g, p.a, p.b, p.ca, p.cb, p.ba, p.sb, p.hab, p.hba, p.aKnown)
    && Pair(g, p.b, p.a, p.cb, p.ca, p.ab, p.sa, p.hba, p.hab, p.bKnown)
  }

  predicate Pre(g: Group, p: Couple)
    requires g.prime > 0
  {
    && p.a != p.b && p.a != SERVER && p.b != SERVER
    && Local(g, p.a, p.ca) && Local(g, p.b, p.cb)
    && Good(g, p)
  }

  // Whether this step of the receiver begins a's first handshake with peer.
  function Begun(g: Group, c: Client, peer: Name, draw: nat, h: Option<First>): Option<First>
    requires g.prime > 0
  {
    if h.Some? then h
    else if c.recv == Answering(peer) then Some(First(ReceiverStep(g, c, draw).m.exponent, Resp))
    else if c.recv == Greeting(peer) then Some(First(ReceiverStep(g, c, draw).m.exponent, Init))
    else None
  }

  // The number that an open or an unbegun first handshake is about to take is the peer's first one.
  lemma HeldIsPublic(g: Group, p: Couple)
    requires g.prime > 0 && Inbox(g, p.a, p.b, p.ca, p.cb, p.ba, p.hab, p.hba)
    requires Held(p.ca, p.b) != [] && (p.hab.None? || Open(p.ca, p.b))
    ensures p.hba.Some? && Held(p.ca, p.b) == [Dh(Public(g, p.hba.value.exp))]
    ensures p.hab.None? ==> p.hba.value.role == Init
  {
    var inbox := Held(p.ca, p.b) + p.ba;
    assert inbox[0] == Held(p.ca, p.b)[0];
    assert inbox[0] in inbox;
  }

  // What the receiver step needs to know of the number it is using.
  predicate Supply(g: Group, c: Client, b: Name, hab: Option<First>, hba: Option<First>)
    requires g.prime > 0
  {
    && ((c.recv == Replied(b) && Open(c, b)) || (c.recv == Answering(b) && hab.None?) ==>
          hba.Some? && c.m.opponent == Public(g, hba.value.exp))
    && (c.recv == Greeting(b) && hab.Some? ==> hab.value.role == Resp)
  }

  lemma ReceiverKeepsOwn(g: Group, a: Name, b: Name, c: Client, draw: nat, hab: Option<First>, hba: Option<First>)
    requires ValidGroup(g) && a != b && a != SERVER && Local(g, a, c)
    requires Own(g, b, c, hab, hba) && Supply(g, c, b, hab, hba)
    ensures Own(g, b, ReceiverStep(g, c, draw), Begun(g, c, b, draw, hab), hba)
  {
    if c.recv.Replied? || c.recv.Answering? || c.recv.Greeting? {
      ReceiverDraws(g, a, b, c, draw, hab, hba);
    }
  }

  // The steps that may draw a new exponent.
  lemma ReceiverDraws(g: Group, a: Name, b: Name, c: Client, draw: nat, hab: Option<First>, hba: Option<First>)
    requires ValidGroup(g) && a != b && a != SERVER && Local(g, a, c)
    requires Own(g, b, c, hab, hba) && Supply(g, c, b, hab, hba)
    requires c.recv.Replied? || c.recv.Answering? || c.recv.Greeting?
    ensures Own(g, b, ReceiverStep(g, c, draw), Begun(g, c, b, draw, hab), hba)
  {
    match c.recv
    case Replied(_) =>
    case Answering(_) =>
    case Greeting(_) =>
  }

  // A step that leaves the inbox as it is.
  lemma InboxSteady(g: Group, p: Couple, c': Client)
    requires g.prime > 0 && Inbox(g, p.a, p.b, p.ca, p.cb, p.ba, p.hab, p.hba)
    requires Held(c', p.b) == Held(p.ca, p.b)
    requires Open(c', p.b) ==> Open(p.ca, p.b) && (Attentive(p.ca, p.b) ==> Attentive(c', p.b))
    ensures Inbox(g, p.a, p.b, c', p.cb, p.ba, p.hab, p.hba)
  {
  }

  // A step that uses the held message up, or drops it outside an open handshake that needs it.
  lemma InboxTaken(g: Group, p: Couple, c': Client, hab': Option<First>)
    requires g.prime > 0 && Inbox(g, p.a, p.b, p.ca, p.cb, p.ba, p.hab, p.hba)
    requires Held(c', p.b) == []
    requires p.hba.Some? && p.hba.value.role == Resp ==> !Open(c', p.b) && hab' == p.hab
    ensures Inbox(g, p.a, p.b, c', p.cb, p.ba, hab', p.hba)
  {
    forall msg | msg in p.ba ensures msg in Held(p.ca, p.b) + p.ba { }
  }

  // The receiver either keeps the message it holds, and what makes it wait for it, or is done with it.
  lemma ReceiverHolds(g: Group, a: Name, b: Name, c: Client, draw: nat)
    requires ValidGroup(g) && a != b && a != SERVER && Local(g, a, c)
    ensures var c' := ReceiverStep(g, c, draw);
            if Held(c', b) == Held(c, b)
            then (c.recv != Answering(b) && c.recv != Greeting(b) && Open(c', b) ==>
                    Open(c, b) && (Attentive(c, b) ==> Attentive(c', b)))
            else Held(c', b) == [] && (Open(c, b) && Attentive(c, b) ==> !Open(c', b))
                 && (c.recv != Answering(b) && c.recv != Greeting(b) && Open(c', b) ==> Open(c, b))
  {
    match c.recv
    case Comparing(_, _) =>
    case Replied(_) =>
    case NotWaiting(_, _) =>
    case Answering(_) =>
    case Greeting(_) =>
    case Waking(_) =>
    case _ =>
  }

  lemma ReceiverKeepsInbox(g: Group, p: Couple, draw: nat)
    requires ValidGroup(g) && p.a != p.b && p.a != SERVER && Local(g, p.a, p.ca)
    requires Own(g, p.b, p.ca, p.hab, p.hba) && Inbox(g, p.a, p.b, p.ca, p.cb, p.ba, p.hab, p.hba)
    ensures Inbox(g, p.a, p.b, ReceiverStep(g, p.ca, draw), p.cb, p.ba, Begun(g, p.ca, p.b, draw, p.hab), p.hba)
  {
    var c' := ReceiverStep(g, p.ca, draw);
    ReceiverHolds(g, p.a, p.b, p.ca, draw);
    if p.ca.recv == Answering(p.b) || p.ca.recv == Greeting(p.b) {
      assert Held(c', p.b) == [];
      if p.hba.Some? && p.hba.value.role == Resp {
        BeginningIsNotOpen(g, p, draw);
      }
      InboxTaken(g, p, c', Begun(g, p.ca, p.b, draw, p.hab));
    } else if Held(c', p.b) == Held(p.ca, p.b) {
      InboxSteady(g, p, c');
    } else {
      InboxTaken(g, p, c', p.hab);
    }
  }

  lemma BeginningIsNotOpen(g: Group, p: Couple, draw: nat)
    requires ValidGroup(g) && Local(g, p.a, p.ca) && Own(g, p.b, p.ca, p.hab, p.hba)
    requires Inbox(g, p.a, p.b, p.ca, p.cb, p.ba, p.hab, p.hba)
    requires p.ca.recv == Answering(p.b) || p.ca.recv == Greeting(p.b)
    requires p.hba.Some? && p.hba.value.role == Resp
    ensures !Open(ReceiverStep(g, p.ca, draw), p.b) && Begun(g, p.ca, p.b, draw, p.hab) == p.hab
  {
  }

  lemma ReceiverKeepsPeerOwn(g: Group, p: Couple, draw: nat)
    requires ValidGroup(g) && Own(g, p.a, p.cb, p.hba, p.hab)
    ensures Own(g, p.a, p.cb, p.hba, Begun(g, p.ca, p.b, draw, p.hab))
  {
  }

  lemma ReceiverKeepsPeerInbox(g: Group, p: Couple, draw: nat)
    requires ValidGroup(g) && p.a != p.b && p.a != SERVER && Local(g, p.a, p.ca)
    requires Own(g, p.b, p.ca, p.hab, p.hba) && Own(g, p.a, p.cb, p.hba, p.hab)
    requires Inbox(g, p.a, p.b, p.ca, p.cb, p.ba, p.hab, p.hba)
    requires Inbox(g, p.b, p.a, p.cb, p.ca, p.ab, p.hba, p.hab)
    ensures Inbox(g, p.b, p.a, p.cb, ReceiverStep(g, p.ca, draw), p.ab, p.hba, Begun(g, p.ca, p.b, draw, p.hab))
  {
    var c' := ReceiverStep(g, p.ca, draw);
    if p.ca.recv == Answering(p.b) && p.hab.None? {
      HeldIsPublic(g, p);
      assert (Held(p.ca, p.b) + p.ba) != [];
    } else if p.ca.recv == Greeting(p.b) && p.hab.None? {
    } else {
      ReceiverStaysSilent(g, p.a, p.b, p.ca, draw, p.hab);
    }
  }

  // Outside the beginning of a first handshake the receiver changes nothing that the peer relies on.
  lemma ReceiverStaysSilent(g: Group, a: Name, b: Name, c: Client, draw: nat, hab: Option<First>)
    requires ValidGroup(g) && a != b && a != SERVER && Local(g, a, c)
    requires hab.Some? <==> b in c.keys || InFirst(c, b)
    requires (c.recv == Answering(b) || c.recv == Greeting(b)) ==> hab.Some?
    ensures var c' := ReceiverStep(g, c, draw);
            && (Silent(c', b) <==> Silent(c, b))
            && (InFirst(c', b) && c'.m.state == SendDh ==> InFirst(c, b) && c.m.state == SendDh)
  {
    match c.recv
    case Replied(_) =>
    case Answering(_) =>
    case Greeting(_) =>
    case _ =>
  }

  lemma ReceiverKeepsNotices(g: Group, a: Name, b: Name, c: Client, draw: nat, sa: seq<Message>,
                             hab: Option<First>, known: bool)
    requires ValidGroup(g) && Notices(a, b, c, sa, hab, known)
    ensures Notices(a, b, ReceiverStep(g, c, draw), sa, Begun(g, c, b, draw, hab), known)
  {
    match c.recv
    case GotEnter(_) =>
    case Greeting(_) =>
    case _ =>
  }

  lemma ReceiverKeepsPair(g: Group, p: Couple, draw: nat)
    requires ValidGroup(g) && Pre(g, p)
    ensures Good(g, p.(ca := ReceiverStep(g, p.ca, draw), hab := Begun(g, p.ca, p.b, draw, p.hab)))
  {
    if (p.ca.recv == Replied(p.b) && Open(p.ca, p.b)) || (p.ca.recv == Answering(p.b) && p.hab.None?) {
      HeldIsPublic(g, p);
    }
    ReceiverKeepsOwn(g, p.a, p.b, p.ca, draw, p.hab, p.hba);
    ReceiverKeepsInbox(g, p, draw);
    ReceiverKeepsPeerOwn(g, p, draw);
    ReceiverKeepsPeerInbox(g, p, draw);
    ReceiverKeepsNotices(g, p.a, p.b, p.ca, draw, p.sa, p.hab, p.bKnown);
  }

  // -------------------------------------------------------------------------
  // The receiver takes a message.

  // Taking a message changes nothing but the place of the receiver.
  lemma TakingKeepsRest(g: Group, p: Couple, from: Name, msg: Message)
    requires g.prime > 0 && Good(g, p) && p.ca.recv == Listening
    ensures var c' := p.ca.(recv := Taken(from, msg));
            && Own(g, p.b, c', p.hab, p.hba)
            && Inbox(g, p.b, p.a, p.cb, c', p.ab, p.hba, p.hab)
            && (Open(c', p.b) <==> Open(p.ca, p.b))
            && (Attentive(c', p.b) <==> Attentive(p.ca, p.b))
  {
  }

  lemma ReceivePeerKeepsPair(g: Group, p: Couple)
    requires ValidGroup(g) && Pre(g, p)
    requires p.ca.recv == Listening && p.ba != [] && p.ba[0].Dh?
    ensures Good(g, p.(ca := p.ca.(recv := Taken(p.b, p.ba[0])), ba := p.ba[1..]))
  {
    TakingKeepsRest(g, p, p.b, p.ba[0]);
    var c' := p.ca.(recv := Taken(p.b, p.ba[0]));
    assert Held(c', p.b) + p.ba[1..] == Held(p.ca, p.b) + p.ba;
  }

  lemma NoticeTaken(a: Name, b: Name, c: Client, sa: seq<Message>, hab: Option<First>, known: bool)
    requires Notices(a, b, c, sa, hab, known) && c.recv == Listening && sa != []
    ensures Notices(a, b, c.(recv := Taken(SERVER, sa[0])), sa[1..], hab, known)
  {
    assert forall i | 0 <= i < |sa| - 1 :: sa[1..][i] == sa[i + 1];
    assert Enter(b) in sa[1..] ==> Enter(b) in sa;
  }

  lemma ReceiveServerKeepsPair(g: Group, p: Couple)
    requires ValidGroup(g) && Pre(g, p)
    requires p.ca.recv == Listening && p.sa != []
    ensures Good(g, p.(ca := p.ca.(recv := Taken(SERVER, p.sa[0])), sa := p.sa[1..]))
  {
    var c' := p.ca.(recv := Taken(SERVER, p.sa[0]));
    TakingKeepsRest(g, p, SERVER, p.sa[0]);
    InboxSteady(g, p, c');
    NoticeTaken(p.a, p.b, p.ca, p.sa, p.hab, p.bKnown);
  }

  lemma ReceiveOtherKeepsPair(g: Group, p: Couple, from: Name, msg: Message)
    requires ValidGroup(g) && Pre(g, p)
    requires p.ca.recv == Listening && from != p.b && msg.Dh?
    ensures Good(g, p.(ca := p.ca.(recv := Taken(from, msg))))
  {
    TakingKeepsRest(g, p, from, msg);
    InboxSteady(g, p, p.ca.(recv := Taken(from, msg)));
  }

  // -------------------------------------------------------------------------
  // The handshaker.

  function SentTo(c: Client, peer: Name): seq<Message> {
    if (c.hs.Sending? || c.hs.Replying?) && c.hs.to == peer then [Dh(c.hs.num)] else []
  }

  lemma HandshakerKeepsOwn(g: Group, a: Name, b: Name, c: Client, hab: Option<First>, hba: Option<First>)
    requires ValidGroup(g) && a != b && a != SERVER && Local(g, a, c) && Own(g, b, c, hab, hba)
    ensures Own(g, b, HandshakerStep(g, c), hab, hba)
  {
    match c.hs
    case Blocked =>
    case Holding(_) =>
    case Building(_) =>
    case Announcing(_, _) =>
    case Polling(_, _) =>
    case Sending(_, _) =>
    case Concluding =>
    case Settling(_, _) =>
    case Replying(_, _) =>
    case Faulted =>
  }

  lemma HandshakerKeepsOpen(g: Group, c: Client, me: Name, b: Name)
    requires ValidGroup(g) && Local(g, me, c) && me != SERVER
    ensures var c' := HandshakerStep(g, c);
            && Held(c', b) == Held(c, b)
            && (Open(c', b) ==> Open(c, b) && (Attentive(c, b) ==> Attentive(c', b)))
  {
    match c.hs
    case Blocked =>
    case Announcing(_, _) =>
    case Concluding =>
    case Settling(_, _) =>
    case _ =>
  }

  // A handshaker that is no longer silent has just sent its first number to the peer, or concluded.
  lemma HandshakerSpeaks(g: Group, c: Client, me: Name, b: Name)
    requires ValidGroup(g) && Local(g, me, c) && me != SERVER
    ensures var c' := HandshakerStep(g, c);
            && (InFirst(c', b) ==> InFirst(c, b))
            && (InFirst(c', b) && c'.m.state == SendDh ==> c.m.state == SendDh && SentTo(c, b) == [])
            && (Silent(c', b) ==> Silent(c, b) && (SentTo(c, b) == [] || (InFirst(c, b) && Initiating(c))))
            && (Silent(c, b) && !Silent(c', b) ==> SentTo(c, b) != [] || (InFirst(c, b) && Initiating(c)))
  {
    match c.hs
    case Blocked =>
    case Building(_) =>
    case Announcing(_, _) =>
    case Concluding =>
    case Settling(_, _) =>
    case _ =>
  }

  // What the client sends is the public number of its first handshake, if that is the one it leads.
  lemma SentIsPublic(g: Group, a: Name, b: Name, c: Client, hab: Option<First>, hba: Option<First>)
    requires ValidGroup(g) && Local(g, a, c) && Own(g, b, c, hab, hba) && SentTo(c, b) != []
    ensures hab.Some?
    ensures hab.value.role == Init || Silent(c, b) ==> SentTo(c, b) == [Dh(Public(g, hab.value.exp))]
  {
  }

  // What the peer is going to receive after the step.
  lemma HandshakerKeepsPeerInbox(g: Group, p: Couple)
    requires ValidGroup(g) && p.a != SERVER && Local(g, p.a, p.ca) && Own(g, p.b, p.ca, p.hab, p.hba)
    requires Inbox(g, p.b, p.a, p.cb, p.ca, p.ab, p.hba, p.hab)
    ensures Inbox(g, p.b, p.a, p.cb, HandshakerStep(g, p.ca), p.ab + SentTo(p.ca, p.b), p.hba, p.hab)
  {
    HandshakerSpeaks(g, p.ca, p.a, p.b);
    var inbox := Held(p.cb, p.a) + p.ab;
    assert Held(p.cb, p.a) + (p.ab + SentTo(p.ca, p.b)) == inbox + SentTo(p.ca, p.b);
    if SentTo(p.ca, p.b) != [] {
      SentIsPublic(g, p.a, p.b, p.ca, p.hab, p.hba);
    }
  }

  lemma HandshakerKeepsNotices(g: Group, a: Name, b: Name, c: Client, sa: seq<Message>,
                               hab: Option<First>, known: bool)
    requires ValidGroup(g) && Notices(a, b, c, sa, hab, known)
    ensures Notices(a, b, HandshakerStep(g, c), sa, hab, known)
  {
  }

  lemma HandshakerKeepsPair(g: Group, p: Couple)
    requires ValidGroup(g) && Pre(g, p)
    ensures Good(g, p.(ca := HandshakerStep(g, p.ca), ab := p.ab + SentTo(p.ca, p.b)))
  {
    HandshakerKeepsOwn(g, p.a, p.b, p.ca, p.hab, p.hba);
    HandshakerKeepsOpen(g, p.ca, p.a, p.b);
    InboxSteady(g, p, HandshakerStep(g, p.ca));
    HandshakerKeepsPeerInbox(g, p);
    HandshakerKeepsNotices(g, p.a, p.b, p.ca, p.sa, p.hab, p.bKnown);
  }

  // -------------------------------------------------------------------------
  // The server.

  lemma ServerDhKeepsPair(g: Group, p: Couple, num: nat)
    requires ValidGroup(g) && Pre(g, p)
    ensures Good(g, p.(sa := p.sa + [Dh(num)]))
  {
  }

  lemma ServerEnterKeepsPair(g: Group, p: Couple, who: Name)
    requires ValidGroup(g) && Pre(g, p)
    requires who == p.b ==> !p.bKnown
    ensures Good(g, p.(sa := p.sa + [Enter(who)], bKnown := p.bKnown || who == p.b))
  {
  }
}
