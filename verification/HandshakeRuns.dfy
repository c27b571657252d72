/** Over every run of any number of clients: key agreement, key binding, and the discipline
    of the token channel. */
module HandshakeRuns {
  import opened ModArith
  import opened BigIntBytes
  import opened Handshake
  import opened HandshakeLocal
  import opened HandshakePairs
  import opened HandshakeSteps
  import opened Options

  ghost function CoupleOf(w: World, h: History, a: Name, b: Name): Couple
    requires a in w.clients && b in w.clients
  {
    Couple(a, b, w.clients[a], w.clients[b], Stream(w, a, b), Stream(w, b, a),
           Stream(w, SERVER, a), Stream(w, SERVER, b), Find(h, a, b), Find(h, b, a),
           (b, a) in w.announced, (a, b) in w.announced)
  }

  // The bookkeeping after a step.
  function Recorded(g: Group, w: World, h: History, s: Step): History
    requires g.prime > 0 && Enabled(g, w, s)
  {
    if s.RunReceiver? then
      var c := w.clients[s.me];
      if (c.recv.Answering? && c.recv.from in w.clients && (s.me, c.recv.from) !in h)
      then h[(s.me, c.recv.from) := First(ReceiverStep(g, c, s.draw).m.exponent, Resp)]
      else if (c.recv.Greeting? && c.recv.who in w.clients && (s.me, c.recv.who) !in h)
      then h[(s.me, c.recv.who) := First(ReceiverStep(g, c, s.draw).m.exponent, Init)]
      else h
    else h
  }

  lemma CoupleIsGood(g: Group, w: World, h: History, a: Name, b: Name)
    requires ValidGroup(g) && Inv(g, w, h) && a in w.clients && b in w.clients && a != b
    ensures Pre(g, CoupleOf(w, h, a, b))
  {
    assert PairIn(g, w, h, a, b) && PairIn(g, w, h, b, a);
  }

  // The one client a step concerns.
  function Subject(s: Step): Name {
    match s
    case ServerDh(to, _) => to
    case ServerEnter(to, _) => to
    case Receive(me, _) => me
    case RunReceiver(me, _) => me
    case RunHandshaker(me) => me
  }

  // What the subject of a step and another client look like after it.
  ghost function After(g: Group, w: World, s: Step, p: Couple): Couple
    requires g.prime > 0 && Enabled(g, w, s)
    requires p.a == Subject(s)
    requires s.Receive? && s.from == p.b ==> p.ba != []
    requires s.Receive? && s.from == SERVER ==> p.sa != []
  {
    match s
    case ServerDh(_, num) => p.(sa := p.sa + [Dh(num)])
    case ServerEnter(_, who) => p.(sa := p.sa + [Enter(who)], bKnown := p.bKnown || who == p.b)
    case Receive(_, from) =>
      if from == p.b then p.(ca := p.ca.(recv := Taken(from, p.ba[0])), ba := p.ba[1..])
      else if from == SERVER then p.(ca := p.ca.(recv := Taken(SERVER, p.sa[0])), sa := p.sa[1..])
      else p.(ca := p.ca.(recv := Taken(from, Stream(w, from, p.a)[0])))
    case RunReceiver(_, draw) =>
      p.(ca := ReceiverStep(g, p.ca, draw), hab := Begun(g, p.ca, p.b, draw, p.hab))
    case RunHandshaker(_) => p.(ca := HandshakerStep(g, p.ca), ab := p.ab + SentTo(p.ca, p.b))
  }

  lemma PutStream(w: World, x: Name, y: Name, msg: Message, from: Name, to: Name)
    ensures Stream(w.(net := Put(w.net, x, y, msg)), from, to)
            == Stream(w, from, to) + (if from == x && to == y then [msg] else [])
  {
  }

  lemma PutAround(w: World, x: Name, y: Name, msg: Message, a: Name, b: Name)
    ensures var w' := w.(net := Put(w.net, x, y, msg));
            && Stream(w', a, b) == Stream(w, a, b) + (if a == x && b == y then [msg] else [])
            && Stream(w', b, a) == Stream(w, b, a) + (if b == x && a == y then [msg] else [])
            && Stream(w', SERVER, a) == Stream(w, SERVER, a) + (if SERVER == x && a == y then [msg] else [])
            && Stream(w', SERVER, b) == Stream(w, SERVER, b) + (if SERVER == x && b == y then [msg] else [])
  {
    PutStream(w, x, y, msg, a, b);
    PutStream(w, x, y, msg, b, a);
    PutStream(w, x, y, msg, SERVER, a);
    PutStream(w, x, y, msg, SERVER, b);
  }

  lemma AfterIsCouple(g: Group, w: World, h: History, s: Step, b: Name)
    requires ValidGroup(g) && Enabled(g, w, s) && SERVER !in w.clients
    requires b in w.clients && b != Subject(s)
    ensures var a := Subject(s);
            CoupleOf(Apply(g, w, s), Recorded(g, w, h, s), a, b) == After(g, w, s, CoupleOf(w, h, a, b))
  {
    match s
    case ServerDh(to, num) => PutAround(w, SERVER, to, Dh(num), to, b);
    case ServerEnter(to, who) => PutAround(w, SERVER, to, Enter(who), to, b);
    case Receive(_, _) => AfterReceive(g, w, h, s, b);
    case RunReceiver(_, _) => RecordedAround(g, w, h, s, b);
    case RunHandshaker(_) => AfterHandshaker(g, w, h, s, b);
  }

  lemma AfterReceive(g: Group, w: World, h: History, s: Step, b: Name)
    requires ValidGroup(g) && Enabled(g, w, s) && s.Receive? && SERVER !in w.clients
    requires b in w.clients && b != s.me
    ensures CoupleOf(Apply(g, w, s), h, s.me, b) == After(g, w, s, CoupleOf(w, h, s.me, b))
  {
    var w' := Apply(g, w, s);
    var a := s.me;
    assert Stream(w', b, a) == if s.from == b then Stream(w, b, a)[1..] else Stream(w, b, a);
    assert Stream(w', SERVER, a) == if s.from == SERVER then Stream(w, SERVER, a)[1..] else Stream(w, SERVER, a);
    assert Stream(w', a, b) == Stream(w, a, b) && Stream(w', SERVER, b) == Stream(w, SERVER, b);
  }

  lemma AfterHandshaker(g: Group, w: World, h: History, s: Step, b: Name)
    requires ValidGroup(g) && Enabled(g, w, s) && s.RunHandshaker? && SERVER !in w.clients
    requires b in w.clients && b != s.me
    ensures CoupleOf(Apply(g, w, s), h, s.me, b) == After(g, w, s, CoupleOf(w, h, s.me, b))
  {
    var a, c := s.me, w.clients[s.me];
    var w1 := w.(clients := w.clients[a := HandshakerStep(g, c)]);
    if c.hs.Sending? || c.hs.Replying? {
      PutAround(w1, a, c.hs.to, Dh(c.hs.num), a, b);
    }
    assert Stream(Apply(g, w, s), a, b) == Stream(w, a, b) + SentTo(c, b);
  }

  lemma RecordedAround(g: Group, w: World, h: History, s: Step, b: Name)
    requires g.prime > 0 && Enabled(g, w, s) && s.RunReceiver?
    requires b in w.clients && b != s.me
    ensures var h' := Recorded(g, w, h, s);
            && Find(h', s.me, b) == Begun(g, w.clients[s.me], b, s.draw, Find(h, s.me, b))
            && Find(h', b, s.me) == Find(h, b, s.me)
  {
  }

  lemma AfterIsGood(g: Group, w: World, s: Step, p: Couple)
    requires ValidGroup(g) && Pre(g, p) && Enabled(g, w, s)
    requires p.a == Subject(s) && p.a in w.clients && p.ca == w.clients[p.a]
    requires ProperStreams(w) && p.ba == Stream(w, p.b, p.a) && p.sa == Stream(w, SERVER, p.a)
    requires s.ServerEnter? && s.who == p.b ==> !p.bKnown
    ensures Good(g, After(g, w, s, p))
  {
    match s {
      case ServerDh(_, num) => ServerDhKeepsPair(g, p, num);
      case ServerEnter(_, who) => ServerEnterKeepsPair(g, p, who);
      case Receive(_, from) =>
        var msg := Stream(w, from, p.a)[0];
        assert msg in Stream(w, from, p.a);
        if from == p.b {
          ReceivePeerKeepsPair(g, p);
        } else if from == SERVER {
          ReceiveServerKeepsPair(g, p);
        } else {
          ReceiveOtherKeepsPair(g, p, from, msg);
        }
      case RunReceiver(_, draw) => ReceiverKeepsPair(g, p, draw);
      case RunHandshaker(_) => HandshakerKeepsPair(g, p);
    }
  }

  lemma SubjectPairs(g: Group, w: World, h: History, s: Step, b: Name)
    requires ValidGroup(g) && Inv(g, w, h) && Enabled(g, w, s)
    requires b in w.clients && b != Subject(s)
    ensures Good(g, CoupleOf(Apply(g, w, s), Recorded(g, w, h, s), Subject(s), b))
  {
    var p := CoupleOf(w, h, Subject(s), b);
    CoupleIsGood(g, w, h, Subject(s), b);
    AfterIsGood(g, w, s, p);
    AfterIsCouple(g, w, h, s, b);
  }

  lemma GoodIsPairIn(g: Group, w: World, h: History, a: Name, b: Name)
    requires g.prime > 0 && a in w.clients && b in w.clients
    requires Good(g, CoupleOf(w, h, a, b))
    ensures PairIn(g, w, h, a, b) && PairIn(g, w, h, b, a)
  {
  }

  lemma OthersUntouched(g: Group, w: World, h: History, s: Step, a: Name, b: Name)
    requires g.prime > 0 && Enabled(g, w, s) && SERVER !in w.clients
    requires a in w.clients && b in w.clients && a != Subject(s) && b != Subject(s)
    ensures CoupleOf(Apply(g, w, s), Recorded(g, w, h, s), a, b) == CoupleOf(w, h, a, b)
  {
    match s
    case ServerDh(_, _) =>
    case ServerEnter(_, _) =>
    case Receive(_, _) =>
    case RunReceiver(_, _) =>
    case RunHandshaker(_) =>
  }

  lemma StreamsKept(g: Group, w: World, h: History, s: Step)
    requires ValidGroup(g) && Inv(g, w, h) && Enabled(g, w, s)
    ensures ProperStreams(Apply(g, w, s))
  {
    var w' := Apply(g, w, s);
    assert Local(g, Subject(s), w.clients[Subject(s)]);
    forall a, b | a in w'.clients && b != SERVER ensures forall msg | msg in Stream(w', b, a) :: msg.Dh? {
      StreamKept(g, w, s, b, a);
      assert forall msg | msg in Stream(w, b, a) :: msg.Dh?;
    }
    forall a | a in w'.clients ensures Stream(w', a, a) == [] {
      StreamKept(g, w, s, a, a);
      assert Stream(w, a, a) == [];
    }
    forall a | a in w'.clients
      ensures forall msg | msg in Stream(w', SERVER, a) :: msg.Enter? ==> msg.who != a && msg.who != SERVER
    {
      StreamKept(g, w, s, SERVER, a);
      assert forall msg | msg in Stream(w, SERVER, a) :: msg.Enter? ==> msg.who != a && msg.who != SERVER;
    }
  }

  // What a step can put into a stream.
  predicate Proper(from: Name, to: Name, msg: Message) {
    from != to && if from == SERVER then msg.Enter? ==> msg.who != to && msg.who != SERVER else msg.Dh?
  }

  lemma StreamKept(g: Group, w: World, s: Step, from: Name, to: Name)
    requires g.prime > 0 && Enabled(g, w, s) && SERVER !in w.clients
    requires Local(g, Subject(s), w.clients[Subject(s)])
    ensures from == to && Stream(w, from, to) == [] ==> Stream(Apply(g, w, s), from, to) == []
    ensures to in w.clients ==> forall msg | msg in Stream(Apply(g, w, s), from, to) ::
              msg in Stream(w, from, to) || Proper(from, to, msg)
  {
    match s
    case ServerDh(_, _) =>
    case ServerEnter(_, _) =>
    case Receive(_, _) =>
    case RunReceiver(_, _) =>
    case RunHandshaker(_) =>
  }

  lemma LocalKept(g: Group, w: World, h: History, s: Step, a: Name)
    requires ValidGroup(g) && Inv(g, w, h) && Enabled(g, w, s) && a in w.clients
    ensures Local(g, a, Apply(g, w, s).clients[a])
  {
    assert Local(g, a, w.clients[a]);
    if a == Subject(s) {
      var c := w.clients[a];
      match s
      case Receive(_, from) =>
        var msg := Stream(w, from, a)[0];
        assert msg in Stream(w, from, a);
        LocalReceive(g, a, c, from, msg);
      case RunReceiver(_, draw) => LocalReceiver(g, a, c, draw);
      case RunHandshaker(_) => LocalHandshaker(g, a, c);
      case _ =>
    }
  }

  lemma StepKeepsInv(g: Group, w: World, h: History, s: Step)
    requires ValidGroup(g) && Inv(g, w, h) && Enabled(g, w, s)
    ensures Inv(g, Apply(g, w, s), Recorded(g, w, h, s))
  {
    var w', h' := Apply(g, w, s), Recorded(g, w, h, s);
    assert w'.clients.Keys == w.clients.Keys;
    StreamsKept(g, w, h, s);
    forall a | a in w'.clients ensures Local(g, a, w'.clients[a]) {
      LocalKept(g, w, h, s, a);
    }
    forall a, b | a in w'.clients && b in w'.clients && a != b ensures PairIn(g, w', h', a, b) {
      if a == Subject(s) {
        SubjectPairs(g, w, h, s, b);
        GoodIsPairIn(g, w', h', a, b);
      } else if b == Subject(s) {
        SubjectPairs(g, w, h, s, a);
        GoodIsPairIn(g, w', h', b, a);
      } else {
        CoupleIsGood(g, w, h, a, b);
        OthersUntouched(g, w, h, s, a, b);
        GoodIsPairIn(g, w', h', a, b);
      }
    }
  }

  lemma InitialInv(g: Group, w: World)
    requires ValidGroup(g) && Initial(g, w)
    ensures Inv(g, w, map[])
  {
    forall a | a in w.clients ensures Local(g, a, w.clients[a]) {
      assert InitialClient(g, a, w.clients[a]);
      LocalInitial(g, a, w.clients[a]);
    }
    forall a, b | a in w.clients && b in w.clients && a != b ensures PairIn(g, w, map[], a, b) {
      assert InitialClient(g, a, w.clients[a]) && InitialClient(g, b, w.clients[b]);
    }
  }

  lemma {:induction false} RunKeepsInv(g: Group, w0: World, steps: seq<Step>, w: World) returns (h: History)
    requires ValidGroup(g) && Runs(g, w0, steps, w)
    ensures Inv(g, w, h)
    decreases |steps|
  {
    if steps == [] {
      InitialInv(g, w);
      h := map[];
    } else {
      var last := steps[|steps| - 1];
      var v :| Runs(g, w0, steps[..|steps| - 1], v) && Enabled(g, v, last) && w == Apply(g, v, last);
      var hv := RunKeepsInv(g, w0, steps[..|steps| - 1], v);
      StepKeepsInv(g, v, hv, last);
      h := Recorded(g, v, hv, last);
    }
  }

  lemma ReachableInv(g: Group, w: World) returns (h: History)
    requires ValidGroup(g) && Reachable(g, w)
    ensures Inv(g, w, h)
  {
    var w0, steps :| Runs(g, w0, steps, w);
    h := RunKeepsInv(g, w0, steps, w);
  }

  lemma KeyOfPublic(g: Group, theirs: nat, mine: nat)
    requires g.prime > 0
    ensures SessionKey(g, Public(g, theirs), mine) == g.kdf(ToByteArray(Pow(2, theirs * mine) % g.prime))
  {
    PowOfMod(Pow(2, theirs), mine, g.prime);
    PowMul(2, theirs, mine);
  }

  /** Key agreement: in every world that any run of any number of clients reaches, whatever
      was sent again, dropped while busy or crossed on the way, two clients that both hold a
      session key for the other hold the same one, HKDF of 2^(x * y) modulo the prime. */
  lemma KeyAgreement(g: Group, w: World, a: Name, b: Name) returns (x: nat, y: nat)
    requires ValidGroup(g) && Reachable(g, w)
    requires a in w.clients && b in w.clients && a != b
    requires b in w.clients[a].keys && a in w.clients[b].keys
    ensures w.clients[a].keys[b] == w.clients[b].keys[a]
    ensures w.clients[a].keys[b] == Some(g.kdf(ToByteArray(Pow(2, x * y) % g.prime)))
  {
    var h := ReachableInv(g, w);
    assert PairIn(g, w, h, a, b) && PairIn(g, w, h, b, a);
    x, y := h[(a, b)].exp, h[(b, a)].exp;
    KeyOfPublic(g, y, x);
    KeyOfPublic(g, x, y);
    assert x * y == y * x;
  }

  /** The channel holds at most one token, so its writer never waits; it is empty in idle; the
      handshaker's test for send_dh never fails; in send_dh exactly one token is queued, about to be
      written or held, unless the handshaker has ended; and what the receiver has read without a lock,
      that the state is waiting or idle, still holds when it acts on it. */
  lemma QueueDiscipline(g: Group, w: World, a: Name)
    requires ValidGroup(g) && Reachable(g, w) && a in w.clients
    ensures var c := w.clients[a];
            && |c.queue| <= 1
            && (c.recv.Waking? ==> c.queue == [])
            && (c.m.state != SendDh ==> c.queue == [] && !c.recv.Waking?)
            && (c.hs.Holding? ==> c.m.state == SendDh)
            && (c.m.state == SendDh && !c.hs.Faulted? <==> TokenCount(c) == 1)
            && (c.recv.Comparing? || c.recv.StoringReply? || c.recv.Replied? ==> c.m.state == WaitingForRcvDh)
            && (c.recv.StoringRequest? || c.recv.Answering? || c.recv.Greeting? ==> c.m.state == Idle)
  {
    var h := ReachableInv(g, w);
    var c := w.clients[a];
    assert Local(g, a, c);
  }
}
