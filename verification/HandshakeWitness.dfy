/** Runs that are reached: one in which both sides get their key, and one in which a late copy of a
    request ends the handshaker of the one who answered it. */
module HandshakeWitness {
  import opened ModArith
  import opened Handshake
  import opened HandshakeBinding
  import opened Options

  // ---------------------------------------------------------------------------
  // Lists of steps.

  ghost predicate Leads(g: Group, w: World, steps: seq<Step>, w': World)
    requires g.prime > 0
    decreases |steps|
  {
    if steps == [] then w' == w
    else Enabled(g, w, steps[0]) && Leads(g, Apply(g, w, steps[0]), steps[1..], w')
  }

  lemma {:induction false} LeadsTwice(g: Group, w: World, a: seq<Step>, v: World, b: seq<Step>, w': World)
    requires g.prime > 0 && Leads(g, w, a, v) && Leads(g, v, b, w')
    ensures Leads(g, w, a + b, w')
    decreases |a|
  {
    if a == [] {
      assert a + b == b;
    } else {
      LeadsTwice(g, Apply(g, w, a[0]), a[1..], v, b, w');
      assert (a + b)[0] == a[0] && (a + b)[1..] == a[1..] + b;
    }
  }

  lemma OneMoreStep(g: Group, w: World, s: Step)
    requires g.prime > 0 && Reachable(g, w) && Enabled(g, w, s)
    ensures Reachable(g, Apply(g, w, s))
  {
    var w0, steps :| Runs(g, w0, steps, w);
    var all := steps + [s];
    assert all[..|all| - 1] == steps && all[|all| - 1] == s;
    assert Runs(g, w0, all, Apply(g, w, s));
  }

  lemma {:induction false} LeadsReaches(g: Group, w: World, steps: seq<Step>, w': World)
    requires g.prime > 0 && Reachable(g, w) && Leads(g, w, steps, w')
    ensures Reachable(g, w')
    decreases |steps|
  {
    if steps != [] {
      OneMoreStep(g, w, steps[0]);
      LeadsReaches(g, Apply(g, w, steps[0]), steps[1..], w');
    }
  }

  function Times(k: nat, s: Step): seq<Step> {
    if k == 0 then [] else [s] + Times(k - 1, s)
  }

  function With(w: World, me: Name, c: Client): World {
    w.(clients := w.clients[me := c])
  }

  lemma WithTwice(w: World, me: Name, c: Client, d: Client)
    ensures With(With(w, me, c), me, d) == With(w, me, d)
    ensures me in w.clients && w.clients[me] == c ==> With(w, me, c) == w
  {
  }

  function ReceiverSteps(g: Group, c: Client, draw: nat, k: nat): Client
    requires g.prime > 0
    decreases k
  {
    if k == 0 then c else ReceiverSteps(g, ReceiverStep(g, c, draw), draw, k - 1)
  }

  lemma {:induction false} ReceiverLeads(g: Group, w: World, me: Name, draw: nat, k: nat)
    requires g.prime > draw && me in w.clients
    ensures Leads(g, w, Times(k, RunReceiver(me, draw)), With(w, me, ReceiverSteps(g, w.clients[me], draw, k)))
    decreases k
  {
    if k > 0 {
      var s, c := RunReceiver(me, draw), w.clients[me];
      ReceiverLeads(g, Apply(g, w, s), me, draw, k - 1);
      WithTwice(w, me, ReceiverStep(g, c, draw), ReceiverSteps(g, c, draw, k));
      assert Times(k, s)[0] == s && Times(k, s)[1..] == Times(k - 1, s);
    }
  }

  function HandshakerSteps(g: Group, c: Client, k: nat): Client
    requires g.prime > 0
    decreases k
  {
    if k == 0 then c else HandshakerSteps(g, HandshakerStep(g, c), k - 1)
  }

  // Nothing is sent in the first k steps.
  predicate Quiet(g: Group, c: Client, k: nat)
    requires g.prime > 0
    decreases k
  {
    k > 0 ==> !c.hs.Sending? && !c.hs.Replying? && Quiet(g, HandshakerStep(g, c), k - 1)
  }

  lemma {:induction false} HandshakerLeads(g: Group, w: World, me: Name, k: nat)
    requires g.prime > 0 && me in w.clients && Quiet(g, w.clients[me], k)
    ensures Leads(g, w, Times(k, RunHandshaker(me)), With(w, me, HandshakerSteps(g, w.clients[me], k)))
    decreases k
  {
    if k > 0 {
      var s, c := RunHandshaker(me), w.clients[me];
      HandshakerLeads(g, Apply(g, w, s), me, k - 1);
      WithTwice(w, me, HandshakerStep(g, c), HandshakerSteps(g, c, k));
      assert Times(k, s)[0] == s && Times(k, s)[1..] == Times(k - 1, s);
    }
  }

  // ---------------------------------------------------------------------------
  // One client: what a few steps in a row come to.

  lemma AfterOne(g: Group, c: Client, draw: nat, k: nat)
    requires g.prime > 0 && k > 0
    ensures ReceiverSteps(g, c, draw, k) == ReceiverSteps(g, ReceiverStep(g, c, draw), draw, k - 1)
    ensures HandshakerSteps(g, c, k) == HandshakerSteps(g, HandshakerStep(g, c), k - 1)
    ensures Quiet(g, c, k) <==> !c.hs.Sending? && !c.hs.Replying? && Quiet(g, HandshakerStep(g, c), k - 1)
    ensures ReceiverSteps(g, c, draw, 0) == c == HandshakerSteps(g, c, 0) && Quiet(g, c, 0)
  {
  }

  // The initiator takes its token, builds the request and enters waiting.
  lemma Asking(g: Group, c: Client)
    requires g.prime > 0 && c.m.state == SendDh && c.m.peer.Some? && c.queue == [SendFirst] && c.hs == Blocked
    ensures Quiet(g, c, 4)
    ensures HandshakerSteps(g, c, 4) ==
            c.(m := ToWaiting(c.m), queue := [], hs := Polling(c.m.peer.value, c.m.bignum))
  {
    var c1 := HandshakerStep(g, c);
    var c2 := HandshakerStep(g, c1);
    var c3 := HandshakerStep(g, c2);
    AfterOne(g, c, 0, 4);
    AfterOne(g, c1, 0, 3);
    AfterOne(g, c2, 0, 2);
    AfterOne(g, c3, 0, 1);
    AfterOne(g, HandshakerStep(g, c3), 0, 1);
  }

  // The reply is stored.
  lemma Answered(g: Group, c: Client, draw: nat)
    requires g.prime > 0 && c.m.state == WaitingForRcvDh && c.m.bignum > 0
    requires c.recv.GotDh? && c.m.peer == Some(c.recv.from)
    ensures ReceiverSteps(g, c, draw, 4) == c.(m := c.m.(state := RcvedDh, opponent := c.recv.num), recv := Listening)
  {
    var c1 := ReceiverStep(g, c, draw);
    var c2 := ReceiverStep(g, c1, draw);
    var c3 := ReceiverStep(g, c2, draw);
    AfterOne(g, c, draw, 4);
    AfterOne(g, c1, draw, 3);
    AfterOne(g, c2, draw, 2);
    AfterOne(g, c3, draw, 1);
    AfterOne(g, ReceiverStep(g, c3, draw), draw, 1);
  }

  // The initiator sees the reply and concludes.
  lemma Concludes(g: Group, c: Client)
    requires g.prime > 0 && c.m.state == RcvedDh && c.hs.Polling? && CanConclude(c.m, c.keys)
    ensures Quiet(g, c, 2)
    ensures HandshakerSteps(g, c, 2) == c.(m := ToIdle(c.m), keys := Concluded(g, c.m, c.keys), hs := Blocked)
  {
    var c1 := HandshakerStep(g, c);
    AfterOne(g, c, 0, 2);
    AfterOne(g, c1, 0, 1);
    AfterOne(g, HandshakerStep(g, c1), 0, 1);
  }

  predicate HasServerKey(c: Client) {
    SERVER in c.keys && c.keys[SERVER].Some?
  }

  // An enter notice makes an idle client greet the newcomer.
  lemma Greets(g: Group, c: Client, draw: nat)
    requires g.prime > 0 && c.m.state == Idle && c.m.bignum == 0 && c.queue == [] && c.recv.GotEnter? && HasServerKey(c)
    ensures ReceiverSteps(g, c, draw, 3) ==
            c.(m := Machine(SendDh, Some(c.recv.who), Public(g, draw), c.m.opponent, draw),
               queue := [SendFirst], recv := Listening)
  {
    var c1 := ReceiverStep(g, c, draw);
    var c2 := ReceiverStep(g, c1, draw);
    AfterOne(g, c, draw, 3);
    AfterOne(g, c1, draw, 2);
    AfterOne(g, c2, draw, 1);
    AfterOne(g, ReceiverStep(g, c2, draw), draw, 1);
  }

  // ---------------------------------------------------------------------------
  // Handling a request, as a list of steps.

  function HandlingSteps(me: Name, from: Name, draw: nat): seq<Step> {
    [Receive(me, from)] + (Times(5, RunReceiver(me, draw)) + Times(4, RunHandshaker(me)))
  }

  lemma AcceptingInSteps(g: Group, c: Client, from: Name, num: nat, draw: nat)
    requires g.prime > 0
    ensures ReceiverSteps(g, c.(recv := GotDh(from, num)), draw, 5) == Accepting(g, c, from, num, draw)
  {
    var c0 := c.(recv := GotDh(from, num));
    var c1 := ReceiverStep(g, c0, draw);
    var c2 := ReceiverStep(g, c1, draw);
    var c3 := ReceiverStep(g, c2, draw);
    var c4 := ReceiverStep(g, c3, draw);
    AfterOne(g, c0, draw, 5);
    AfterOne(g, c1, draw, 4);
    AfterOne(g, c2, draw, 3);
    AfterOne(g, c3, draw, 2);
    AfterOne(g, c4, draw, 1);
    AfterOne(g, ReceiverStep(g, c4, draw), draw, 1);
  }

  lemma HandlingInSteps(g: Group, c: Client, from: Name, num: nat, draw: nat)
    requires g.prime > 0 && c.m.state == Idle && c.m.bignum == 0 && c.queue == [] && c.hs == Blocked
    ensures var accepted := Accepting(g, c, from, num, draw);
            Quiet(g, accepted, 4) && HandshakerSteps(g, accepted, 4) == Handling(g, c, from, num, draw)
  {
    AcceptingARequest(g, c, from, num, draw);
    var c0 := Accepting(g, c, from, num, draw);
    var c1 := HandshakerStep(g, c0);
    var c2 := HandshakerStep(g, c1);
    var c3 := HandshakerStep(g, c2);
    AfterOne(g, c0, 0, 4);
    AfterOne(g, c1, 0, 3);
    AfterOne(g, c2, 0, 2);
    AfterOne(g, c3, 0, 1);
    AfterOne(g, HandshakerStep(g, c3), 0, 1);
  }

  // The world when the first message of a stream has been taken.
  function TakenFrom(w: World, me: Name, from: Name): World
    requires Stream(w, from, me) != []
  {
    w.(net := w.net[(from, me) := Stream(w, from, me)[1..]])
  }

  /** Handling is what these ten steps in a row make of an idle client, with nothing else changed but the
      stream that the request is taken from. */
  lemma HandlingIsARun(g: Group, w: World, me: Name, from: Name, num: nat, draw: nat)
    requires g.prime > draw && me in w.clients && Stream(w, from, me) != [] && Stream(w, from, me)[0] == Dh(num)
    requires var c := w.clients[me];
             c.m.state == Idle && c.m.bignum == 0 && c.queue == [] && c.hs == Blocked && c.recv == Listening
    ensures Leads(g, w, HandlingSteps(me, from, draw),
                  With(TakenFrom(w, me, from), me, Handling(g, w.clients[me], from, num, draw)))
  {
    var c, v := w.clients[me], TakenFrom(w, me, from);
    var accepted := Accepting(g, c, from, num, draw);
    var w1 := With(v, me, c.(recv := GotDh(from, num)));
    assert w1 == Apply(g, w, Receive(me, from));
    AcceptingInSteps(g, c, from, num, draw);
    ReceiverLeads(g, w1, me, draw, 5);
    var w2 := With(v, me, accepted);
    assert With(w1, me, accepted) == w2;
    HandlingInSteps(g, c, from, num, draw);
    HandshakerLeads(g, w2, me, 4);
    var w3 := With(v, me, Handling(g, c, from, num, draw));
    assert With(w2, me, Handling(g, c, from, num, draw)) == w3;
    LeadsTwice(g, w1, Times(5, RunReceiver(me, draw)), w2, Times(4, RunHandshaker(me)), w3);
    var rest := Times(5, RunReceiver(me, draw)) + Times(4, RunHandshaker(me));
    assert ([Receive(me, from)] + rest)[1..] == rest;
  }

  // ---------------------------------------------------------------------------
  // Parts of a run.

  lemma ReceiverReaches(g: Group, w: World, me: Name, draw: nat, k: nat)
    requires g.prime > draw && me in w.clients && Reachable(g, w)
    ensures Reachable(g, With(w, me, ReceiverSteps(g, w.clients[me], draw, k)))
  {
    ReceiverLeads(g, w, me, draw, k);
    LeadsReaches(g, w, Times(k, RunReceiver(me, draw)), With(w, me, ReceiverSteps(g, w.clients[me], draw, k)));
  }

  lemma HandshakerReaches(g: Group, w: World, me: Name, k: nat)
    requires g.prime > 0 && me in w.clients && Reachable(g, w) && Quiet(g, w.clients[me], k)
    ensures Reachable(g, With(w, me, HandshakerSteps(g, w.clients[me], k)))
  {
    HandshakerLeads(g, w, me, k);
    LeadsReaches(g, w, Times(k, RunHandshaker(me)), With(w, me, HandshakerSteps(g, w.clients[me], k)));
  }

  predicate Resting(c: Client) {
    c.m.state == Idle && c.m.bignum == 0 && c.queue == [] && c.hs == Blocked && c.recv == Listening
  }

  // An initiator with its key: `c` is the client while it polls.
  function Keyed(g: Group, c: Client, from: Name, num: nat): Client
    requires g.prime > 0
  {
    c.(m := ToIdle(c.m), keys := c.keys[from := Some(SessionKey(g, num, c.m.exponent))], hs := Blocked)
  }

  // The reply that an initiator polls for.
  lemma ReplyArrives(g: Group, w: World, me: Name, from: Name, num: nat)
    requires g.prime > 0 && Reachable(g, w) && me in w.clients
    requires Stream(w, from, me) != [] && Stream(w, from, me)[0] == Dh(num)
    requires var c := w.clients[me];
             && c.m.state == WaitingForRcvDh && c.m.peer == Some(from) && c.m.bignum > 0
             && c.hs.Polling? && c.recv == Listening && from !in c.keys
    ensures Reachable(g, With(TakenFrom(w, me, from), me, Keyed(g, w.clients[me], from, num)))
  {
    var c, v := w.clients[me], TakenFrom(w, me, from);
    var got := c.(recv := GotDh(from, num));
    OneMoreStep(g, w, Receive(me, from));
    assert Apply(g, w, Receive(me, from)) == With(v, me, got);
    Answered(g, got, 0);
    ReceiverReaches(g, With(v, me, got), me, 0, 4);
    var answered := c.(m := c.m.(state := RcvedDh, opponent := num));
    WithTwice(v, me, got, answered);
    Concludes(g, answered);
    HandshakerReaches(g, With(v, me, answered), me, 2);
    WithTwice(v, me, answered, Keyed(g, c, from, num));
    assert ToIdle(answered.m) == ToIdle(c.m);
  }

  lemma PutOnEmpty(w: World, from: Name, to: Name, msg: Message)
    requires Stream(w, from, to) == []
    ensures Put(w.net, from, to, msg) == w.net[(from, to) := [msg]]
  {
    assert [] + [msg] == [msg];
  }

  // A client after its handshake with the server.
  function Joined(g: Group, c: Client, num: nat): Client
    requires g.prime > 0
  {
    Keyed(g, c.(queue := []), SERVER, num)
  }

  // The server's number, into an empty stream.
  lemma ServerSends(g: Group, w: World, me: Name, num: nat)
    requires g.prime > 0 && Reachable(g, w) && me in w.clients && Stream(w, SERVER, me) == []
    ensures Reachable(g, w.(net := w.net[(SERVER, me) := [Dh(num)]]))
  {
    OneMoreStep(g, w, ServerDh(me, num));
    PutOnEmpty(w, SERVER, me, Dh(num));
    assert Apply(g, w, ServerDh(me, num)) == w.(net := w.net[(SERVER, me) := [Dh(num)]]);
  }

  lemma AsksServer(g: Group, w: World, me: Name)
    requires g.prime > 0 && Reachable(g, w) && me in w.clients && InitialClient(g, me, w.clients[me])
    ensures var c := w.clients[me];
            Reachable(g, With(w, me, c.(m := ToWaiting(c.m), queue := [], hs := Polling(SERVER, c.m.bignum))))
  {
    Asking(g, w.clients[me]);
    HandshakerReaches(g, w, me, 4);
  }

  lemma Joins(g: Group, w: World, me: Name, num: nat)
    requires ValidGroup(g) && Reachable(g, w) && me in w.clients && me != SERVER
    requires InitialClient(g, me, w.clients[me]) && Stream(w, SERVER, me) == []
    ensures Reachable(g, With(w.(net := w.net[(SERVER, me) := []]), me, Joined(g, w.clients[me], num)))
  {
    var c := w.clients[me];
    PowerOfTwoNotMultiple(c.m.exponent, g.prime);
    AsksServer(g, w, me);
    var asked := c.(m := ToWaiting(c.m), queue := [], hs := Polling(SERVER, c.m.bignum));
    var w1 := With(w, me, asked);
    ServerSends(g, w1, me, num);
    var w2 := w1.(net := w1.net[(SERVER, me) := [Dh(num)]]);
    ReplyArrives(g, w2, me, SERVER, num);
    JoinedWorld(g, w, me, num, asked);
  }

  lemma JoinedWorld(g: Group, w: World, me: Name, num: nat, asked: Client)
    requires g.prime > 0 && me in w.clients
    requires var c := w.clients[me]; asked == c.(m := ToWaiting(c.m), queue := [], hs := Polling(SERVER, c.m.bignum))
    ensures Keyed(g, asked, SERVER, num) == Joined(g, w.clients[me], num)
    ensures var w2 := With(w, me, asked).(net := w.net[(SERVER, me) := [Dh(num)]]);
            var joined := Joined(g, w.clients[me], num);
            && Stream(w2, SERVER, me) == [Dh(num)]
            && With(TakenFrom(w2, me, SERVER), me, joined) == With(w.(net := w.net[(SERVER, me) := []]), me, joined)
  {
  }

  // A client that has greeted b and polls for its reply.
  function Greeted(g: Group, c: Client, b: Name, draw: nat): Client
    requires g.prime > 0
  {
    c.(m := Machine(WaitingForRcvDh, Some(b), Public(g, draw), c.m.opponent, draw), hs := Polling(b, Public(g, draw)))
  }

  // The server announces b, and a takes the notice.
  lemma NoticeReaches(g: Group, w: World, a: Name, b: Name)
    requires g.prime > 0 && Reachable(g, w) && a in w.clients && a != b && b != SERVER
    requires (a, b) !in w.announced && Stream(w, SERVER, a) == [] && w.clients[a].recv == Listening
    ensures Reachable(g, With(World(w.clients, w.net[(SERVER, a) := []], w.announced + {(a, b)}),
                              a, w.clients[a].(recv := GotEnter(b))))
  {
    var c := w.clients[a];
    OneMoreStep(g, w, ServerEnter(a, b));
    var w1 := World(w.clients, w.net[(SERVER, a) := [Enter(b)]], w.announced + {(a, b)});
    PutOnEmpty(w, SERVER, a, Enter(b));
    assert Apply(g, w, ServerEnter(a, b)) == w1;
    OneMoreStep(g, w1, Receive(a, SERVER));
    var v := World(w.clients, w.net[(SERVER, a) := []], w.announced + {(a, b)});
    assert Apply(g, w1, Receive(a, SERVER)) == With(v, a, c.(recv := GotEnter(b)));
  }

  lemma NoticeHandled(g: Group, v: World, a: Name, c: Client, b: Name, draw: nat)
    requires g.prime > draw && Resting(c) && HasServerKey(c) && Reachable(g, With(v, a, c.(recv := GotEnter(b))))
    ensures Reachable(g, With(v, a, Greeted(g, c, b, draw)))
  {
    var got := c.(recv := GotEnter(b));
    Greets(g, got, draw);
    ReceiverReaches(g, With(v, a, got), a, draw, 3);
    var greeting := c.(m := Machine(SendDh, Some(b), Public(g, draw), c.m.opponent, draw), queue := [SendFirst]);
    WithTwice(v, a, got, greeting);
    Asking(g, greeting);
    HandshakerReaches(g, With(v, a, greeting), a, 4);
    WithTwice(v, a, greeting, Greeted(g, c, b, draw));
  }

  lemma GreetsAndAsks(g: Group, w: World, a: Name, b: Name, draw: nat)
    requires ValidGroup(g) && draw < g.prime && Reachable(g, w) && a in w.clients && a != b && b != SERVER
    requires (a, b) !in w.announced && Stream(w, SERVER, a) == []
    requires Resting(w.clients[a]) && HasServerKey(w.clients[a])
    ensures Reachable(g, With(World(w.clients, w.net[(SERVER, a) := []], w.announced + {(a, b)}),
                              a, Greeted(g, w.clients[a], b, draw)))
  {
    NoticeReaches(g, w, a, b);
    NoticeHandled(g, World(w.clients, w.net[(SERVER, a) := []], w.announced + {(a, b)}), a, w.clients[a], b, draw);
  }

  // One more copy of the request, and back to polling.
  lemma SendsRequest(g: Group, w: World, a: Name)
    requires g.prime > 0 && Reachable(g, w) && a in w.clients
    requires w.clients[a].hs.Polling? && w.clients[a].m.state == WaitingForRcvDh
    ensures Reachable(g, w.(net := Put(w.net, a, w.clients[a].hs.to, Dh(w.clients[a].hs.num))))
  {
    var c := w.clients[a];
    var sending := c.(hs := Sending(c.hs.to, c.hs.num));
    OneMoreStep(g, w, RunHandshaker(a));
    var w1 := With(w, a, sending);
    assert Apply(g, w, RunHandshaker(a)) == w1;
    OneMoreStep(g, w1, RunHandshaker(a));
    var w2 := w.(net := Put(w.net, a, c.hs.to, Dh(c.hs.num)));
    assert w1.clients[a := c] == w.clients;
    assert Apply(g, w1, RunHandshaker(a)) == w2;
  }

  // A responder that has handled its first request from a, and then sent the reply.
  function Responded(g: Group, c: Client, a: Name, num: nat, draw: nat): Client
    requires g.prime > 0
  {
    Handling(g, c, a, num, draw).(hs := Blocked)
  }

  lemma Responds(g: Group, w: World, b: Name, a: Name, num: nat, draw: nat)
    requires ValidGroup(g) && draw < g.prime && Reachable(g, w) && b in w.clients && Resting(w.clients[b])
    requires Stream(w, a, b) != [] && Stream(w, a, b)[0] == Dh(num) && a !in w.clients[b].keys
    ensures var v := TakenFrom(w, b, a);
            && Reachable(g, With(v.(net := Put(v.net, b, a, Dh(Public(g, draw)))), b,
                                 Responded(g, w.clients[b], a, num, draw)))
            && Resting(Responded(g, w.clients[b], a, num, draw))
            && Responded(g, w.clients[b], a, num, draw).keys ==
               w.clients[b].keys[a := Some(SessionKey(g, num, draw))]
  {
    var c, v := w.clients[b], TakenFrom(w, b, a);
    HandlingIsARun(g, w, b, a, num, draw);
    var handled := Handling(g, c, a, num, draw);
    var w1 := With(v, b, handled);
    LeadsReaches(g, w, HandlingSteps(b, a, draw), w1);
    ConcludingARequest(g, c, a, num, draw);
    HandledFields(g, c, a, num, draw);
    OneMoreStep(g, w1, RunHandshaker(b));
    var replied := Responded(g, c, a, num, draw);
    assert HandshakerStep(g, handled) == replied;
    assert w1.clients[b := replied] == v.clients[b := replied];
    assert Apply(g, w1, RunHandshaker(b)) == With(v.(net := Put(v.net, b, a, Dh(Public(g, draw)))), b, replied);
  }

  lemma HandledFields(g: Group, c: Client, from: Name, num: nat, draw: nat)
    requires g.prime > 0 && Resting(c) && from !in c.keys
    ensures var c' := Handling(g, c, from, num, draw);
            c'.m.bignum == 0 && c'.queue == [] && c'.recv == Listening
  {
    AcceptingARequest(g, c, from, num, draw);
  }

  // ---------------------------------------------------------------------------
  // Two clients.

  function Started(g: Group, me: Name, exponent: nat): Client
    requires g.prime > 0
  {
    Client(Machine(SendDh, Some(SERVER), Public(g, exponent), 0, exponent), map[me := None], [SendFirst],
           Listening, Blocked)
  }

  ghost predicate NothingSent(w: World) {
    forall from, to :: Stream(w, from, to) == []
  }

  lemma StartReached(g: Group, a: Name, b: Name) returns (w: World)
    requires ValidGroup(g) && a != SERVER && b != SERVER
    ensures Reachable(g, w) && w == World(map[a := Started(g, a, 0), b := Started(g, b, 0)], map[], {})
  {
    w := World(map[a := Started(g, a, 0), b := Started(g, b, 0)], map[], {});
    assert Initial(g, w) && Runs(g, w, [], w);
  }

  lemma JoinedRests(g: Group, me: Name, num: nat)
    requires g.prime > 0 && me != SERVER
    ensures var c := Joined(g, Started(g, me, 0), num);
            Resting(c) && HasServerKey(c) && c.keys.Keys == {me, SERVER}
  {
  }

  // Both have finished with the server, and nothing is under way.
  lemma BothJoined(g: Group, a: Name, b: Name) returns (w: World)
    requires ValidGroup(g) && a != SERVER && b != SERVER && a != b
    ensures Reachable(g, w) && w.clients.Keys == {a, b} && w.announced == {}
    ensures NothingSent(w)
    ensures Resting(w.clients[a]) && HasServerKey(w.clients[a]) && w.clients[a].keys.Keys == {a, SERVER}
    ensures Resting(w.clients[b]) && HasServerKey(w.clients[b]) && w.clients[b].keys.Keys == {b, SERVER}
  {
    var w0 := StartReached(g, a, b);
    JoinedRests(g, a, 1);
    JoinedRests(g, b, 1);
    Joins(g, w0, a, 1);
    var w1 := With(w0.(net := w0.net[(SERVER, a) := []]), a, Joined(g, w0.clients[a], 1));
    Joins(g, w1, b, 1);
    w := With(w1.(net := w1.net[(SERVER, b) := []]), b, Joined(g, w1.clients[b], 1));
  }

  // a greets b: nothing is sent yet, and the others are left alone.
  lemma Greeting(g: Group, v: World, a: Name, b: Name) returns (w: World)
    requires ValidGroup(g) && Reachable(g, v) && a in v.clients && a != b && b != SERVER && (a, b) !in v.announced
    requires Resting(v.clients[a]) && HasServerKey(v.clients[a]) && NothingSent(v)
    ensures Reachable(g, w) && NothingSent(w) && w.announced == v.announced + {(a, b)}
    ensures w.clients == v.clients[a := Greeted(g, v.clients[a], b, 0)]
  {
    assert Stream(v, SERVER, a) == [];
    GreetsAndAsks(g, v, a, b, 0);
    w := With(World(v.clients, v.net[(SERVER, a) := []], v.announced + {(a, b)}), a, Greeted(g, v.clients[a], b, 0));
    forall from, to ensures Stream(w, from, to) == [] {
      assert Stream(v, from, to) == [];
    }
  }

  // An initiator that polls for b's reply.
  predicate Waits(c: Client, b: Name, num: nat) {
    && c.m.state == WaitingForRcvDh && c.m.peer == Some(b) && c.m.bignum > 0
    && c.hs == Polling(b, num) && c.recv == Listening && b !in c.keys
  }

  lemma GreetedWaits(g: Group, c: Client, b: Name)
    requires ValidGroup(g) && Resting(c) && b !in c.keys
    ensures Waits(Greeted(g, c, b, 0), b, Public(g, 0))
  {
    PowerOfTwoNotMultiple(0, g.prime);
  }

  lemma TwoCopies(g: Group, v: World, a: Name, b: Name, num: nat) returns (w: World)
    requires g.prime > 0 && Reachable(g, v) && a in v.clients && Waits(v.clients[a], b, num)
    requires Stream(v, a, b) == []
    ensures Reachable(g, w) && w.clients == v.clients
    ensures Stream(w, a, b) == [Dh(num), Dh(num)] && (a != b ==> Stream(w, b, a) == Stream(v, b, a))
  {
    SendsRequest(g, v, a);
    var v1 := v.(net := Put(v.net, a, b, Dh(num)));
    SendsRequest(g, v1, a);
    w := v1.(net := Put(v1.net, a, b, Dh(num)));
    assert Stream(v1, a, b) == [] + [Dh(num)];
  }

  // a has greeted b and sent its request twice, and b has answered the first copy.
  lemma FirstCopyAnswered(g: Group, a: Name, b: Name) returns (w: World, num: nat, reply: nat)
    requires ValidGroup(g) && a != SERVER && b != SERVER && a != b
    ensures Reachable(g, w) && w.clients.Keys == {a, b}
    ensures Stream(w, a, b) == [Dh(num)] && Stream(w, b, a) == [Dh(reply)]
    ensures Resting(w.clients[b]) && a in w.clients[b].keys && Waits(w.clients[a], b, num)
  {
    var v := BothJoined(g, a, b);
    var v1 := Greeting(g, v, a, b);
    num, reply := Public(g, 0), Public(g, 0);
    GreetedWaits(g, v.clients[a], b);
    assert Stream(v1, a, b) == [] && Stream(v1, b, a) == [];
    var v2 := TwoCopies(g, v1, a, b, num);
    w := FirstAnswer(g, v2, a, b, num);
  }

  lemma FirstAnswer(g: Group, v: World, a: Name, b: Name, num: nat) returns (w: World)
    requires ValidGroup(g) && Reachable(g, v) && v.clients.Keys == {a, b} && a != b
    requires Resting(v.clients[b]) && a !in v.clients[b].keys
    requires Stream(v, a, b) == [Dh(num), Dh(num)] && Stream(v, b, a) == []
    ensures Reachable(g, w) && w.clients.Keys == {a, b} && w.clients[a] == v.clients[a]
    ensures Resting(w.clients[b]) && a in w.clients[b].keys
    ensures Stream(w, a, b) == [Dh(num)] && Stream(w, b, a) == [Dh(Public(g, 0))]
  {
    Responds(g, v, b, a, num, 0);
    var taken, reply := TakenFrom(v, b, a), Dh(Public(g, 0));
    PutOnEmpty(taken, b, a, reply);
    w := With(taken.(net := Put(taken.net, b, a, reply)), b, Responded(g, v.clients[b], a, num, 0));
    assert [Dh(num), Dh(num)][1..] == [Dh(num)];
  }

  /** A run of two clients is reached in which both hold a key for the other. */
  lemma BothKeysReached(g: Group, a: Name, b: Name) returns (w: World)
    requires ValidGroup(g) && a != SERVER && b != SERVER && a != b
    ensures Reachable(g, w) && a in w.clients && b in w.clients
    ensures b in w.clients[a].keys && a in w.clients[b].keys
  {
    var v, num, reply := FirstCopyAnswered(g, a, b);
    ReplyArrives(g, v, a, b, reply);
    w := With(TakenFrom(v, a, b), a, Keyed(g, v.clients[a], b, reply));
  }

  /** The second copy of an answered request ends the handshaker of the one who answered. */
  lemma LateCopyEndsHandshaker(g: Group, a: Name, b: Name) returns (w: World)
    requires ValidGroup(g) && a != SERVER && b != SERVER && a != b
    ensures Reachable(g, w) && b in w.clients && w.clients[b].hs == Faulted
  {
    var v, num, reply := FirstCopyAnswered(g, a, b);
    var c := v.clients[b];
    HandlingIsARun(g, v, b, a, num, 0);
    ConcludingARequest(g, c, a, num, 0);
    w := With(TakenFrom(v, b, a), b, Handling(g, c, a, num, 0));
    LeadsReaches(g, v, HandlingSteps(b, a, 0), w);
  }

  /** When two requests cross, one side may hold a key while the other holds none. */
  lemma OneSidedKeyReached(g: Group, a: Name, b: Name) returns (w: World)
    requires ValidGroup(g) && a != SERVER && b != SERVER && a != b
    ensures Reachable(g, w) && a in w.clients && b in w.clients
    ensures b in w.clients[a].keys && a !in w.clients[b].keys
    ensures Stream(w, a, b) == [] && w.clients[a].hs == Blocked
    ensures var c := w.clients[b]; c.m.state == WaitingForRcvDh && c.m.peer == Some(a) && c.recv == Listening
  {
    var v := BothJoined(g, a, b);
    var v1 := Greeting(g, v, a, b);
    var v2 := Greeting(g, v1, b, a);
    var num := Public(g, 0);
    GreetedWaits(g, v.clients[a], b);
    GreetedWaits(g, v1.clients[b], a);
    assert Stream(v2, b, a) == [] && Stream(v2, a, b) == [];
    SendsRequest(g, v2, b);
    var v3 := v2.(net := Put(v2.net, b, a, Dh(num)));
    assert Stream(v3, b, a) == [] + [Dh(num)];
    ReplyArrives(g, v3, a, b, num);
    w := With(TakenFrom(v3, a, b), a, Keyed(g, v3.clients[a], b, num));
  }
}
