/** One client as an object: the receiver task and the handshaker task, each advanced from one await
    or shared access to the next, over the objects that they share. */
module HandshakeTasks {
  import opened Handshake
  import opened DhEndpoints
  import opened Options

  class ClientTasks {
    const machine: HandshakeStateMachine
    const ratchet: Ratchet
    var queue: seq<Token>      // the channel of capacity 1
    var recv: Receiver
    var hs: Handshaker

    ghost predicate Valid()
      reads this
    {
      machine.ratchet == ratchet && machine.share.prime > 0
    }

    ghost function View(): Client
      reads this, machine, machine.share, ratchet
    {
      Client(machine.View(), ratchet.Sessions(), queue, recv, hs)
    }

    // ServerConnector.Init, the constructor of Sender, and Sender.Init.
    constructor (machine: HandshakeStateMachine, nickname: Name, draw: nat)
      requires machine.share.prime > 0 && machine.myBignum == 0 && machine.opponentBignum == 0
      requires machine.currentHandshaker == Some(SERVER) && machine.ratchet.table == map[]
      modifies machine, machine.share, machine.ratchet
      ensures Valid() && this.machine == machine
      ensures InitialClient(machine.TheGroup(), nickname, View())
    {
      this.machine, ratchet := machine, machine.ratchet;
      queue, recv, hs := [], Listening, Blocked;
      new;
      machine.SetMyStateToSendDH(draw);
      var _ := ratchet.AddData(Some(nickname), KEYS(None, None, 0));
      queue := queue + [SendFirst];
    }

    // The receiver takes a message.
    method Receive(from: Name, msg: Message)
      requires Valid() && recv == Listening
      modifies `recv
      ensures View() == old(View()).(recv := Taken(from, msg))
    {
      recv := match msg case Dh(num) => GotDh(from, num) case Enter(who) => GotEnter(who);
    }

    // The case of a dh message in LoopRecieveAsync.
    method ReceiverOnDh(draw: nat)
      requires Valid()
      requires recv.GotDh? || recv.Comparing? || recv.StoringReply? || recv.Replied? || recv.NotWaiting?
               || recv.StoringRequest? || recv.Answering?
      modifies `recv, machine, machine.share
      ensures View() == ReceiverStep(machine.TheGroup(), old(View()), draw)
    {
      match recv
      case GotDh(from, num) =>
        recv := if machine.myState == WaitingForRcvDh then Comparing(from, num) else NotWaiting(from, num);
      case Comparing(from, num) =>
        recv := if machine.currentHandshaker == Some(from) then StoringReply(from, num) else Listening;
      case StoringReply(from, num) =>
        machine.opponentBignum := num;
        recv := Replied(from);
      case Replied(from) =>
        machine.SetMyStateToRcvedDH(draw);
        recv := Listening;
      case NotWaiting(from, num) =>
        recv := if machine.myState == Idle then StoringRequest(from, num) else Listening;
      case StoringRequest(from, num) =>
        machine.opponentBignum := num;
        recv := Answering(from);
      case Answering(from) =>
        machine.currentHandshaker := Some(from);
        machine.SetMyStateToSendDH(draw);
        recv := Waking(RcvFirst);
    }

    // The case of an enter notice.
    method ReceiverOnEnter(draw: nat)
      requires Valid() && (recv.GotEnter? || recv.Greeting?)
      modifies `recv, machine, machine.share
      ensures View() == ReceiverStep(machine.TheGroup(), old(View()), draw)
    {
      if recv.GotEnter? {
        if machine.myState != Idle {
          recv := Listening;
        } else {
          var data := ratchet.AccessData(SERVER);
          recv := if data.Some? && data.value.session.Some? then Greeting(recv.who) else Stopped;
        }
      } else {
        machine.currentHandshaker := Some(recv.who);
        machine.SetMyStateToSendDH(draw);
        recv := Waking(SendFirst);
      }
    }

    method RunReceiver(draw: nat)
      requires Valid()
      modifies `recv, `queue, machine, machine.share
      ensures View() == ReceiverStep(machine.TheGroup(), old(View()), draw)
    {
      if recv.Waking? {
        if |queue| < 1 {
          queue := queue + [recv.token];
          recv := Listening;
        }
      } else if recv.GotEnter? || recv.Greeting? {
        ReceiverOnEnter(draw);
      } else if !recv.Listening? && !recv.Stopped? {
        ReceiverOnDh(draw);
      }
    }

    // Both tasks conclude a handshake by entering idle; its exception ends the task.
    method Conclude(next: Handshaker)
      requires Valid()
      modifies `hs, machine, ratchet
      ensures var g, c := machine.TheGroup(), old(View());
              View() == if CanConclude(c.m, c.keys)
                        then c.(m := ToIdle(c.m), keys := Concluded(g, c.m, c.keys), hs := next)
                        else c.(hs := Faulted)
    {
      var ok := machine.SetMyStateToIdle();
      hs := if ok then next else Faulted;
    }

    /** LoopHandshakeAsync up to its next await or shared access; what it sends, if it sends. */
    method RunHandshaker() returns (sent: Option<(Name, nat)>)
      requires Valid()
      modifies `hs, `queue, machine, ratchet
      ensures View() == HandshakerStep(machine.TheGroup(), old(View()))
      ensures sent == if old(hs.Sending? || hs.Replying?) then Some((old(hs).to, old(hs).num)) else None
    {
      sent := None;
      match hs
      case Blocked =>
        if queue != [] {
          hs := Holding(queue[0]);
          queue := queue[1..];
        }
      case Holding(token) =>
        hs := if machine.myState == SendDh then Building(token) else Blocked;
      case Building(token) =>
        var peer, num := machine.currentHandshaker, machine.myBignum;
        hs := if peer.None? then Faulted
              else if token == SendFirst then Announcing(peer.value, num) else Settling(peer.value, num);
      case Announcing(to, num) =>
        machine.SetMyStateToWaitingForRcvDH();
        hs := Polling(to, num);
      case Polling(to, num) =>
        hs := if machine.myState == RcvedDh then Concluding else Sending(to, num);
      case Sending(to, num) =>
        sent := Some((to, num));
        hs := Polling(to, num);
      case Concluding => Conclude(Blocked);
      case Settling(to, num) => Conclude(Replying(to, num));
      case Replying(to, num) =>
        sent := Some((to, num));
        hs := Blocked;
      case Faulted =>
    }
  }
}
