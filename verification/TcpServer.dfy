/** The server's handlers over its connection table and the timer heaps of its loops
    (haha_web/net/TcpServer.cpp), proved against the steps of ServerModel. Every handler keeps every
    heap in order: the only expiries they change they postpone. */
module TcpServer {
  import opened Text
  import opened TimerHeap
  import opened ServerModel
  import TimerQueue
  import Util

  datatype RecvStatus = RecvAgain | RecvClosed | RecvError
  datatype MessageStatus = MessageAgain | MessageDone
  datatype SendStatus = SendCompleted | SendAgain | SendClosed | SendError

  /** What the heaps mean, one after the other. */
  ghost function Schedules(hs: seq<Heap>): (m: seq<Schedule>)
    reads hs
    requires forall h <- hs :: h.Valid()
    ensures |m| == |hs| && forall i :: 0 <= i < |hs| ==> m[i] == hs[i].Timers()
  {
    if hs == [] then [] else [hs[0].Timers()] + Schedules(hs[1..])
  }

  ghost predicate Distinct(hs: seq<Heap>) {
    forall i, j :: 0 <= i < j < |hs| ==> hs[i] != hs[j]
  }

  class TcpServer {
    var now: nat
    const connTimeOut: nat
    var conns: map<nat, Conn>
    var nextId: nat
    var connects: map<int, nat>
    var starting: set<nat>
    const timers: seq<Heap>     // the TimerHeap of each event loop

    /** Each loop has its own heap, and each is in order. */
    ghost predicate HeapsOk()
      reads timers
    {
      Distinct(timers) && forall h <- timers :: h.Valid() && h.InOrder()
    }

    ghost function State(): Server
      reads this, timers
      requires HeapsOk()
    {
      Server(now, connTimeOut, conns, nextId, connects, starting, Schedules(timers))
    }

    /** Descriptors are ints. */
    ghost predicate IntDescriptors()
      reads this`conns
    {
      forall id <- conns :: 0 <= conns[id].fd <= Util.INT_MAX
    }

    ghost predicate Valid()
      reads this, timers
    {
      HeapsOk() && Inv(State()) && IntDescriptors()
    }

    constructor (timeout: nat, timers: seq<Heap>)
      requires Distinct(timers) && forall h <- timers :: h.Valid() && h.InOrder() && h.Timers() == map[]
      ensures Valid() && Init(State()) && connTimeOut == timeout && this.timers == timers
    {
      now, connTimeOut, nextId := 0, timeout, 0;
      conns, connects, starting := map[], map[], {};
      this.timers := timers;
    }

    // -------------------------------------------------------------- the loops' timers

    method AddTimer(loop: nat, timer: Timer)
      requires HeapsOk() && loop < |timers| && 0 <= timer.fd <= Util.INT_MAX
      modifies timers[loop]
      ensures HeapsOk()
      ensures State() == WithTimers(old(State()), loop, Push(old(State()).timers[loop], timer))
    {
      timers[loop].PushTimer(timer);
    }

    /** adjust keeps the heap in order because the timer is there and is not brought forward. */
    method AdjustTimer(loop: nat, timer: Timer)
      requires HeapsOk() && loop < |timers|
      requires var m := State().timers[loop]; timer.fd in m && m[timer.fd].expire <= timer.expire
      modifies timers[loop]
      ensures HeapsOk()
      ensures State() == WithTimers(old(State()), loop, Adjust(old(State()).timers[loop], timer))
    {
      timers[loop].AdjustTimer(timer);
    }

    method DelTimer(loop: nat, fd: int)
      requires HeapsOk() && loop < |timers|
      modifies timers[loop]
      ensures HeapsOk()
      ensures State() == WithTimers(old(State()), loop, Remove(old(State()).timers[loop], fd))
    {
      timers[loop].RemoveTimer(fd);
    }

    // -------------------------------------------------------------- the handlers

    /** handleServerAccept; the loop is the pool's next one. No descriptor when accept fails. */
    method HandleServerAccept(accepted: Option<int>, loop: nat)
      requires Valid()
      requires accepted.Some? ==> accepted.value <= Util.INT_MAX && Enabled(State(), Accept(accepted.value, loop))
      modifies this
      ensures Valid()
      ensures State() == if accepted.Some? then Apply(old(State()), Accept(accepted.value, loop)) else old(State())
      ensures accepted.Some? ==> IsNew(old(State()), State(), accepted.value, loop)
    {
      if accepted.None? {
        return;
      }
      StepKeepsInv(State(), Accept(accepted.value, loop));
      AcceptMeans(State(), accepted.value, loop);
      hide *;
      Accepting(accepted.value, loop);
    }

    method Accepting(connfd: int, loop: nat)
      requires HeapsOk() && IntDescriptors() && LoopsExist(State())
      requires connfd <= Util.INT_MAX && Enabled(State(), Accept(connfd, loop))
      modifies this
      ensures HeapsOk() && IntDescriptors() && State() == Apply(old(State()), Accept(connfd, loop))
    {
      hide HeapsOk, Schedules;
      Register(connfd, loop);
    }

    /** The new connection enters the table, and its onConnect is queued in its loop. */
    method Register(connfd: int, loop: nat)
      requires HeapsOk() && IntDescriptors() && 0 <= connfd <= Util.INT_MAX
      modifies this
      ensures HeapsOk() && IntDescriptors()
      ensures var conn := Conn(connfd, loop, false, false, old(now), Reading);
        State() == old(State()).(conns := old(conns)[old(nextId) := conn], nextId := old(nextId) + 1,
                                 connects := old(connects)[connfd := old(nextId)],
                                 starting := old(starting) + {old(nextId)})
    {
      hide HeapsOk, Schedules;
      connects := connects[connfd := nextId];
      conns := conns[nextId := Conn(connfd, loop, false, false, now, Reading)];
      starting := starting + {nextId};
      nextId := nextId + 1;
    }

    method OnConnect(id: nat)
      requires Valid() && Enabled(State(), Connect(id))
      modifies this, timers
      ensures Valid() && State() == Apply(old(State()), Connect(id))
      ensures old(Live(State(), id)) ==> LivesOn(old(State()), State(), id, old(conns[id].interest))
      ensures starting == old(starting) - {id}
    {
      StepKeepsInv(State(), Connect(id));
      if id in conns && !conns[id].disconnected {
        ConnectMeans(State(), id);
      }
      StartedOnce(State(), id);
      hide *;
      Connecting(id);
    }

    method Connecting(id: nat)
      requires HeapsOk() && IntDescriptors() && LoopsExist(State()) && Enabled(State(), Connect(id))
      modifies this, timers
      ensures HeapsOk() && IntDescriptors() && State() == Apply(old(State()), Connect(id))
    {
      ConnectedInSteps(State(), id);
      hide Schedules, HeapsOk, Enabled, Apply, Activated;
      Started(id);
      if id !in conns {
        return;
      }
      Activate(id);
    }

    /** The channel is registered and the timer started. */
    method Activate(id: nat)
      requires HeapsOk() && IntDescriptors() && id in conns && conns[id].loop < |timers|
      modifies this`conns, timers
      ensures HeapsOk() && IntDescriptors()
      ensures State() == Activated(old(State()), id)
    {
      hide Schedules, HeapsOk, WithTimers;
      var conn := conns[id];
      SetConn(id, conn.(registered := true, lastActive := now));
      AddTimer(conn.loop, Timer(conn.fd, now + connTimeOut, Some(id)));
    }

    method Started(id: nat)
      requires HeapsOk() && IntDescriptors()
      modifies this`starting
      ensures HeapsOk() && IntDescriptors() && State() == old(State()).(starting := old(starting) - {id})
    {
      hide HeapsOk, Schedules;
      starting := starting - {id};
    }

    method HandleConnectionRead(id: nat, status: RecvStatus, message: MessageStatus)
      requires Valid() && (Live(State(), id) ==> conns[id].registered)
      modifies this, timers
      ensures Valid() && State() == Apply(old(State()), ReadStep(id, status, message))
      ensures old(Live(State(), id)) ==>
        starting == old(starting) &&
        match status
        case RecvAgain =>
          LivesOn(old(State()), State(), id, match message case MessageAgain => Reading case MessageDone => Writing)
        case RecvClosed => IsOver(old(State()), State(), id)
        case RecvError => IsOver(old(State()), State(), id)
      ensures !old(Live(State(), id)) ==> State() == old(State())
    {
      if id !in conns || conns[id].disconnected {
        return;
      }
      var next := if message == MessageAgain then Reading else Writing;
      StepKeepsInv(State(), ReadStep(id, status, message));
      ServedInSteps(State(), id, next);
      ServedMeans(State(), id, next);
      OwnTimerThere(id);
      hide Inv, Schedules, Served, Close, WithTimers, LivesOn, IsOver;
      Postpone(id);
      if status == RecvClosed || status == RecvError {
        CloseNow(id);
        return;
      }
      SetEvents(id, next);
    }

    method HandleConnectionWrite(id: nat, status: SendStatus, keepAlive: bool)
      requires Valid() && (Live(State(), id) ==> conns[id].registered)
      modifies this, timers
      ensures Valid() && State() == Apply(old(State()), WriteStep(id, status, keepAlive))
      ensures old(Live(State(), id)) ==>
        starting == old(starting) &&
        match status
        case SendCompleted =>
          if keepAlive then LivesOn(old(State()), State(), id, Reading) else IsOver(old(State()), State(), id)
        case SendAgain => LivesOn(old(State()), State(), id, Writing)
        case SendClosed => IsOver(old(State()), State(), id)
        case SendError => IsOver(old(State()), State(), id)
      ensures !old(Live(State(), id)) ==> State() == old(State())
    {
      if id !in conns || conns[id].disconnected {
        return;
      }
      StepKeepsInv(State(), WriteStep(id, status, keepAlive));
      ServedInSteps(State(), id, if status == SendCompleted then Reading else Writing);
      ServedMeans(State(), id, if status == SendCompleted then Reading else Writing);
      OwnTimerThere(id);
      hide Inv, Schedules, Served, Close, WithTimers, LivesOn, IsOver;
      Postpone(id);
      match status {
        case SendCompleted =>
          if keepAlive {
            SetEvents(id, Reading);
          } else {
            CloseNow(id);
          }
        case SendAgain => SetEvents(id, Writing);
        case _ => CloseNow(id);
      }
    }

    static function ReadStep(id: nat, status: RecvStatus, message: MessageStatus): Step {
      ReadOrWrite(id, status != RecvAgain, if message == MessageAgain then Reading else Writing)
    }

    static function WriteStep(id: nat, status: SendStatus, keepAlive: bool): Step {
      ReadOrWrite(id, status == SendClosed || status == SendError || (status == SendCompleted && !keepAlive),
                  if status == SendCompleted then Reading else Writing)
    }

    /** The timer that adjustTimer finds at the head of both handlers, and is to postpone. */
    ghost predicate TimerThere(id: nat)
      reads this, timers
      requires HeapsOk() && id in conns
    {
      var c := conns[id];
      c.loop < |timers| && c.fd in State().timers[c.loop] && State().timers[c.loop][c.fd].expire <= now + connTimeOut
    }

    lemma OwnTimerThere(id: nat)
      requires Valid() && Live(State(), id) && conns[id].registered
      ensures TimerThere(id)
    {
      ServeMovesOwnTimer(State(), id, conns[id].interest);
    }

    method Postpone(id: nat)
      requires HeapsOk() && IntDescriptors() && LoopsExist(State()) && Live(State(), id) && TimerThere(id)
      modifies this`conns, timers
      ensures HeapsOk() && IntDescriptors()
      ensures State() == Served(old(State()), id, false, old(conns[id].interest))
    {
      PostponedInSteps(State(), id);
      hide Schedules, HeapsOk, Moved, Served;
      MoveTimer(id);
    }

    method MoveTimer(id: nat)
      requires HeapsOk() && IntDescriptors() && id in conns && TimerThere(id)
      modifies this`conns, timers
      ensures HeapsOk() && IntDescriptors()
      ensures State() == Moved(old(State()), id)
    {
      hide Schedules, HeapsOk, WithTimers, Adjust;
      var conn := conns[id];
      SetConn(id, conn.(lastActive := now));
      AdjustTimer(conn.loop, Timer(conn.fd, now + connTimeOut, None));
    }

    method SetEvents(id: nat, next: Interest)
      requires HeapsOk() && IntDescriptors() && id in conns
      modifies this`conns
      ensures HeapsOk() && IntDescriptors()
      ensures State() == old(State()).(conns := old(conns)[id := old(conns)[id].(interest := next)])
    {
      SetConn(id, conns[id].(interest := next));
    }

    /** A connection object takes a new value. */
    method SetConn(id: nat, conn: Conn)
      requires HeapsOk() && IntDescriptors() && 0 <= conn.fd <= Util.INT_MAX
      modifies this`conns
      ensures HeapsOk() && IntDescriptors() && conns == old(conns)[id := conn]
      ensures State() == old(State()).(conns := old(conns)[id := conn])
    {
      hide HeapsOk, Schedules;
      conns := conns[id := conn];
    }

    /** delTimer, then handleConnectionClose. */
    method CloseNow(id: nat)
      requires HeapsOk() && IntDescriptors() && LoopsExist(State()) && id in conns
      modifies this`conns, this`connects, timers
      ensures HeapsOk() && IntDescriptors()
      ensures var c := old(conns[id]);
        State() == Close(WithTimers(old(State()), c.loop, Remove(old(State()).timers[c.loop], c.fd)), id)
    {
      DelTimer(conns[id].loop, conns[id].fd);
      HandleConnectionClose(id);
    }

    method HandleConnectionClose(id: nat)
      requires HeapsOk() && IntDescriptors()
      modifies this`conns, this`connects
      ensures HeapsOk() && IntDescriptors()
      ensures State() == Close(old(State()), id)
      ensures if old(Live(State(), id)) then
        var c := old(conns[id]);
        conns == old(conns)[id := Conn(c.fd, c.loop, false, true, c.lastActive, c.interest)]
        && connects == old(connects) - {c.fd}
      else conns == old(conns) && connects == old(connects)
    {
      if id !in conns || conns[id].disconnected {
        return;
      }
      var conn := conns[id];
      conns := conns[id := conn.(registered := false, disconnected := true)];
      if conn.fd in connects {
        connects := connects - {conn.fd};
      }
    }

    /** TimerQueue::handleTimeout on the heap of one loop: it closes exactly the registered connections
        of that loop that have been silent for the timeout, and no others, and takes exactly the expired
        timers out of the heap. */
    method HandleTimeout(loop: nat)
      requires Valid() && loop < |timers|
      modifies this`conns, this`connects, timers[loop]
      ensures Valid()
      ensures forall id :: Live(State(), id) <==> Live(old(State()), id) && !old(Silent(State(), loop, id))
      ensures forall id :: Live(State(), id) ==> conns[id] == old(conns)[id]
      ensures timers[loop].Timers() == TimerQueue.Pending(old(timers[loop].Timers()), now)
    {
      StartsDraining(State(), loop);
      hide Inv, Live, Silent, Draining, Fired, Schedules;
      assert |State().timers| == |timers|;
      while !timers[loop].IsEmpty()
        invariant HeapsOk() && IntDescriptors() && Draining(old(State()), State(), loop)
        decreases |timers[loop].Timers()|
      {
        var timer := timers[loop].Top();
        if timer.expire > now {
          break;
        }
        assert State().timers[loop] == timers[loop].Timers();
        FireWhileDraining(old(State()), State(), loop, timer.fd);
        FireTop(loop, timer);
      }
      assert State().timers[loop] == timers[loop].Timers();
      Drained(old(State()), State(), loop);
    }

    /** The callback of the earliest timer, then pop. */
    method FireTop(loop: nat, timer: Timer)
      requires HeapsOk() && IntDescriptors() && loop < |timers|
      requires !timers[loop].IsEmpty() && timers[loop].Top() == timer
      modifies this`conns, this`connects, timers[loop]
      ensures HeapsOk() && IntDescriptors()
      ensures State() == Fired(old(State()), loop, timer.fd)
    {
      assert State().timers[loop] == timers[loop].Timers();
      hide HeapsOk, Schedules, Close, WithTimers;
      if timer.cb.Some? {
        HandleConnectionClose(timer.cb.value);
      }
      PopTimer(loop);
    }

    method PopTimer(loop: nat)
      requires HeapsOk() && loop < |timers| && !timers[loop].IsEmpty()
      modifies timers[loop]
      ensures HeapsOk()
      ensures var fd := old(timers[loop].Top().fd);
        State() == WithTimers(old(State()), loop, Remove(old(State()).timers[loop], fd))
    {
      timers[loop].Pop();
    }
  }

  /** A server over new heaps, one a loop. */
  method NewServer(timeout: nat, loops: nat) returns (server: TcpServer)
    ensures fresh(server) && server.Valid() && Init(server.State()) && |server.timers| == loops
  {
    var timers: seq<Heap> := [];
    for i := 0 to loops
      invariant |timers| == i && Distinct(timers)
      invariant forall h <- timers :: fresh(h) && h.Valid() && h.InOrder() && h.Timers() == map[]
    {
      var h := new Heap();
      timers := timers + [h];
    }
    server := new TcpServer(timeout, timers);
  }

  /** The channel registered and the timer started. */
  ghost function Activated(s: Server, id: nat): Server
    requires id in s.conns && s.conns[id].loop < |s.timers|
  {
    var c := s.conns[id];
    var s' := s.(conns := s.conns[id := c.(registered := true, lastActive := s.now)]);
    WithTimers(s', c.loop, Push(s.timers[c.loop], Timer(c.fd, s.now + s.timeout, Some(id))))
  }

  /** The timer postponed. */
  ghost function Moved(s: Server, id: nat): Server
    requires id in s.conns && s.conns[id].loop < |s.timers|
  {
    var c := s.conns[id];
    var s' := s.(conns := s.conns[id := c.(lastActive := s.now)]);
    WithTimers(s', c.loop, Adjust(s.timers[c.loop], Timer(c.fd, s.now + s.timeout, None)))
  }

  lemma PostponedInSteps(s: Server, id: nat)
    requires LoopsExist(s) && Live(s, id)
    ensures var c := s.conns[id];
      c.loop < |s.timers| && Served(s, id, false, c.interest) == Moved(s, id)
  {
    var c := s.conns[id];
    assert c.(lastActive := s.now, interest := c.interest) == c.(lastActive := s.now);
  }

  lemma StartedOnce(s: Server, id: nat)
    requires LoopsExist(s) && Enabled(s, Connect(id))
    ensures Apply(s, Connect(id)).starting == s.starting - {id}
  {
  }

  /** onConnect, taken apart. */
  lemma ConnectedInSteps(s: Server, id: nat)
    requires LoopsExist(s) && Enabled(s, Connect(id))
    ensures id !in s.conns ==> Apply(s, Connect(id)) == s.(starting := s.starting - {id})
    ensures id in s.conns ==>
      s.conns[id].loop < |s.timers| && Apply(s, Connect(id)) == Activated(s.(starting := s.starting - {id}), id)
  {
  }

  /** A read or write event, taken apart: the postponement, then the events to wait for, or the timer
      deleted and the connection closed. */
  lemma ServedInSteps(s: Server, id: nat, next: Interest)
    requires Inv(s) && Live(s, id)
    ensures LoopsExist(s)
    ensures var c := s.conns[id]; var moved := Served(s, id, false, c.interest);
      && id in moved.conns && c.loop < |moved.timers| && moved.conns[id].loop == c.loop && moved.conns[id].fd == c.fd
      && LoopsExist(moved)
      && Served(s, id, false, next) == moved.(conns := moved.conns[id := moved.conns[id].(interest := next)])
      && Served(s, id, true, next) == Close(WithTimers(moved, c.loop, Remove(moved.timers[c.loop], c.fd)), id)
  {
    var c := s.conns[id];
    var moved := Served(s, id, false, c.interest);
    assert Served(s, id, false, next).conns
        == moved.conns[id := moved.conns[id].(interest := next)];
  }

  predicate Silent(s: Server, loop: nat, id: nat) {
    Live(s, id) && s.conns[id].loop == loop && s.conns[id].registered && s.conns[id].lastActive + s.timeout <= s.now
  }

  lemma OwnerWasSilent(s: Server, loop: nat, fd: int)
    requires Inv(s) && Enabled(s, Fire(loop, fd))
    ensures s.timers[loop][fd].cb.Some?
    ensures var id := s.timers[loop][fd].cb.value; Live(s, id) ==> Silent(s, loop, id)
  {
    assert TimerOk(s, loop, fd);
    assert Live(s, s.timers[loop][fd].cb.value) ==> OwnTimer(s, s.timers[loop][fd].cb.value);
  }

  /** Some of m's expired timers are gone, and nothing else. */
  predicate LeftOver(m: Schedule, left: Schedule, now: nat) {
    (forall fd <- left :: fd in m && left[fd] == m[fd]) && (forall fd <- m :: fd !in left ==> m[fd].expire <= now)
  }

  lemma AllExpired(m: Schedule, left: Schedule, now: nat)
    requires LeftOver(m, left, now) && forall fd <- left :: left[fd].expire > now
    ensures left == TimerQueue.Pending(m, now)
  {
    var pending := TimerQueue.Pending(m, now);
    assert forall fd :: fd in left <==> fd in pending;
    assert forall fd :: fd in left ==> left[fd] == pending[fd];
  }

  lemma OneExpired(m: Schedule, left: Schedule, now: nat, fd: int)
    requires LeftOver(m, left, now) && fd in left && left[fd].expire <= now
    ensures LeftOver(m, Remove(left, fd), now)
  {
  }

  /** Partway through handleTimeout: only silent connections of the loop are closed so far. */
  ghost predicate Draining(s: Server, s': Server, loop: nat) {
    && Inv(s) && Inv(s') && loop < |s.timers| && |s'.timers| == |s.timers|
    && s'.now == s.now && s'.timeout == s.timeout && LeftOver(s.timers[loop], s'.timers[loop], s.now)
    && (forall id :: Live(s', id) ==> Live(s, id) && s'.conns[id] == s.conns[id])
    && (forall id :: Live(s, id) && !Live(s', id) ==> Silent(s, loop, id))
  }

  /** Drained with no expired timer left: the silent connections are closed, and only they. */
  lemma Drained(s: Server, s': Server, loop: nat)
    requires Draining(s, s', loop) && forall fd <- s'.timers[loop] :: s'.timers[loop][fd].expire > s'.now
    ensures Inv(s') && s'.timers[loop] == TimerQueue.Pending(s.timers[loop], s.now)
    ensures forall id :: Live(s', id) <==> Live(s, id) && !Silent(s, loop, id)
    ensures forall id :: Live(s', id) ==> s'.conns[id] == s.conns[id]
  {
    AllExpired(s.timers[loop], s'.timers[loop], s.now);
    forall id | Live(s', id)
      ensures !Silent(s, loop, id)
    {
      assert s'.conns[id].registered ==> OwnTimer(s', id);
    }
  }

  lemma StartsDraining(s: Server, loop: nat)
    requires Inv(s) && loop < |s.timers|
    ensures Draining(s, s, loop)
  {
  }

  lemma FireWhileDraining(s: Server, s': Server, loop: nat, fd: int)
    requires Draining(s, s', loop) && Enabled(s', Fire(loop, fd))
    ensures Draining(s, Fired(s', loop, fd), loop)
    ensures |Fired(s', loop, fd).timers[loop]| < |s'.timers[loop]|
  {
    hide TableOk, TimersOk, PhasesOk, LeftOver;
    OneExpired(s.timers[loop], s'.timers[loop], s.now, fd);
    FireKeepsInv(s', loop, fd);
    OwnerWasSilent(s', loop, fd);
    RemoveShrinks(s'.timers[loop], fd);
  }

  lemma RemoveShrinks(m: Schedule, fd: int)
    requires fd in m
    ensures |Remove(m, fd)| < |m|
  {
    assert Remove(m, fd).Keys == m.Keys - {fd};
    assert |Remove(m, fd)| == |Remove(m, fd).Keys| && |m| == |m.Keys|;
  }
}
