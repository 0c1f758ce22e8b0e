/** The life of connections and their timers across the server's event loops, as steps
    (haha_web/net/TcpServer.cpp). Each handler runs in one loop's thread and touches shared state
    only through the locked connection table, so a handler is one step; accepting a connection and
    what it queues are two. */
module ServerModel {
  import opened Text
  import opened TimerHeap

  /** A TcpConnection object with its channel. `lastActive` is when it was last connected, read or
      written, kept to say what a timeout means. */
  datatype Conn = Conn(fd: int, loop: nat, registered: bool, disconnected: bool, lastActive: nat, interest: Interest)

  /** The events the channel asks for next: EPOLLIN or EPOLLOUT. */
  datatype Interest = Reading | Writing

  datatype Server = Server(
    now: nat,
    timeout: nat,
    conns: map<nat, Conn>,        // connection objects not yet destroyed; their descriptors are open
    nextId: nat,
    connects: map<int, nat>,      // connects_
    starting: set<nat>,           // onConnect queued and not yet run
    timers: seq<Schedule>)        // one heap per loop

  /** No connection, an empty heap in every loop. */
  predicate Init(s: Server) {
    s.conns == map[] && s.connects == map[] && s.starting == {} && s.nextId == 0
    && forall l :: 0 <= l < |s.timers| ==> s.timers[l] == map[]
  }

  datatype Step =
    | Tick(t: nat)
    | Accept(fd: int, loop: nat)
    | Connect(id: nat)
    // shut: the peer is gone, an error, or a finished reply without keep-alive; next: what is waited for now
    | ReadOrWrite(id: nat, shut: bool, next: Interest)
    | HangUp(id: nat)
    | Fire(loop: nat, fd: int)          // one turn of handleTimeout's loop
    | Destroy(id: nat)                  // the last shared_ptr goes, the descriptor is closed

  /** weak_conn.lock() succeeds and the connection is not marked disconnected. */
  predicate Live(s: Server, id: nat) { id in s.conns && !s.conns[id].disconnected }

  /** The connection table refers to the connection. */
  predicate Linked(s: Server, id: nat) { exists fd <- s.connects :: s.connects[fd] == id }

  /** The clock never goes back, accept never returns an open descriptor, events come only from
      channels that were registered, a connection in the table is not destroyed, and handleTimeout
      fires the earliest timer of a loop when it has expired. */
  predicate Enabled(s: Server, step: Step) {
    match step
    case Tick(t) => s.now <= t
    case Accept(fd, loop) => 0 <= fd && loop < |s.timers| && forall id <- s.conns :: s.conns[id].fd != fd
    case Connect(id) => id in s.starting
    case ReadOrWrite(id, _, _) => Live(s, id) ==> s.conns[id].registered
    case HangUp(id) => Live(s, id) ==> s.conns[id].registered
    case Fire(loop, fd) =>
      loop < |s.timers| && fd in s.timers[loop]
      && IsEarliest(s.timers[loop], s.timers[loop][fd]) && s.timers[loop][fd].expire <= s.now
    case Destroy(id) => id in s.conns && !Linked(s, id)
  }

  // ---------------------------------------------------------------- the handlers

  /** handleConnectionClose: its own entry leaves the table; its timer stays where it is. */
  function Close(s: Server, id: nat): Server {
    if Live(s, id) then
      var c := s.conns[id];
      s.(conns := s.conns[id := c.(registered := false, disconnected := true)], connects := s.connects - {c.fd})
    else s
  }

  function WithTimers(s: Server, loop: nat, m: Schedule): Server
    requires loop < |s.timers|
  {
    s.(timers := s.timers[loop := m])
  }

  predicate LoopsExist(s: Server) {
    forall id <- s.conns :: s.conns[id].loop < |s.timers|
  }

  /** onConnect: register the channel, start the timer. */
  function Connected(s: Server, id: nat): Server
    requires LoopsExist(s)
  {
    if id !in s.conns then s.(starting := s.starting - {id})
    else
      var c := s.conns[id];
      WithTimers(s, c.loop, Push(s.timers[c.loop], Timer(c.fd, s.now + s.timeout, Some(id))))
      .(conns := s.conns[id := c.(registered := true, lastActive := s.now)], starting := s.starting - {id})
  }

  /** handleConnectionRead or handleConnectionWrite, then onRecv or onSend: postpone the timer, and
      when the connection is over delete it and close. */
  function Served(s: Server, id: nat, shut: bool, next: Interest): Server
    requires LoopsExist(s)
  {
    if !Live(s, id) then s
    else
      var c := s.conns[id];
      var m := Adjust(s.timers[c.loop], Timer(c.fd, s.now + s.timeout, None));
      var touched := s.(conns := s.conns[id := c.(lastActive := s.now, interest := if shut then c.interest else next)]);
      if shut then Close(WithTimers(touched, c.loop, Remove(m, c.fd)), id)
      else WithTimers(touched, c.loop, m)
  }

  /** The callback of the earliest timer runs, then the timer is popped. */
  function Fired(s: Server, loop: nat, fd: int): Server
    requires loop < |s.timers| && fd in s.timers[loop]
  {
    var t := s.timers[loop][fd];
    var closed := if t.cb.Some? then Close(s, t.cb.value) else s;
    WithTimers(closed, loop, Remove(s.timers[loop], fd))
  }

  function Apply(s: Server, step: Step): Server
    requires LoopsExist(s) && Enabled(s, step)
  {
    match step
    case Tick(t) => s.(now := t)
    case Accept(fd, loop) =>
      s.(conns := s.conns[s.nextId := Conn(fd, loop, false, false, s.now, Reading)], nextId := s.nextId + 1,
         connects := s.connects[fd := s.nextId], starting := s.starting + {s.nextId})
    case Connect(id) => Connected(s, id)
    case ReadOrWrite(id, shut, next) => Served(s, id, shut, next)
    case HangUp(id) => Close(s, id)
    case Fire(loop, fd) => Fired(s, loop, fd)
    case Destroy(id) => s.(conns := s.conns - {id})
  }

  // ---------------------------------------------------------------- what the handlers do to a connection

  /** All other connections, and all timers but the one under the descriptor of this one in its loop. */
  ghost predicate OthersKept(s: Server, s': Server, id: nat)
    requires id in s.conns
  {
    var c := s.conns[id];
    && s'.now == s.now && s'.timeout == s.timeout && s'.nextId == s.nextId && s'.conns.Keys == s.conns.Keys
    && (forall i <- s.conns :: i != id ==> s'.conns[i] == s.conns[i])
    && |s'.timers| == |s.timers|
    && (forall l, fd :: 0 <= l < |s.timers| && !(l == c.loop && fd == c.fd) ==>
          (fd in s'.timers[l] <==> fd in s.timers[l]) && (fd in s.timers[l] ==> s'.timers[l][fd] == s.timers[l][fd]))
  }

  /** The connection lives on, waits for `next`, and its timer, bound to it, runs for a whole timeout from
      now. */
  ghost predicate LivesOn(s: Server, s': Server, id: nat, next: Interest)
    requires id in s.conns
  {
    var c := s.conns[id];
    && OthersKept(s, s', id) && s'.connects == s.connects
    && s'.conns[id] == Conn(c.fd, c.loop, true, false, s.now, next)
    && c.loop < |s'.timers| && c.fd in s'.timers[c.loop]
    && s'.timers[c.loop][c.fd] == Timer(c.fd, s.now + s.timeout, Some(id))
  }

  /** The connection is over: marked, out of the table, its timer gone. */
  ghost predicate IsOver(s: Server, s': Server, id: nat)
    requires id in s.conns
  {
    var c := s.conns[id];
    && OthersKept(s, s', id) && s'.connects == s.connects - {c.fd}
    && s'.conns[id].disconnected && !s'.conns[id].registered && s'.conns[id].fd == c.fd
    && c.loop < |s'.timers| && c.fd !in s'.timers[c.loop]
  }

  /** A new connection: in the table under its descriptor, waiting to be read, its onConnect still to come. */
  ghost predicate IsNew(s: Server, s': Server, fd: int, loop: nat) {
    var id := s.nextId;
    && s' == s.(conns := s'.conns, connects := s'.connects, starting := s.starting + {id}, nextId := id + 1)
    && s'.conns.Keys == s.conns.Keys + {id} && (forall i <- s.conns :: i != id ==> s'.conns[i] == s.conns[i])
    && s'.conns[id] == Conn(fd, loop, false, false, s.now, Reading)
    && s'.connects.Keys == s.connects.Keys + {fd} && s'.connects[fd] == id
    && (forall g <- s.connects :: g != fd ==> s'.connects[g] == s.connects[g])
  }

  lemma AcceptMeans(s: Server, fd: int, loop: nat)
    requires LoopsExist(s) && Enabled(s, Accept(fd, loop))
    ensures IsNew(s, Apply(s, Accept(fd, loop)), fd, loop)
  {
  }

  lemma ConnectMeans(s: Server, id: nat)
    requires LoopsExist(s) && Enabled(s, Connect(id)) && Live(s, id)
    ensures var s' := Apply(s, Connect(id));
      LivesOn(s, s', id, s.conns[id].interest) && s'.starting == s.starting - {id}
  {
    var s' := Apply(s, Connect(id));
    assert s'.conns.Keys == s.conns.Keys;
  }

  // ---------------------------------------------------------------- what every step keeps

  /** Open descriptors are distinct, and the table holds exactly the live connections. */
  ghost predicate TableOk(s: Server) {
    && (forall i, j :: i in s.conns && j in s.conns && i != j ==> s.conns[i].fd != s.conns[j].fd)
    && (forall fd <- s.connects :: Live(s, s.connects[fd]) && s.conns[s.connects[fd]].fd == fd)
    && (forall id :: Live(s, id) ==> s.conns[id].fd in s.connects && s.connects[s.conns[id].fd] == id)
    && (forall id <- s.conns :: id < s.nextId)
  }

  /** A live connection waits for onConnect or is registered, never both. */
  ghost predicate PhasesOk(s: Server) {
    && LoopsExist(s)
    && (forall id :: Live(s, id) ==> (s.conns[id].registered <==> id !in s.starting))
    && (forall id <- s.starting :: Live(s, id))
  }

  /** A registered connection's timer is in its own loop under its descriptor, bound to it, and
      expires one timeout after its last activity. */
  ghost predicate OwnTimer(s: Server, id: nat)
    requires id in s.conns && s.conns[id].loop < |s.timers|
  {
    var c := s.conns[id];
    c.fd in s.timers[c.loop]
    && s.timers[c.loop][c.fd] == Timer(c.fd, c.lastActive + s.timeout, Some(id)) && c.lastActive <= s.now
  }

  /** A timer has a callback, expires no later than one timeout from now, and if what it is bound to
      is live, it is that connection's own timer. */
  ghost predicate TimerOk(s: Server, loop: nat, fd: int)
    requires loop < |s.timers| && fd in s.timers[loop]
  {
    var t := s.timers[loop][fd];
    t.fd == fd && t.cb.Some? && t.cb.value < s.nextId && t.expire <= s.now + s.timeout
    && (Live(s, t.cb.value) ==>
          s.conns[t.cb.value].fd == fd && s.conns[t.cb.value].loop == loop && s.conns[t.cb.value].registered)
  }

  ghost predicate TimersOk(s: Server)
    requires LoopsExist(s)
  {
    && (forall id :: Live(s, id) && s.conns[id].registered ==> OwnTimer(s, id))
    && (forall l, fd :: 0 <= l < |s.timers| && fd in s.timers[l] ==> TimerOk(s, l, fd))
  }

  ghost predicate Inv(s: Server) { TableOk(s) && PhasesOk(s) && TimersOk(s) }

  lemma CloseKeepsTable(s: Server, id: nat)
    requires TableOk(s) && PhasesOk(s) && (Live(s, id) ==> s.conns[id].registered)
    ensures TableOk(Close(s, id)) && PhasesOk(Close(s, id))
    ensures forall i :: Live(Close(s, id), i) <==> Live(s, i) && i != id
    ensures forall i :: Live(Close(s, id), i) ==> Close(s, id).conns[i] == s.conns[i]
  {
  }

  lemma CloseKeepsInv(s: Server, id: nat)
    requires Inv(s) && (Live(s, id) ==> s.conns[id].registered)
    ensures Inv(Close(s, id))
  {
    CloseKeepsTable(s, id);
    hide TableOk;
    var s' := Close(s, id);
    assert s'.timers == s.timers && s'.now == s.now && s'.timeout == s.timeout && s'.nextId == s.nextId;
    forall i | Live(s', i) && s'.conns[i].registered
      ensures OwnTimer(s', i)
    {
      assert OwnTimer(s, i);
    }
    forall l, g | 0 <= l < |s'.timers| && g in s'.timers[l]
      ensures TimerOk(s', l, g)
    {
      assert TimerOk(s, l, g);
    }
  }

  /** Taking out a timer no live connection owns. */
  lemma DropKeepsInv(s: Server, loop: nat, fd: int)
    requires Inv(s) && loop < |s.timers|
    requires fd in s.timers[loop] ==> !Live(s, s.timers[loop][fd].cb.GetOr(s.nextId))
    ensures Inv(WithTimers(s, loop, Remove(s.timers[loop], fd)))
  {
    var s' := WithTimers(s, loop, Remove(s.timers[loop], fd));
    forall id | Live(s', id) && s'.conns[id].registered
      ensures OwnTimer(s', id)
    {
      assert OwnTimer(s, id);
    }
    forall l, g | 0 <= l < |s'.timers| && g in s'.timers[l]
      ensures TimerOk(s', l, g)
    {
      assert TimerOk(s, l, g);
    }
  }

  lemma AcceptKeepsTable(s: Server, fd: int, loop: nat)
    requires Inv(s) && Enabled(s, Accept(fd, loop))
    ensures var s' := Apply(s, Accept(fd, loop));
      TableOk(s') && PhasesOk(s') && forall id :: Live(s', id) <==> Live(s, id) || id == s.nextId
  {
    hide TimersOk;
    var s' := Apply(s, Accept(fd, loop));
    assert s.nextId !in s.conns;
    assert forall id <- s.conns :: s'.conns[id] == s.conns[id] && s.conns[id].fd != fd;
    assert forall id :: id in s'.conns <==> id in s.conns || id == s.nextId;
  }

  lemma AcceptKeepsInv(s: Server, fd: int, loop: nat)
    requires Inv(s) && Enabled(s, Accept(fd, loop))
    ensures Inv(Apply(s, Accept(fd, loop)))
  {
    AcceptKeepsTable(s, fd, loop);
    hide TableOk;
    var s' := Apply(s, Accept(fd, loop));
    assert s'.timers == s.timers && s'.now == s.now && s'.timeout == s.timeout && !s'.conns[s.nextId].registered;
    forall id | Live(s', id) && s'.conns[id].registered
      ensures OwnTimer(s', id)
    {
      assert OwnTimer(s, id);
    }
    forall l, g | 0 <= l < |s'.timers| && g in s'.timers[l]
      ensures TimerOk(s', l, g)
    {
      assert TimerOk(s, l, g);
    }
  }

  lemma ConnectKeepsInv(s: Server, id: nat)
    requires Inv(s) && Enabled(s, Connect(id))
    ensures Inv(Apply(s, Connect(id)))
  {
    var s' := Connected(s, id);
    var c := s.conns[id];
    assert forall i :: Live(s', i) <==> Live(s, i);
    forall i | Live(s', i) && s'.conns[i].registered
      ensures OwnTimer(s', i)
    {
      assert i != id ==> OwnTimer(s, i) && s.conns[i].fd != c.fd;
    }
    forall l, g | 0 <= l < |s'.timers| && g in s'.timers[l]
      ensures TimerOk(s', l, g)
    {
      assert l != c.loop || g != c.fd ==> TimerOk(s, l, g);
    }
  }

  /** Reading or writing moves the connection's own timer, and only later. */
  lemma ServeMovesOwnTimer(s: Server, id: nat, next: Interest)
    requires Inv(s) && Enabled(s, ReadOrWrite(id, false, next)) && Live(s, id)
    ensures var c := s.conns[id];
      c.fd in s.timers[c.loop] && s.timers[c.loop][c.fd].cb == Some(id)
      && s.timers[c.loop][c.fd].expire <= s.now + s.timeout
    ensures Inv(Served(s, id, false, next))
  {
    assert OwnTimer(s, id);
    var s' := Served(s, id, false, next);
    var c := s.conns[id];
    assert forall i :: Live(s', i) <==> Live(s, i);
    forall i | Live(s', i) && s'.conns[i].registered
      ensures OwnTimer(s', i)
    {
      assert OwnTimer(s, i) && (i != id ==> s.conns[i].fd != c.fd);
    }
    forall l, g | 0 <= l < |s'.timers| && g in s'.timers[l]
      ensures TimerOk(s', l, g)
    {
      assert TimerOk(s, l, g);
    }
  }

  /** Shutting down after a read or write: the postponed timer is deleted, then the connection closed. */
  lemma ShutKeepsInv(s: Server, id: nat, next: Interest)
    requires Inv(s) && Enabled(s, ReadOrWrite(id, true, next)) && Live(s, id)
    ensures Inv(Served(s, id, true, next))
  {
    var c := s.conns[id];
    ServeMovesOwnTimer(s, id, c.interest);
    var moved := Served(s, id, false, c.interest);
    CloseKeepsInv(moved, id);
    var closed := Close(moved, id);
    assert OwnTimer(moved, id);
    DropKeepsInv(closed, c.loop, c.fd);
    assert Served(s, id, true, next) == WithTimers(closed, c.loop, Remove(closed.timers[c.loop], c.fd));
  }

  /** A read or write that goes on postpones the connection's own timer; one that shuts down ends it. */
  lemma ServedMeans(s: Server, id: nat, next: Interest)
    requires Inv(s) && Live(s, id) && s.conns[id].registered
    ensures LivesOn(s, Served(s, id, false, next), id, next) && Served(s, id, false, next).starting == s.starting
    ensures IsOver(s, Served(s, id, true, next), id) && Served(s, id, true, next).starting == s.starting
  {
    assert OwnTimer(s, id);
    hide TableOk, PhasesOk, TimersOk;
    assert Served(s, id, false, next).conns.Keys == s.conns.Keys;
    assert Served(s, id, true, next).conns.Keys == s.conns.Keys;
  }

  lemma FireKeepsInv(s: Server, loop: nat, fd: int)
    requires Inv(s) && Enabled(s, Fire(loop, fd))
    ensures Inv(Fired(s, loop, fd))
  {
    assert TimerOk(s, loop, fd);
    var id := s.timers[loop][fd].cb.value;
    CloseKeepsInv(s, id);
    DropKeepsInv(Close(s, id), loop, fd);
  }

  lemma DestroyKeepsInv(s: Server, id: nat)
    requires Inv(s) && Enabled(s, Destroy(id))
    ensures Inv(Apply(s, Destroy(id)))
  {
    var s' := Apply(s, Destroy(id));
    assert !Live(s, id);
    assert forall i :: Live(s', i) <==> Live(s, i);
    forall i | Live(s', i) && s'.conns[i].registered
      ensures OwnTimer(s', i)
    {
      assert OwnTimer(s, i);
    }
    forall l, g | 0 <= l < |s'.timers| && g in s'.timers[l]
      ensures TimerOk(s', l, g)
    {
      assert TimerOk(s, l, g);
    }
  }

  lemma TickKeepsInv(s: Server, t: nat)
    requires Inv(s) && s.now <= t
    ensures Inv(s.(now := t))
  {
    var s' := s.(now := t);
    assert forall i :: Live(s', i) <==> Live(s, i);
    forall i | Live(s', i) && s'.conns[i].registered
      ensures OwnTimer(s', i)
    {
      assert OwnTimer(s, i);
    }
    forall l, g | 0 <= l < |s'.timers| && g in s'.timers[l]
      ensures TimerOk(s', l, g)
    {
      assert TimerOk(s, l, g);
    }
  }

  lemma StepKeepsInv(s: Server, step: Step)
    requires Inv(s) && Enabled(s, step)
    ensures Inv(Apply(s, step))
  {
    hide TableOk, TimersOk;
    match step
    case Tick(t) => TickKeepsInv(s, t);
    case Accept(fd, loop) => AcceptKeepsInv(s, fd, loop);
    case Connect(id) => ConnectKeepsInv(s, id);
    case ReadOrWrite(id, shut, next) =>
      if Live(s, id) {
        if shut { ShutKeepsInv(s, id, next); } else { ServeMovesOwnTimer(s, id, next); }
      }
    case HangUp(id) => CloseKeepsInv(s, id);
    case Fire(loop, fd) => FireKeepsInv(s, loop, fd);
    case Destroy(id) => DestroyKeepsInv(s, id);
  }

  // ---------------------------------------------------------------- every run

  /** A run: the states visited, each by an enabled step from the one before. */
  ghost predicate Run(states: seq<Server>) {
    states != [] && Init(states[0])
    && forall i :: 0 < i < |states| ==> Follows(states[i - 1], states[i])
  }

  ghost predicate Follows(s: Server, s': Server) {
    LoopsExist(s) && exists step :: Enabled(s, step) && s' == Apply(s, step)
  }

  lemma {:induction false} RunKeepsInv(states: seq<Server>, i: nat)
    requires Run(states) && i < |states|
    ensures Inv(states[i])
  {
    if i > 0 {
      RunKeepsInv(states, i - 1);
      assert Follows(states[i - 1], states[i]);
      var step :| Enabled(states[i - 1], step) && states[i] == Apply(states[i - 1], step);
      StepKeepsInv(states[i - 1], step);
    }
  }

  /** In every run, each registered connection still in the table has exactly one timer bound to it,
      over all loops: the one under its descriptor in its own loop. */
  lemma OneTimerEach(states: seq<Server>, i: nat, id: nat)
    requires Run(states) && i < |states|
    requires Linked(states[i], id) && id in states[i].conns && states[i].conns[id].registered
    ensures var s := states[i];
      forall l, fd :: 0 <= l < |s.timers| && fd in s.timers[l] ==>
        (s.timers[l][fd].cb == Some(id) <==> l == s.conns[id].loop && fd == s.conns[id].fd)
    ensures var s := states[i];
      s.conns[id].loop < |s.timers| && s.conns[id].fd in s.timers[s.conns[id].loop]
  {
    var s := states[i];
    RunKeepsInv(states, i);
    assert OwnTimer(s, id);
    assert forall l, g :: 0 <= l < |s.timers| && g in s.timers[l] ==> TimerOk(s, l, g);
  }

  /** Every connection but `owner` is as it was, in the table too. */
  ghost predicate Undisturbed(s: Server, s': Server, owner: nat) {
    forall id :: id in s.conns && id != owner ==> (
      id in s'.conns && s'.conns[id] == s.conns[id] && (Linked(s, id) ==> Linked(s', id)))
  }

  /** A timer that fires disturbs no connection but the one it is bound to, whoever now holds the
      descriptor; and if that one was live, it had been silent for the whole timeout. */
  lemma FiringTouchesOnlyItsOwner(states: seq<Server>, i: nat, loop: nat, fd: int)
    requires Run(states) && i < |states| && Enabled(states[i], Fire(loop, fd))
    ensures var s := states[i];
      s.timers[loop][fd].cb.Some? && Undisturbed(s, Fired(s, loop, fd), s.timers[loop][fd].cb.value)
    ensures var s := states[i]; var owner := s.timers[loop][fd].cb.value;
      Live(s, owner) ==>
        !Live(Fired(s, loop, fd), owner) && s.conns[owner].lastActive + s.timeout <= s.now
  {
    var s := states[i];
    RunKeepsInv(states, i);
    assert TimerOk(s, loop, fd);
    var owner := s.timers[loop][fd].cb.value;
    if Live(s, owner) {
      assert OwnTimer(s, owner);
    }
    var s' := Fired(s, loop, fd);
    forall id | id in s.conns && id != owner && Linked(s, id)
      ensures Linked(s', id)
    {
      var g :| g in s.connects && s.connects[g] == id;
      assert s.conns[id].fd == g;
      assert g in s'.connects && s'.connects[g] == id;
    }
  }

  /** Every adjust in every run finds the connection's own timer and only postpones it, which is what
      the heap's adjust needs to stay in order. */
  lemma AdjustOnlyPostpones(states: seq<Server>, i: nat, id: nat, shut: bool, next: Interest)
    requires Run(states) && i < |states|
    requires Live(states[i], id) && Enabled(states[i], ReadOrWrite(id, shut, next))
    ensures var s := states[i]; var c := s.conns[id];
      c.loop < |s.timers| && c.fd in s.timers[c.loop] && s.timers[c.loop][c.fd].cb == Some(id)
      && s.timers[c.loop][c.fd].expire <= s.now + s.timeout
  {
    RunKeepsInv(states, i);
    ServeMovesOwnTimer(states[i], id, next);
  }
}
