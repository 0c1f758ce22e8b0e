/** The timer queue (haha_web/net/TimerQueue.cpp): a heap drained by expiry. */
module TimerQueue {
  import opened TimerHeap

  /** The timers left after a drain at `now`. */
  function Pending(m: Schedule, now: nat): Schedule {
    map fd | fd in m && m[fd].expire > now :: m[fd]
  }

  /** The timers of m that have expired, each once, in order of expiry. */
  ghost predicate FiresExactly(fired: seq<Timer>, m: Schedule, now: nat) {
    && (forall i :: 0 <= i < |fired| ==> fired[i].fd in m && m[fired[i].fd] == fired[i] && fired[i].expire <= now)
    && (forall fd <- m :: m[fd].expire <= now ==> m[fd] in fired)
    && (forall i, j :: 0 <= i < j < |fired| ==> fired[i].fd != fired[j].fd && fired[i].expire <= fired[j].expire)
  }

  class Queue {
    const timers: Heap

    ghost predicate Valid()
      reads this, timers
    {
      timers.Valid() && timers.InOrder()
    }

    constructor ()
      ensures Valid() && fresh(timers) && timers.Timers() == map[]
    {
      timers := new Heap();
    }

    /** handleTimeout at time `now`, with callbacks that leave this heap alone, as the server's own
        callback does. `fired` is the sequence of timers whose callback ran. */
    method HandleTimeout(now: nat) returns (fired: seq<Timer>)
      requires Valid()
      modifies timers
      ensures Valid()
      ensures timers.Timers() == Pending(old(timers.Timers()), now)
      ensures FiresExactly(fired, old(timers.Timers()), now)
    {
      ghost var m := timers.Timers();
      fired := [];
      while !timers.IsEmpty()
        invariant Valid() && Partway(fired, timers.Timers(), m, now)
        decreases |timers.Timers()|
      {
        var timer := timers.Top();
        if timer.expire <= now {
          FireOne(fired, timers.Timers(), m, now, timer);
          fired := fired + [timer];
          timers.Pop();
        } else {
          break;
        }
      }
      FiredAll(fired, timers.Timers(), m, now);
    }
  }

  /** During the drain: what has fired and what is left make up m, nothing left expires before
      anything fired. */
  ghost predicate Partway(fired: seq<Timer>, left: Schedule, m: Schedule, now: nat) {
    && (forall fd <- left :: fd in m && left[fd] == m[fd])
    && (forall fd <- m :: fd in left || m[fd] in fired)
    && (forall i :: 0 <= i < |fired| ==>
          fired[i].fd in m && m[fired[i].fd] == fired[i] && fired[i].expire <= now && fired[i].fd !in left)
    && (forall i, j :: 0 <= i < j < |fired| ==> fired[i].fd != fired[j].fd && fired[i].expire <= fired[j].expire)
    && (forall i, fd :: 0 <= i < |fired| && fd in left ==> fired[i].expire <= left[fd].expire)
  }

  lemma FireOne(fired: seq<Timer>, left: Schedule, m: Schedule, now: nat, t: Timer)
    requires Partway(fired, left, m, now) && IsEarliest(left, t) && t.expire <= now
    ensures Partway(fired + [t], Remove(left, t.fd), m, now)
    ensures |Remove(left, t.fd)| < |left|
  {
    var left' := Remove(left, t.fd);
    assert left'.Keys == left.Keys - {t.fd};
    assert |left'| == |left'.Keys| && |left| == |left.Keys|;
    forall fd <- m
      ensures fd in left' || m[fd] in fired + [t]
    {
    }
  }

  lemma FiredAll(fired: seq<Timer>, left: Schedule, m: Schedule, now: nat)
    requires Partway(fired, left, m, now)
    requires forall fd <- left :: left[fd].expire > now
    ensures left == Pending(m, now) && FiresExactly(fired, m, now)
  {
    forall fd <- m
      ensures fd in left <==> m[fd].expire > now
    {
      assert m[fd] in fired ==> exists i :: 0 <= i < |fired| && fired[i] == m[fd];
    }
    var pending := Pending(m, now);
    assert forall fd :: fd in left <==> fd in pending;
    assert forall fd :: fd in left ==> left[fd] == pending[fd];
  }
}
