/** The timer heap (haha_web/net/TimerHeap.cpp, haha_web/net/TimerHeap.h): a binary heap by expiry
    with an index from descriptor to position. */
module TimerHeap {
  import opened Text
  import Util

  /** A timer and what its callback would close; nullptr callbacks are None. */
  datatype Timer = Timer(fd: int, expire: nat, cb: Option<nat>)

  // ---------------------------------------------------------------- what the operations mean

  type Schedule = map<int, Timer>

  /** push: insert, or replace the timer of a descriptor already there. */
  function Push(m: Schedule, t: Timer): Schedule { m[t.fd := t] }

  /** adjust: a new expiry for a timer that is there; its callback stays. */
  function Adjust(m: Schedule, t: Timer): Schedule {
    if t.fd in m then m[t.fd := m[t.fd].(expire := t.expire)] else m
  }

  function Remove(m: Schedule, fd: int): Schedule { m - {fd} }

  /** The timers of all other descriptors are as they were. */
  predicate OthersSame(m: Schedule, m': Schedule, fd: int) {
    forall other <- m.Keys + m'.Keys :: other != fd ==> other in m && other in m' && m[other] == m'[other]
  }

  /** The new expiry does not bring the timer before another that it was not before already. A
      postponement never does. */
  predicate PassesNone(m: Schedule, t: Timer)
    requires t.fd in m
  {
    forall fd <- m :: fd != t.fd ==> m[fd].expire <= t.expire || m[t.fd].expire < m[fd].expire
  }

  predicate IsEarliest(m: Schedule, t: Timer) {
    t.fd in m && m[t.fd] == t && forall fd <- m :: t.expire <= m[fd].expire
  }

  // ---------------------------------------------------------------- positions

  function Parent(k: nat): nat
    requires k > 0
  {
    (k - 1) / 2
  }

  /** `int j = (i - 1) / 2` with i a 64-bit size_t: the parent, and -1 for the root. */
  function ParentIndex(i: nat): (j: int)
    requires i <= 0x8000_0000
    ensures i == 0 ==> j == -1
    ensures i > 0 ==> j == Parent(i)
  {
    var wrapped := if i == 0 then 0xFFFF_FFFF_FFFF_FFFF else i - 1;
    Util.Wrap32(wrapped / 2)
  }

  predicate Above(h: seq<Timer>, k: nat)
    requires 0 < k < |h|
  {
    h[Parent(k)].expire <= h[k].expire
  }

  /** Every timer among the first n expires no earlier than its parent. */
  ghost predicate Ordered(h: seq<Timer>, n: nat)
    requires n <= |h|
  {
    forall k :: 0 < k < n ==> Above(h, k)
  }

  /** The children of i expire no earlier than the parent of i. */
  ghost predicate Bridged(h: seq<Timer>, n: nat, i: nat)
    requires n <= |h|
  {
    forall k :: 0 < i < k < n && Parent(k) == i ==> h[Parent(i)].expire <= h[k].expire
  }

  /** Ordered but for position i, above or below. */
  ghost predicate OrderedBut(h: seq<Timer>, n: nat, i: nat)
    requires n <= |h|
  {
    (forall k :: 0 < k < n && k != i && Parent(k) != i ==> Above(h, k)) && Bridged(h, n, i)
  }

  ghost predicate OrderedButBelow(h: seq<Timer>, n: nat, i: nat)
    requires n <= |h|
  {
    (forall k :: 0 < k < n && Parent(k) != i ==> Above(h, k)) && Bridged(h, n, i)
  }

  ghost predicate OrderedButAbove(h: seq<Timer>, n: nat, i: nat)
    requires n <= |h|
  {
    (forall k :: 0 < k < n && k != i ==> Above(h, k)) && Bridged(h, n, i)
  }

  lemma {:induction false} RootIsEarliest(h: seq<Timer>, k: nat)
    requires k < |h| && Ordered(h, |h|)
    ensures h[0].expire <= h[k].expire
  {
    if k > 0 {
      assert Above(h, k);
      RootIsEarliest(h, Parent(k));
    }
  }

  // ---------------------------------------------------------------- the index

  /** ref_ and heap_ point at each other. */
  ghost predicate Indexed(h: seq<Timer>, ref: map<int, nat>) {
    (forall i :: 0 <= i < |h| ==> h[i].fd in ref && ref[h[i].fd] == i)
    && (forall fd <- ref :: ref[fd] < |h| && h[ref[fd]].fd == fd)
  }

  ghost function Contents(h: seq<Timer>, ref: map<int, nat>): Schedule
    requires Indexed(h, ref)
  {
    map fd | fd in ref :: h[ref[fd]]
  }

  /** Descriptors are non-negative ints. */
  ghost predicate Descriptors(h: seq<Timer>) {
    forall i :: 0 <= i < |h| ==> 0 <= h[i].fd <= Util.INT_MAX
  }

  /** Distinct descriptors bound the size of the heap, so positions fit the int conversions. */
  lemma SizeBound(h: seq<Timer>, ref: map<int, nat>)
    requires Indexed(h, ref) && Descriptors(h)
    ensures |h| <= 0x8000_0000
  {
    var fds := seq(|h|, i requires 0 <= i < |h| => h[i].fd);
    forall i, j | 0 <= i < j < |fds|
      ensures fds[i] != fds[j]
    {
      assert ref[h[i].fd] == i && ref[h[j].fd] == j;
    }
    Pigeonhole(fds, Util.INT_MAX + 1);
  }

  lemma {:induction false} Pigeonhole(s: seq<int>, n: nat)
    requires forall i :: 0 <= i < |s| ==> 0 <= s[i] < n
    requires forall i, j :: 0 <= i < j < |s| ==> s[i] != s[j]
    ensures |s| <= n
  {
    assert |s| > 0 ==> 0 <= s[0] < n;
    if n > 0 {
      if i :| 0 <= i < |s| && s[i] == n - 1 {
        Pigeonhole(s[..i] + s[i + 1..], n - 1);
      } else {
        Pigeonhole(s, n - 1);
      }
    }
  }

  lemma SwapKeeps(h: seq<Timer>, ref: map<int, nat>, i: nat, j: nat)
    requires Indexed(h, ref) && i < |h| && j < |h|
    ensures var h' := h[i := h[j]][j := h[i]];
      var ref' := ref[h[j].fd := i][h[i].fd := j];
      Indexed(h', ref') && Contents(h', ref') == Contents(h, ref)
  {
    var h' := h[i := h[j]][j := h[i]];
    var ref' := ref[h[j].fd := i][h[i].fd := j];
    assert ref'.Keys == ref.Keys;
    forall fd <- ref
      ensures ref'[fd] < |h| && h'[ref'[fd]] == h[ref[fd]]
    {
      assert ref[h[i].fd] == i && ref[h[j].fd] == j;
    }
  }

  class Heap {
    var heap: seq<Timer>
    var ref: map<int, nat>

    ghost predicate Valid()
      reads this
    {
      Indexed(heap, ref) && Descriptors(heap)
    }

    ghost predicate InOrder()
      reads this
    {
      Ordered(heap, |heap|)
    }

    ghost function Timers(): Schedule
      reads this
      requires Valid()
    {
      Contents(heap, ref)
    }

    constructor ()
      ensures Valid() && InOrder() && Timers() == map[]
    {
      heap, ref := [], map[];
    }

    method SwapNode(i: nat, j: nat)
      requires Valid() && i < |heap| && j < |heap|
      modifies this
      ensures heap == old(heap)[i := old(heap)[j]][j := old(heap)[i]]
      ensures Valid() && Timers() == old(Timers())
    {
      SwapKeeps(heap, ref, i, j);
      heap := heap[i := heap[j]][j := heap[i]];
      ref := ref[heap[i].fd := i];
      ref := ref[heap[j].fd := j];
    }

    /** Sift up: swap with the parent until it expires strictly earlier. */
    method SiftUp(start: nat, ghost n: nat)
      requires Valid() && start < n <= |heap|
      requires OrderedButAbove(heap, n, start)
      modifies this
      ensures Valid() && Timers() == old(Timers()) && |heap| == old(|heap|)
      ensures Ordered(heap, n)
      ensures forall k :: n <= k < |heap| ==> heap[k] == old(heap[k])
    {
      SizeBound(heap, ref);
      var i: nat := start;
      var j := ParentIndex(i);
      while j >= 0
        invariant Valid() && Timers() == old(Timers()) && |heap| == old(|heap|)
        invariant i < n <= 0x8000_0000 && j == ParentIndex(i)
        invariant OrderedButAbove(heap, n, i)
        invariant forall k :: n <= k < |heap| ==> heap[k] == old(heap[k])
        decreases j
      {
        if heap[j].expire < heap[i].expire {
          break;
        }
        ghost var before := heap;
        SwapNode(i, j);
        UpSwap(before, heap, n, i);
        i := j;
        j := ParentIndex(i);
      }
    }

    /** Sift down among the first n: swap with the earlier child until it expires strictly later;
        says whether anything moved. */
    method SiftDown(index: nat, n: nat) returns (moved: bool)
      requires Valid() && index < n <= |heap|
      requires OrderedBut(heap, n, index)
      modifies this
      ensures Valid() && Timers() == old(Timers()) && |heap| == old(|heap|)
      ensures if moved then Ordered(heap, n) else OrderedButAbove(heap, n, index) && heap == old(heap)
      ensures moved ==>
        exists c :: index < c < n && Parent(c) == index && old(heap)[c].expire <= old(heap)[index].expire
      ensures forall k :: n <= k < |heap| ==> heap[k] == old(heap[k])
    {
      hide Indexed, Contents, Descriptors, OrderedBut, OrderedButBelow, Ordered, OrderedButAbove;
      var i := index;
      var j := i * 2 + 1;
      ghost var first := index;
      while j < n
        invariant Valid() && Timers() == old(Timers()) && |heap| == old(|heap|)
        invariant index <= i < n && j == i * 2 + 1
        invariant OrderedBut(heap, n, i) && (i == index ==> heap == old(heap))
        invariant i > index ==> OrderedButBelow(heap, n, i) && index < first < n && Parent(first) == index
        invariant i > index ==> old(heap)[first].expire <= old(heap)[index].expire
        invariant forall k :: n <= k < |heap| ==> heap[k] == old(heap[k])
        decreases n - i
      {
        if j + 1 < n && heap[j + 1].expire < heap[j].expire {
          j := j + 1;
        }
        if heap[i].expire < heap[j].expire {
          break;
        }
        ghost var before := heap;
        if i == index {
          first := j;
        }
        SwapNode(i, j);
        DownSwap(before, heap, n, i, j);
        i := j;
        j := i * 2 + 1;
      }
      assert j < n ==> j == 2 * i + 1 || j == 2 * i + 2;
      DownEnd(heap, n, i, i > index);
      return i > index;
    }

    /** del_: move the timer to the back, restore the order of the others, drop it. */
    method Del(index: nat)
      requires Valid() && InOrder() && index < |heap|
      modifies this
      ensures Valid() && InOrder()
      ensures Timers() == Remove(old(Timers()), old(heap)[index].fd)
    {
      hide Indexed, Contents, Descriptors, OrderedBut, OrderedButAbove, Ordered;
      var n := |heap| - 1;
      ghost var before := heap;
      if index < n {
        SwapNode(index, n);
        SwapOut(before, heap, index);
        var moved := SiftDown(index, n);
        if !moved {
          SiftUp(index, n);
        }
      } else {
        FewerOrdered(heap, n);
      }
      assert heap[n] == before[index];
      DropLast(heap, ref);
      OrderedPrefix(heap, n);
      ref := ref - {heap[n].fd};
      heap := heap[..n];
    }

    /** push: a new timer, or a new expiry and callback for a descriptor already there. */
    method PushTimer(timer: Timer)
      requires Valid() && InOrder() && 0 <= timer.fd <= Util.INT_MAX
      modifies this
      ensures Valid() && InOrder()
      ensures Timers() == Push(old(Timers()), timer)
      ensures timer.fd in Timers() && Timers()[timer.fd] == timer && OthersSame(old(Timers()), Timers(), timer.fd)
    {
      if timer.fd !in ref {
        var i := |heap|;
        ghost var before := heap;
        ref := ref[timer.fd := i];
        heap := heap + [timer];
        AppendEntry(before, old(ref), timer);
        NewLeaf(before, timer);
        SiftUp(i, i + 1);
      } else {
        var i := ref[timer.fd];
        ghost var before := heap;
        heap := heap[i := timer];
        ReplaceEntry(before, ref, i, timer);
        Retimed(before, timer, i);
        var moved := SiftDown(i, |heap|);
        if !moved {
          SiftUp(i, |heap|);
        }
      }
    }

    /** adjust only sifts down: the order survives exactly when the new expiry is not before the
        parent's, in particular when the timer is postponed. */
    method AdjustTimer(timer: Timer)
      requires Valid() && InOrder()
      modifies this
      ensures Valid()
      ensures Timers() == Adjust(old(Timers()), timer)
      ensures timer.fd in Timers() <==> timer.fd in old(Timers())
      ensures timer.fd in Timers() ==>
        Timers()[timer.fd] == Timer(timer.fd, timer.expire, old(Timers())[timer.fd].cb)
      ensures OthersSame(old(Timers()), Timers(), timer.fd)
      ensures InOrder() <==>
        timer.fd in old(ref) ==>
          var pos := old(ref)[timer.fd]; pos == 0 || old(heap)[Parent(pos)].expire <= timer.expire
      ensures timer.fd in old(Timers()) && PassesNone(old(Timers()), timer) ==> InOrder()
    {
      if timer.fd in ref {
        var pos := ref[timer.fd];
        ghost var before, ref0 := heap, ref;
        heap := heap[pos := heap[pos].(expire := timer.expire)];
        ReplaceEntry(before, ref, pos, heap[pos]);
        Retimed(before, heap[pos], pos);
        assert pos > 0 ==> Above(before, pos);
        ghost var retimed := heap;
        var moved := SiftDown(pos, |heap|);
        AdjustOutcome(before, retimed, heap, pos, moved);
        if pos > 0 && PassesNone(Contents(before, ref0), timer) {
          NotBeforeParent(before, ref0, pos, timer);
        }
      }
    }

    method RemoveTimer(fd: int)
      requires Valid() && InOrder()
      modifies this
      ensures Valid() && InOrder()
      ensures Timers() == Remove(old(Timers()), fd)
      ensures fd !in Timers() && OthersSame(old(Timers()), Timers(), fd)
    {
      if fd in ref {
        Del(ref[fd]);
      }
    }

    function IsEmpty(): (e: bool)
      reads this
      requires Valid()
      ensures e <==> Timers() == map[]
    {
      assert heap != [] ==> heap[0].fd in Timers();
      assert forall fd :: fd in Timers() ==> ref[fd] < |heap|;
      heap == []
    }

    /** top: a timer no other expires before. */
    function Top(): (t: Timer)
      reads this
      requires Valid() && InOrder() && !IsEmpty()
      ensures IsEarliest(Timers(), t)
    {
      assert forall k :: 0 <= k < |heap| ==> heap[0].expire <= heap[k].expire by {
        forall k | 0 <= k < |heap| ensures heap[0].expire <= heap[k].expire { RootIsEarliest(heap, k); }
      }
      heap[0]
    }

    /** pop: delete the timer top returns. */
    method Pop()
      requires Valid() && InOrder() && !IsEmpty()
      modifies this
      ensures Valid() && InOrder()
      ensures Timers() == Remove(old(Timers()), old(Top()).fd)
      ensures old(Top()).fd !in Timers() && OthersSame(old(Timers()), Timers(), old(Top()).fd)
    {
      Del(0);
    }
  }

  lemma SwapOut(h: seq<Timer>, h': seq<Timer>, i: nat)
    requires i < |h| - 1 && Ordered(h, |h|)
    requires h' == h[i := h[|h| - 1]][|h| - 1 := h[i]]
    ensures OrderedBut(h', |h| - 1, i)
  {
    forall k | 0 < k < |h| - 1 && k != i && Parent(k) != i
      ensures Above(h', k)
    {
      assert Above(h, k);
    }
    GrandParents(h, i);
  }

  /** In an ordered heap the children of i expire no earlier than the parent of i. */
  lemma GrandParents(h: seq<Timer>, i: nat)
    requires Ordered(h, |h|)
    ensures Bridged(h, |h|, i)
  {
    forall k | 0 < i < k < |h| && Parent(k) == i
      ensures h[Parent(i)].expire <= h[k].expire
    {
      assert Above(h, i) && Above(h, k);
    }
  }

  lemma NewLeaf(h: seq<Timer>, t: Timer)
    requires Ordered(h, |h|)
    ensures OrderedButAbove(h + [t], |h| + 1, |h|)
  {
    forall k | 0 < k < |h|
      ensures Above(h + [t], k)
    {
      assert Above(h, k);
    }
  }

  lemma Retimed(h: seq<Timer>, t: Timer, i: nat)
    requires i < |h| && Ordered(h, |h|)
    ensures OrderedBut(h[i := t], |h|, i)
  {
    forall k | 0 < k < |h| && k != i && Parent(k) != i
      ensures Above(h[i := t], k)
    {
      assert Above(h, k);
    }
    GrandParents(h, i);
  }

  /** After a change at pos and a sift down: in order exactly when pos is not before its parent. */
  lemma AdjustOutcome(h: seq<Timer>, retimed: seq<Timer>, h': seq<Timer>, pos: nat, moved: bool)
    requires pos < |h| == |retimed| == |h'| && Ordered(h, |h|)
    requires retimed == h[pos := retimed[pos]]
    requires if moved then Ordered(h', |h|) else OrderedButAbove(h', |h|, pos) && h' == retimed
    requires moved ==> exists c :: pos < c < |h| && Parent(c) == pos && retimed[c].expire <= retimed[pos].expire
    ensures Ordered(h', |h|) <==> pos == 0 || h[Parent(pos)].expire <= retimed[pos].expire
  {
    GrandParents(h, pos);
    if !moved && pos > 0 {
      assert Above(h', pos) <==> h[Parent(pos)].expire <= retimed[pos].expire;
    }
  }

  lemma NotBeforeParent(h: seq<Timer>, ref: map<int, nat>, pos: nat, t: Timer)
    requires Indexed(h, ref) && Ordered(h, |h|) && 0 < pos < |h| && h[pos].fd == t.fd
    requires PassesNone(Contents(h, ref), t)
    ensures h[Parent(pos)].expire <= t.expire
  {
    assert Above(h, pos);
    var p := h[Parent(pos)];
    assert ref[p.fd] == Parent(pos) && Contents(h, ref)[p.fd] == p && Contents(h, ref)[t.fd] == h[pos];
  }

  /** Of two timers the earlier is at the root. */
  lemma TwoTimers(h: seq<Timer>, ref: map<int, nat>)
    requires Indexed(h, ref) && Ordered(h, |h|)
    requires Contents(h, ref) == map[1 := Timer(1, 5, None), 2 := Timer(2, 7, None)]
    ensures ref.Keys == {1, 2} && ref[2] > 0 && h[Parent(ref[2])] == Timer(1, 5, None)
  {
    var m := Contents(h, ref);
    assert m.Keys == {1, 2} && m[1] == h[ref[1]] && m[2] == h[ref[2]];
    assert ref.Keys == m.Keys;
    RootIsEarliest(h, ref[1]);
    assert h[0].expire <= h[ref[1]].expire == 5 < h[ref[2]].expire;
    var p := h[Parent(ref[2])];
    assert p.fd in ref && ref[p.fd] == Parent(ref[2]) != ref[2];
  }

  /** A timer brought forward past its parent stays below it: two pushes and an adjust leave a heap out
      of order, and top then returns a timer that is not the earliest. */
  method AdjustOutOfOrder() returns (h: Heap)
    ensures fresh(h) && h.Valid() && !h.InOrder()
    ensures h.heap != [] && !IsEarliest(h.Timers(), h.heap[0])
  {
    h := new Heap();
    h.PushTimer(Timer(1, 5, None));
    h.PushTimer(Timer(2, 7, None));
    TwoTimers(h.heap, h.ref);
    h.AdjustTimer(Timer(2, 3, None));
    WrongRoot(h.heap, h.ref);
  }

  lemma WrongRoot(h: seq<Timer>, ref: map<int, nat>)
    requires Indexed(h, ref) && !Ordered(h, |h|)
    requires Contents(h, ref) == map[1 := Timer(1, 5, None), 2 := Timer(2, 3, None)]
    ensures h != [] && !IsEarliest(Contents(h, ref), h[0])
  {
    var m := Contents(h, ref);
    assert m.Keys == {1, 2} == ref.Keys && m[1] == h[ref[1]] && m[2] == h[ref[2]];
    assert forall k :: 0 <= k < |h| ==> h[k].fd in ref && h[k] == m[h[k].fd];
    var k :| 0 < k < |h| && !Above(h, k);
    assert h[k].fd == 2 && ref[h[k].fd] == k && ref[h[0].fd] == 0;
    assert h[0].fd == 1;
  }

  lemma OrderedPrefix(h: seq<Timer>, n: nat)
    requires n <= |h| && Ordered(h, n)
    ensures Ordered(h[..n], n)
  {
    forall k | 0 < k < n
      ensures Above(h[..n], k)
    {
      assert Above(h, k);
    }
  }

  lemma FewerOrdered(h: seq<Timer>, n: nat)
    requires n <= |h| && Ordered(h, |h|)
    ensures Ordered(h, n)
  {
  }

  lemma DropLast(h: seq<Timer>, ref: map<int, nat>)
    requires Indexed(h, ref) && Descriptors(h) && h != []
    ensures var last := h[|h| - 1].fd; var h' := h[..|h| - 1];
      Indexed(h', ref - {last}) && Descriptors(h') && Contents(h', ref - {last}) == Remove(Contents(h, ref), last)
  {
    var last := h[|h| - 1].fd;
    var ref' := ref - {last};
    assert Contents(h, ref).Keys == ref.Keys;
    forall fd <- ref'
      ensures ref'[fd] < |h| - 1
    {
      assert h[ref[fd]].fd == fd;
    }
  }

  lemma AppendEntry(h: seq<Timer>, ref: map<int, nat>, t: Timer)
    requires Indexed(h, ref) && t.fd !in ref
    ensures Indexed(h + [t], ref[t.fd := |h|])
    ensures Contents(h + [t], ref[t.fd := |h|]) == Push(Contents(h, ref), t)
  {
    assert Contents(h + [t], ref[t.fd := |h|]).Keys == Push(Contents(h, ref), t).Keys;
    forall fd <- ref
      ensures (h + [t])[ref[fd]] == h[ref[fd]]
    {
    }
  }

  lemma ReplaceEntry(h: seq<Timer>, ref: map<int, nat>, i: nat, t: Timer)
    requires Indexed(h, ref) && i < |h| && t.fd == h[i].fd
    ensures Indexed(h[i := t], ref)
    ensures Contents(h[i := t], ref) == Push(Contents(h, ref), t)
  {
    forall fd <- ref
      ensures h[i := t][ref[fd]] == if fd == t.fd then t else h[ref[fd]]
    {
    }
  }

  /** Nothing left to sift down: the children, if any, expire later. */
  lemma DownEnd(h: seq<Timer>, n: nat, i: nat, moved: bool)
    requires i < n <= |h|
    requires if moved then OrderedButBelow(h, n, i) else OrderedBut(h, n, i)
    requires forall k :: 0 < k < n && Parent(k) == i ==> h[i].expire <= h[k].expire
    ensures if moved then Ordered(h, n) else OrderedButAbove(h, n, i)
  {
    forall k | 0 < k < n && (moved || k != i)
      ensures Above(h, k)
    {
    }
  }

  lemma UpSwap(h: seq<Timer>, h': seq<Timer>, n: nat, i: nat)
    requires 0 < i < n <= |h| && OrderedButAbove(h, n, i)
    requires h[i].expire <= h[Parent(i)].expire
    requires h' == h[i := h[Parent(i)]][Parent(i) := h[i]]
    ensures OrderedButAbove(h', n, Parent(i))
  {
    var j := Parent(i);
    forall k | 0 < k < n && k != j
      ensures Above(h', k)
    {
      assert k != i ==> Above(h, k);
      assert j > 0 ==> Above(h, j);
    }
    if j > 0 {
      assert Above(h, j);
      forall k | j < k < n && Parent(k) == j
        ensures h'[Parent(j)].expire <= h'[k].expire
      {
        assert k != i ==> Above(h, k);
      }
    }
  }

  predicate IsEarlierChild(h: seq<Timer>, n: nat, i: nat, j: nat)
    requires i < j < n <= |h|
  {
    || (j == 2 * i + 1 && (j + 1 < n ==> h[j].expire <= h[j + 1].expire))
    || (j == 2 * i + 2 && h[j].expire < h[j - 1].expire)
  }

  lemma EarlierChild(h: seq<Timer>, n: nat, i: nat, j: nat)
    requires i < j < n <= |h| && IsEarlierChild(h, n, i, j)
    ensures Parent(j) == i
    ensures forall k :: 0 < k < n && Parent(k) == i ==> h[j].expire <= h[k].expire
  {
    assert forall k :: 0 < k && Parent(k) == i ==> k == 2 * i + 1 || k == 2 * i + 2;
  }

  lemma DownSwap(h: seq<Timer>, h': seq<Timer>, n: nat, i: nat, j: nat)
    requires i < j < n <= |h| && OrderedBut(h, n, i) && IsEarlierChild(h, n, i, j)
    requires h[j].expire <= h[i].expire
    requires h' == h[i := h[j]][j := h[i]]
    ensures OrderedBut(h', n, j) && OrderedButBelow(h', n, j)
  {
    EarlierChild(h, n, i, j);
    forall k | 0 < k < n && Parent(k) != j
      ensures Above(h', k)
    {
      assert k != i && Parent(k) != i ==> Above(h, k);
    }
    forall k | j < k < n && Parent(k) == j
      ensures h'[Parent(j)].expire <= h'[k].expire
    {
      assert Above(h, k);
    }
  }
}
