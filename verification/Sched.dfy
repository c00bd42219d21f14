// Threads, the round-robin scheduler, sleeping mutexes and wait queues.  Every queue threads
// through the one next link of its members.
module Sched {
  import Counting

  type Tid = nat    // 0 is the null pointer
  type Qid = nat    // a mutex or a wait queue

  datatype TState = READY | RUNNING | SLEEPING | BLOCKED | ZOMBIE

  // Where a thread is.
  datatype Place = Cur | IdleP | InReady | InSleep | InWait(q: Qid) | InJoin(t: Tid) | Loose | Exited | Gone

  // ---- lists through the shared link ------------------------------------------------------------------

  function At(q: seq<Tid>, i: nat): Tid { if i < |q| then q[i] else 0 }

  function Last(q: seq<Tid>): Tid { if q == [] then 0 else q[|q| - 1] }

  ghost predicate Linked(next: seq<Tid>, q: seq<Tid>, i: nat)
    requires i < |q|
  {
    0 < q[i] < |next| && next[q[i]] == At(q, i + 1)
  }

  // head starts an acyclic list that holds exactly q, in order.
  ghost predicate List(next: seq<Tid>, head: Tid, q: seq<Tid>) {
    && head == At(q, 0) && Counting.Distinct(q)
    && forall i: nat {:trigger Linked(next, q, i)} :: i < |q| ==> Linked(next, q, i)
  }

  lemma ListMember(next: seq<Tid>, head: Tid, q: seq<Tid>, t: Tid)
    requires List(next, head, q) && t in q
    ensures 0 < t < |next|
  {
    var i: nat :| i < |q| && q[i] == t;
    assert Linked(next, q, i);
  }

  lemma ListFrame(next: seq<Tid>, next': seq<Tid>, head: Tid, q: seq<Tid>)
    requires List(next, head, q) && |next'| >= |next| && forall t :: t in q && t < |next| ==> next'[t] == next[t]
    ensures List(next', head, q)
  {
    forall i: nat | i < |q| ensures Linked(next', q, i) { assert Linked(next, q, i); }
  }

  lemma ListAppend(next: seq<Tid>, head: Tid, q: seq<Tid>, t: Tid)
    requires List(next, head, q) && 0 < t < |next| && t !in q
    ensures q != [] ==> 0 < Last(q) < |next|
    ensures var next1 := next[t := 0];
      List(if q == [] then next1 else next1[Last(q) := t], if q == [] then t else head, q + [t])
  {
    if q != [] { assert Linked(next, q, |q| - 1); }
    var next1 := next[t := 0];
    var next2 := if q == [] then next1 else next1[Last(q) := t];
    forall i: nat | i < |q + [t]| ensures Linked(next2, q + [t], i) {
      if i < |q| { assert Linked(next, q, i); }
    }
  }

  lemma ListPop(next: seq<Tid>, head: Tid, q: seq<Tid>)
    requires List(next, head, q) && q != []
    ensures head == q[0] && 0 < head < |next| && List(next[head := 0], next[head], q[1..])
    ensures next[head] == 0 <==> |q| == 1
  {
    assert Linked(next, q, 0);
    if |q| > 1 { assert Linked(next, q, 1); }
    var rest, next' := q[1..], next[head := 0];
    forall i: nat | i < |rest| ensures Linked(next', rest, i) {
      assert Linked(next, q, i + 1);
      assert rest[i] == q[i + 1] != head;
    }
  }

  // Insert t behind the first k elements.
  function InsertAt(q: seq<Tid>, k: nat, t: Tid): (q': seq<Tid>)
    requires k <= |q|
    ensures |q'| == |q| + 1
    ensures forall i: nat :: i < |q'| ==> q'[i] == if i < k then q[i] else if i == k then t else q[i - 1]
  {
    q[..k] + [t] + q[k..]
  }

  lemma ListInsert(next: seq<Tid>, head: Tid, q: seq<Tid>, k: nat, t: Tid)
    requires List(next, head, q) && 0 < t < |next| && t !in q && k <= |q|
    ensures k > 0 ==> 0 < q[k - 1] < |next|
    ensures var next1 := next[t := At(q, k)];
      List(if k == 0 then next1 else next1[q[k - 1] := t], if k == 0 then t else head, InsertAt(q, k, t))
  {
    var q' := InsertAt(q, k, t);
    if k > 0 { assert Linked(next, q, k - 1); }
    var next1 := next[t := At(q, k)];
    var next2 := if k == 0 then next1 else next1[q[k - 1] := t];
    forall i: nat | i < |q'| ensures Linked(next2, q', i) {
      if i < k {
        assert Linked(next, q, i);
        assert i < k - 1 ==> q[i] != q[k - 1];
      } else if i > k {
        assert Linked(next, q, i - 1);
        assert k > 0 ==> q[k - 1] != q[i - 1];
      }
    }
  }

  // ---- the sleep list --------------------------------------------------------------------------------------

  ghost predicate Ordered(wake: seq<nat>, t: Tid, u: Tid) { t < |wake| && u < |wake| && wake[t] <= wake[u] }

  ghost predicate Sorted(q: seq<Tid>, wake: seq<nat>) {
    forall i, j :: 0 <= i < j < |q| ==> Ordered(wake, q[i], q[j])
  }

  // Behind everyone due no later: stable insertion.
  ghost predicate Behind(q: seq<Tid>, wake: seq<nat>, k: nat, tick: nat) {
    && k <= |q|
    && (forall i :: 0 <= i < |q| ==> q[i] < |wake|)
    && (forall i :: 0 <= i < k ==> wake[q[i]] <= tick)
    && (k < |q| ==> wake[q[k]] > tick)
  }

  lemma InsertSorted(q: seq<Tid>, wake: seq<nat>, k: nat, t: Tid)
    requires t < |wake| && Sorted(q, wake) && Behind(q, wake, k, wake[t])
    ensures Sorted(InsertAt(q, k, t), wake)
  {
    var q' := InsertAt(q, k, t);
    assert forall i: nat :: i < |q'| ==> q'[i] == if i < k then q[i] else if i == k then t else q[i - 1];
  }

  // Whoever is due no later stays in front, in the same place, also on a tie; everyone else moves back by one.
  lemma SleepStable(q: seq<Tid>, wake: seq<nat>, k: nat, t: Tid, tick: nat, i: nat)
    requires Sorted(q, wake) && Behind(q, wake, k, tick) && i < |q|
    ensures InsertAt(q, k, t)[k] == t
    ensures if wake[q[i]] <= tick then i < k && InsertAt(q, k, t)[i] == q[i]
      else k <= i && InsertAt(q, k, t)[i + 1] == q[i]
  {
    if k < i { assert Ordered(wake, q[k], q[i]); }
  }

  // ---- all queues together ---------------------------------------------------------------------------------

  datatype Ends = Ends(head: Tid, tail: Tid)

  // q holds exactly the threads at place p.
  ghost predicate Holds(q: seq<Tid>, place: seq<Place>, p: Place) {
    forall t: nat :: t < |place| ==> (t in q <==> place[t] == p)
  }

  // A tail-pointer queue of the threads at place p.
  ghost predicate Queue(next: seq<Tid>, e: Ends, q: seq<Tid>, place: seq<Place>, p: Place) {
    List(next, e.head, q) && e.tail == Last(q) && Holds(q, place, p)
  }

  predicate OnList(p: Place) { p.InReady? || p.InSleep? || p.InWait? }

  // A change of links and places that leaves the threads at place p alone.
  lemma QueueFrame(next: seq<Tid>, next': seq<Tid>, e: Ends, q: seq<Tid>, place: seq<Place>, place': seq<Place>,
                   p: Place)
    requires Queue(next, e, q, place, p) && |next'| >= |next| == |place| && |place'| == |next'|
    requires forall t: nat :: t < |next| && place[t] == p ==> next'[t] == next[t]
    requires forall t: nat :: t < |place| ==> (place'[t] == p <==> place[t] == p)
    requires forall t: nat :: |place| <= t < |place'| ==> place'[t] != p
    ensures Queue(next', e, q, place', p)
  {
    forall t | t in q ensures t < |next| { ListMember(next, e.head, q, t); }
    ListFrame(next, next', e.head, q);
  }

  // Append t at the tail: the same steps for the ready queue, a mutex and a pipe.
  function Pushed(next: seq<Tid>, e: Ends, t: Tid): seq<Tid>
    requires 0 < t < |next| && e.tail < |next|
  {
    if e.tail == 0 then next[t := 0] else next[t := 0][e.tail := t]
  }

  function PushedEnds(e: Ends, t: Tid): Ends { Ends(if e.tail == 0 then t else e.head, t) }

  lemma QueueAppend(next: seq<Tid>, e: Ends, q: seq<Tid>, place: seq<Place>, p: Place, t: Tid)
    requires Queue(next, e, q, place, p) && 0 < t < |next| == |place| && place[t] != p
    ensures e.tail < |next| && Queue(Pushed(next, e, t), PushedEnds(e, t), q + [t], place[t := p], p)
    ensures e.tail != 0 ==> place[e.tail] == p
  {
    ListAppend(next, e.head, q, t);
    if q != [] { assert Last(q) in q; }
  }

  // Take the head off.
  lemma QueuePop(next: seq<Tid>, e: Ends, q: seq<Tid>, place: seq<Place>, p: Place, p': Place)
    requires Queue(next, e, q, place, p) && q != [] && |next| == |place| && p' != p
    ensures e.head == q[0] && 0 < e.head < |next| && place[e.head] == p
    ensures var n := next[e.head];
      Queue(next[e.head := 0], Ends(n, if n == 0 then 0 else e.tail), q[1..], place[e.head := p'], p)
  {
    ListPop(next, e.head, q);
    assert q[0] in q;
    assert q == [q[0]] + q[1..];
  }

  lemma QueueEmpty(next: seq<Tid>, e: Ends, q: seq<Tid>, place: seq<Place>, p: Place)
    requires Queue(next, e, q, place, p)
    ensures e.head == 0 <==> q == []
    ensures e.tail == 0 <==> q == []
  {
    if q != [] {
      assert Linked(next, q, 0);
      assert Linked(next, q, |q| - 1);
    }
  }

  // ---- states, joins and locks --------------------------------------------------------------------------------

  // A thread inside mutex_lock or thread_join, past the point where it blocked.
  datatype Pend = PLock(m: Qid) | PJoin(t: Tid)

  predicate Over(p: Place) { p.Exited? || p.Gone? }

  // Running, about to run, asleep or in hand: nothing a join or a lock depends on.
  predicate Plain(p: Place) { p.Cur? || p.IdleP? || p.InReady? || p.InSleep? || p.Loose? }

  predicate StateOk(p: Place, s: TState) {
    match p
    case Cur => s == RUNNING
    case InReady => s == READY
    case InSleep => s == SLEEPING
    case InWait(_) => s == BLOCKED
    case InJoin(_) => s == BLOCKED
    case Exited => s == ZOMBIE
    case _ => true
  }

  ghost predicate StatesOk(place: seq<Place>, state: seq<TState>, current: Tid, idle: Tid) {
    && |state| == |place| && 0 < idle < |place| && 0 < current < |place|
    && (forall t: nat :: t < |place| ==> (place[t] == IdleP <==> t == idle))
    && (forall t: nat :: t < |place| && place[t] == Cur ==> t == current)
    && (forall t: nat :: t < |place| ==> StateOk(place[t], state[t]))
    && (current == idle ==> state[idle] == RUNNING)
  }

  // A joiner slot and the thread blocked on it point at each other.
  ghost predicate JoinsOk(place: seq<Place>, joiner: seq<Tid>) {
    && |joiner| == |place|
    && (forall t: nat :: t < |place| && joiner[t] != 0 ==>
      joiner[t] < |place| && place[joiner[t]] == InJoin(t) && !Over(place[t]))
    && (forall j: nat :: j < |place| && place[j].InJoin? ==> place[j].t < |place| && joiner[place[j].t] == j && j != 0)
  }

  ghost predicate PendOk(place: seq<Place>, owner: map<Qid, Tid>, j: Tid, p: Pend) {
    && 0 < j < |place| && !Over(place[j])
    && match p
       case PLock(m) => m in owner && (place[j] == InWait(m) || owner[m] == j)
       case PJoin(t) => t < |place| && (place[j] == InJoin(t) || place[t] == Exited)
  }

  // A free mutex has no waiters, an owner is alive and not waiting for its own lock, and whoever
  // blocked in lock or join still waits or has got what it waits for.
  ghost predicate LocksOk(place: seq<Place>, owner: map<Qid, Tid>, waitQ: map<Qid, seq<Tid>>, pend: map<Tid, Pend>) {
    && (forall m :: m in owner ==> m in waitQ && (owner[m] == 0 ==> waitQ[m] == []))
    && (forall m :: m in owner && owner[m] != 0 ==>
      owner[m] < |place| && !Over(place[owner[m]]) && place[owner[m]] != InWait(m))
    && (forall j :: j in pend ==> PendOk(place, owner, j, pend[j]))
    && (forall j: nat :: j < |place| && place[j].InWait? && place[j].q in owner ==>
      j in pend && pend[j] == PLock(place[j].q))
    && (forall j: nat :: j < |place| && place[j].InJoin? ==> j in pend && pend[j] == PJoin(place[j].t))
    && (forall i, j :: i in pend && j in pend && pend[i].PJoin? && pend[i] == pend[j] ==> i == j)
  }

  lemma StateFacts(place: seq<Place>, state: seq<TState>, current: Tid, idle: Tid)
    requires StatesOk(place, state, current, idle)
    ensures |state| == |place| && 0 < idle < |place| && 0 < current < |place|
      && (place[current] == IdleP <==> current == idle) && place[idle] == IdleP
    ensures StateOk(place[current], state[current]) && (current == idle ==> state[idle] == RUNNING)
  {}

  // sched_wake's assertion.
  lemma WaiterBlocked(place: seq<Place>, state: seq<TState>, current: Tid, idle: Tid, t: Tid)
    requires StatesOk(place, state, current, idle) && t < |place| && place[t].InWait?
    ensures state[t] == BLOCKED && t != idle
  {}

  // A thread other than idle goes to a place where it does not run.
  lemma StatesMoved(place: seq<Place>, state: seq<TState>, current: Tid, idle: Tid, t: Tid, p: Place, s: TState)
    requires StatesOk(place, state, current, idle) && t < |place| && place[t] != IdleP && p != IdleP && p != Cur
      && StateOk(p, s)
    ensures StatesOk(place[t := p], state[t := s], current, idle)
  {}

  lemma Switched(place: seq<Place>, state: seq<TState>, prev: Tid, t: Tid, idle: Tid)
    requires StatesOk(place, state, prev, idle) && 0 < t < |place| && (t == idle || place[t] == InReady)
      && (prev != idle ==> place[prev] != Cur)
    ensures StatesOk(if t == idle then place else place[t := Cur], state[t := RUNNING], t, idle)
  {}

  ghost predicate PlainMove(place: seq<Place>, place': seq<Place>) {
    |place'| == |place| && forall t: nat :: t < |place| ==>
      place'[t] == place[t] || (Plain(place[t]) && Plain(place'[t]))
  }

  lemma PlainKeepsJoins(place: seq<Place>, place': seq<Place>, joiner: seq<Tid>)
    requires PlainMove(place, place') && JoinsOk(place, joiner)
    ensures JoinsOk(place', joiner)
  {}

  lemma PlainKeepsPend(place: seq<Place>, place': seq<Place>, owner: map<Qid, Tid>, j: Tid, p: Pend)
    requires PlainMove(place, place') && PendOk(place, owner, j, p)
    ensures PendOk(place', owner, j, p)
  {}

  lemma PlainKeeps(place: seq<Place>, place': seq<Place>, joiner: seq<Tid>, owner: map<Qid, Tid>,
                   waitQ: map<Qid, seq<Tid>>, pend: map<Tid, Pend>)
    requires PlainMove(place, place') && JoinsOk(place, joiner) && LocksOk(place, owner, waitQ, pend)
    ensures JoinsOk(place', joiner) && LocksOk(place', owner, waitQ, pend)
  {
    hide JoinsOk, PendOk;
    PlainKeepsJoins(place, place', joiner);
    forall j | j in pend ensures PendOk(place', owner, j, pend[j]) { PlainKeepsPend(place, place', owner, j, pend[j]); }
  }

  function Relink(next: seq<Tid>, t: Tid, a: Tid, u: Tid, b: Tid): seq<Tid>
    requires t < |next| && u < |next|
  {
    var next1 := next[t := a];
    next1[u := b]
  }

  // The running thread t blocks on a queue that is not a mutex.
  lemma BlockKeeps(place: seq<Place>, t: Tid, q: Qid, joiner: seq<Tid>, owner: map<Qid, Tid>, waitQ: map<Qid, seq<Tid>>,
                   pend: map<Tid, Pend>)
    requires JoinsOk(place, joiner) && LocksOk(place, owner, waitQ, pend) && t < |place| && place[t] == Cur
      && q !in owner && t !in pend && q in waitQ
    ensures JoinsOk(place[t := InWait(q)], joiner)
      && LocksOk(place[t := InWait(q)], owner, waitQ[q := waitQ[q] + [t]], pend)
  {
    forall j | j in pend
      ensures PendOk(place[t := InWait(q)], owner, j, pend[j])
    {
      assert PendOk(place, owner, j, pend[j]);
    }
  }

  // A waiter of a queue that is not a mutex becomes ready.
  lemma WakeKeeps(place: seq<Place>, t: Tid, q: Qid, joiner: seq<Tid>, owner: map<Qid, Tid>, waitQ: map<Qid, seq<Tid>>,
                  pend: map<Tid, Pend>)
    requires JoinsOk(place, joiner) && LocksOk(place, owner, waitQ, pend) && t < |place| && place[t] == InWait(q)
      && q !in owner && q in waitQ && waitQ[q] != []
    ensures JoinsOk(place[t := InReady], joiner) && LocksOk(place[t := InReady], owner, waitQ[q := waitQ[q][1..]], pend)
  {
    forall j | j in pend
      ensures PendOk(place[t := InReady], owner, j, pend[j])
    {
      assert PendOk(place, owner, j, pend[j]);
    }
  }

  lemma LockFacts(place: seq<Place>, owner: map<Qid, Tid>, waitQ: map<Qid, seq<Tid>>, pend: map<Tid, Pend>, m: Qid)
    requires LocksOk(place, owner, waitQ, pend) && m in owner
    ensures m in waitQ && (owner[m] == 0 ==> waitQ[m] == [])
  {}

  lemma FreeLockTaken(place: seq<Place>, owner: map<Qid, Tid>, waitQ: map<Qid, seq<Tid>>, pend: map<Tid, Pend>, m: Qid,
                      t: Tid)
    requires LocksOk(place, owner, waitQ, pend) && m in owner && owner[m] == 0 && 0 < t < |place| && place[t] == Cur
    ensures LocksOk(place, owner[m := t], waitQ, pend)
  {
    forall j | j in pend ensures PendOk(place, owner[m := t], j, pend[j]) { assert PendOk(place, owner, j, pend[j]); }
  }

  // The running thread t blocks on the mutex m, which somebody else owns.
  lemma LockKeeps(place: seq<Place>, t: Tid, m: Qid, joiner: seq<Tid>, owner: map<Qid, Tid>, waitQ: map<Qid, seq<Tid>>,
                  pend: map<Tid, Pend>)
    requires JoinsOk(place, joiner) && LocksOk(place, owner, waitQ, pend) && 0 < t < |place| && place[t] == Cur
      && t !in pend
    requires m in owner && m in waitQ && owner[m] != 0 && owner[m] != t
    ensures JoinsOk(place[t := InWait(m)], joiner)
      && LocksOk(place[t := InWait(m)], owner, waitQ[m := waitQ[m] + [t]], pend[t := PLock(m)])
  {
    var place', pend' := place[t := InWait(m)], pend[t := PLock(m)];
    forall j | j in pend' ensures PendOk(place', owner, j, pend'[j]) {
      assert j in pend ==> PendOk(place, owner, j, pend[j]);
    }
  }

  // The oldest waiter t of m becomes its owner and ready.
  lemma HandOver(place: seq<Place>, t: Tid, m: Qid, joiner: seq<Tid>, owner: map<Qid, Tid>, waitQ: map<Qid, seq<Tid>>,
                 pend: map<Tid, Pend>)
    requires JoinsOk(place, joiner) && LocksOk(place, owner, waitQ, pend) && 0 < t < |place| && place[t] == InWait(m)
    requires m in owner && m in waitQ && waitQ[m] != [] && owner[m] !in pend
    ensures JoinsOk(place[t := InReady], joiner)
      && LocksOk(place[t := InReady], owner[m := t], waitQ[m := waitQ[m][1..]], pend)
  {
    forall j | j in pend
      ensures PendOk(place[t := InReady], owner[m := t], j, pend[j])
    {
      assert PendOk(place, owner, j, pend[j]);
    }
  }

  lemma LockFreed(place: seq<Place>, owner: map<Qid, Tid>, waitQ: map<Qid, seq<Tid>>, pend: map<Tid, Pend>, m: Qid,
                  t: Tid)
    requires LocksOk(place, owner, waitQ, pend) && m in owner && owner[m] == t && t !in pend && waitQ[m] == []
    ensures LocksOk(place, owner[m := 0], waitQ, pend)
  {
    forall j | j in pend ensures PendOk(place, owner[m := 0], j, pend[j]) { assert PendOk(place, owner, j, pend[j]); }
  }

  lemma AtBoot()
    ensures var place := [Gone, Cur, IdleP];
      && StatesOk(place, [ZOMBIE, RUNNING, READY], 1, 2) && JoinsOk(place, [0, 0, 0])
        && LocksOk(place, map[], map[], map[])
      && Queue([0, 0, 0], Ends(0, 0), [], place, InReady) && List([0, 0, 0], 0, []) && Holds([], place, InSleep)
        && Sorted([], [0, 0, 0])
  {
  }

  lemma NewLock(place: seq<Place>, owner: map<Qid, Tid>, waitQ: map<Qid, seq<Tid>>, pend: map<Tid, Pend>, q: Qid,
                mutex: bool)
    requires LocksOk(place, owner, waitQ, pend) && q !in owner && forall t: nat :: t < |place| ==> place[t] != InWait(q)
    ensures LocksOk(place, if mutex then owner[q := 0] else owner, waitQ[q := []], pend)
  {
    var owner' := if mutex then owner[q := 0] else owner;
    forall j | j in pend ensures PendOk(place, owner', j, pend[j]) { assert PendOk(place, owner, j, pend[j]); }
  }

  lemma EmptyQueue(next: seq<Tid>, place: seq<Place>, p: Place)
    requires forall t: nat :: t < |place| ==> place[t] != p
    ensures Queue(next, Ends(0, 0), [], place, p)
  {}

  lemma SortedGrown(q: seq<Tid>, wake: seq<nat>, x: nat)
    requires Sorted(q, wake)
    ensures Sorted(q, wake + [x])
  {
    var wake' := wake + [x];
    forall i, j | 0 <= i < j < |q| ensures Ordered(wake', q[i], q[j]) {
      assert Ordered(wake, q[i], q[j]);
    }
  }

  lemma GrownStates(place: seq<Place>, state: seq<TState>, joiner: seq<Tid>, current: Tid, idle: Tid,
                    owner: map<Qid, Tid>, waitQ: map<Qid, seq<Tid>>, pend: map<Tid, Pend>)
    requires StatesOk(place, state, current, idle) && JoinsOk(place, joiner) && LocksOk(place, owner, waitQ, pend)
    ensures StatesOk(place + [InReady], state + [READY], current, idle) && JoinsOk(place + [InReady], joiner + [0])
    ensures LocksOk(place + [InReady], owner, waitQ, pend)
  {
    var place' := place + [InReady];
    forall j | j in pend ensures PendOk(place', owner, j, pend[j]) { assert PendOk(place, owner, j, pend[j]); }
  }

  lemma ExitFacts(place: seq<Place>, state: seq<TState>, joiner: seq<Tid>, current: Tid, idle: Tid,
                  owner: map<Qid, Tid>, waitQ: map<Qid, seq<Tid>>, pend: map<Tid, Pend>)
    requires StatesOk(place, state, current, idle) && JoinsOk(place, joiner) && place[current] == Cur
    ensures var j := joiner[current]; j != 0 ==> j < |place| && j != current && place[j] == InJoin(current) && j != idle
  {}

  // The places after an exit.
  function AfterExit(place: seq<Place>, self: Tid, j: Tid): seq<Place>
    requires self < |place| && j < |place|
  {
    if j == 0 then place[self := Exited] else place[self := Exited][j := InReady]
  }

  lemma ExitStates(place: seq<Place>, state: seq<TState>, self: Tid, idle: Tid, j: Tid)
    requires StatesOk(place, state, self, idle) && self != idle && place[self] == Cur && j < |place|
      && (j == 0 || (j != self && place[j] == InJoin(self)))
    ensures StatesOk(AfterExit(place, self, j), if j == 0 then state[self := ZOMBIE]
      else state[self := ZOMBIE][j := READY], self, idle)
  {}

  lemma ExitJoins(place: seq<Place>, joiner: seq<Tid>, self: Tid)
    requires JoinsOk(place, joiner) && self < |place| && place[self] == Cur
    ensures joiner[self] < |place|
      && JoinsOk(AfterExit(place, self, joiner[self]), if joiner[self] == 0 then joiner else joiner[self := 0])
  {}

  lemma ExitLocks(place: seq<Place>, self: Tid, j: Tid, owner: map<Qid, Tid>, waitQ: map<Qid, seq<Tid>>,
                  pend: map<Tid, Pend>)
    requires LocksOk(place, owner, waitQ, pend) && self < |place| && place[self] == Cur && j < |place|
      && (j == 0 || (j != self && place[j] == InJoin(self)))
    requires self !in pend && forall m :: m in owner ==> owner[m] != self
    ensures LocksOk(AfterExit(place, self, j), owner, waitQ, pend)
  {
    var place' := AfterExit(place, self, j);
    forall i | i in pend ensures PendOk(place', owner, i, pend[i]) { assert PendOk(place, owner, i, pend[i]); }
  }

  lemma ExitKeeps(place: seq<Place>, state: seq<TState>, joiner: seq<Tid>, self: Tid, idle: Tid, owner: map<Qid, Tid>,
                  waitQ: map<Qid, seq<Tid>>, pend: map<Tid, Pend>)
    requires StatesOk(place, state, self, idle) && JoinsOk(place, joiner) && LocksOk(place, owner, waitQ, pend)
      && self != idle && place[self] == Cur
    requires self !in pend && forall m :: m in owner ==> owner[m] != self
    ensures var j := joiner[self];
      && j < |place| && StatesOk(AfterExit(place, self, j), if j == 0 then state[self := ZOMBIE]
        else state[self := ZOMBIE][j := READY], self, idle)
      && JoinsOk(AfterExit(place, self, j), if j == 0 then joiner else joiner[self := 0])
      && LocksOk(AfterExit(place, self, j), owner, waitQ, pend)
  {
    hide StatesOk, LocksOk, AfterExit;
    StateFacts(place, state, self, idle);
    ExitStates(place, state, self, idle, joiner[self]);
    ExitJoins(place, joiner, self);
    ExitLocks(place, self, joiner[self], owner, waitQ, pend);
  }

  lemma JoinFacts(place: seq<Place>, state: seq<TState>, current: Tid, idle: Tid, t: Tid)
    requires StatesOk(place, state, current, idle) && t < |place| && t != idle && t != current && place[t] != Gone
      && place[t] != Loose
    ensures state[t] == ZOMBIE <==> place[t] == Exited
  {}

  lemma JoinLocks(place: seq<Place>, me: Tid, owner: map<Qid, Tid>, waitQ: map<Qid, seq<Tid>>, pend: map<Tid, Pend>,
                  t: Tid)
    requires LocksOk(place, owner, waitQ, pend) && 0 < me < |place| && place[me] == Cur && t < |place|
    requires me !in pend && forall j :: j in pend ==> pend[j] != PJoin(t)
    ensures LocksOk(place[me := InJoin(t)], owner, waitQ, pend[me := PJoin(t)])
  {
    var place', pend' := place[me := InJoin(t)], pend[me := PJoin(t)];
    forall j | j in pend'
      ensures PendOk(place', owner, j, pend'[j])
    {
      assert j in pend ==> PendOk(place, owner, j, pend[j]);
    }
  }

  lemma JoinKeeps(place: seq<Place>, state: seq<TState>, joiner: seq<Tid>, me: Tid, idle: Tid, owner: map<Qid, Tid>,
                  waitQ: map<Qid, seq<Tid>>, pend: map<Tid, Pend>, t: Tid)
    requires StatesOk(place, state, me, idle) && JoinsOk(place, joiner) && LocksOk(place, owner, waitQ, pend)
      && me != idle && place[me] == Cur
    requires t < |place| && t != me && !Over(place[t]) && joiner[t] == 0 && me !in pend && forall j :: j in pend ==>
      pend[j] != PJoin(t)
    ensures StatesOk(place[me := InJoin(t)], state[me := BLOCKED], me, idle)
      && JoinsOk(place[me := InJoin(t)], joiner[t := me])
    ensures LocksOk(place[me := InJoin(t)], owner, waitQ, pend[me := PJoin(t)])
  {
    hide StatesOk, LocksOk;
    StateFacts(place, state, me, idle);
    StatesMoved(place, state, me, idle, me, InJoin(t), BLOCKED);
    JoinLocks(place, me, owner, waitQ, pend, t);
  }

  lemma ResumeFacts(place: seq<Place>, state: seq<TState>, joiner: seq<Tid>, current: Tid, idle: Tid,
                    owner: map<Qid, Tid>, waitQ: map<Qid, seq<Tid>>, pend: map<Tid, Pend>, t: Tid)
    requires StatesOk(place, state, current, idle) && LocksOk(place, owner, waitQ, pend) && current in pend
      && pend[current] == PJoin(t)
    requires current != idle ==> place[current] == Cur
    ensures t < |place| && place[t] == Exited && state[t] == ZOMBIE && t != current
    ensures LocksOk(place, owner, waitQ, pend - {current}) && forall j :: j in pend - {current} ==> pend[j] != PJoin(t)
  {
    assert PendOk(place, owner, current, pend[current]);
  }

  lemma ReapLocks(place: seq<Place>, owner: map<Qid, Tid>, waitQ: map<Qid, seq<Tid>>, pend: map<Tid, Pend>, t: Tid)
    requires LocksOk(place, owner, waitQ, pend) && t < |place| && place[t] == Exited && forall j :: j in pend ==>
      pend[j] != PJoin(t)
    ensures LocksOk(place[t := Gone], owner, waitQ, pend)
  {
    var place' := place[t := Gone];
    forall j | j in pend ensures PendOk(place', owner, j, pend[j]) { assert PendOk(place, owner, j, pend[j]); }
  }

  lemma ReapKeeps(place: seq<Place>, state: seq<TState>, joiner: seq<Tid>, current: Tid, idle: Tid,
                  owner: map<Qid, Tid>, waitQ: map<Qid, seq<Tid>>, pend: map<Tid, Pend>, t: Tid)
    requires StatesOk(place, state, current, idle) && JoinsOk(place, joiner) && LocksOk(place, owner, waitQ, pend)
    requires t < |place| && place[t] == Exited && forall j :: j in pend ==> pend[j] != PJoin(t)
    ensures StatesOk(place[t := Gone], state, current, idle) && JoinsOk(place[t := Gone], joiner)
      && LocksOk(place[t := Gone], owner, waitQ, pend)
  {
    hide LocksOk;
    ReapLocks(place, owner, waitQ, pend, t);
  }

  // Nobody is in hand, and exactly the threads that were given back are gone.
  ghost predicate Settled(place: seq<Place>, freed: set<Tid>) {
    && (forall t: nat :: t < |place| ==> place[t] != Loose && (place[t] == Gone <==> t in freed))
    && (forall t :: t in freed ==> t < |place|)
  }

  lemma SettledAt(place: seq<Place>, freed: set<Tid>, t: Tid)
    requires Settled(place, freed) && t < |place|
    ensures place[t] != Loose && (place[t] == Gone <==> t in freed)
  {}

  lemma Resettled(place: seq<Place>, freed: set<Tid>, t: Tid, p: Place)
    requires Settled(place, freed) && t < |place| && place[t] != Gone && p != Gone && p != Loose
    ensures Settled(place[t := p], freed)
  {}

  // ---- the history of the ready queue --------------------------------------------------------------------------

  // A thread was appended to the ready queue, or a schedule() ended with t running.
  datatype Event = Add(t: Tid) | Ran(t: Tid)

  function Adds(ts: seq<Tid>): seq<Event> { seq(|ts|, i requires 0 <= i < |ts| => Add(ts[i])) }

  // What is left of the queue: every schedule() took the head.
  ghost function Queued(hist: seq<Event>): seq<Tid> {
    if hist == [] then []
    else
      var q, e := Queued(hist[..|hist| - 1]), hist[|hist| - 1];
      if e.Add? then q + [e.t] else if q == [] then [] else q[1..]
  }

  // Every schedule() ran the head of the queue, or idle when there was none.
  ghost predicate Fair(hist: seq<Event>, idle: Tid) {
    hist == [] ||
    var q, e := Queued(hist[..|hist| - 1]), hist[|hist| - 1];
    Fair(hist[..|hist| - 1], idle) && (e.Ran? ==> e.t == if q == [] then idle else q[0])
  }

  // The threads that schedule() ran, one for each call; before the first call the boot thread runs.
  ghost function Runs(hist: seq<Event>): seq<Tid> {
    if hist == [] then []
    else Runs(hist[..|hist| - 1]) + (if hist[|hist| - 1].Ran? then [hist[|hist| - 1].t] else [])
  }

  ghost function LastRun(hist: seq<Event>): Tid { if Runs(hist) == [] then 1 else Last(Runs(hist)) }

  lemma AddNext(hist: seq<Event>, t: Tid, idle: Tid)
    ensures Queued(hist + [Add(t)]) == Queued(hist) + [t] && LastRun(hist + [Add(t)]) == LastRun(hist)
    ensures Fair(hist + [Add(t)], idle) == Fair(hist, idle)
  {
    assert (hist + [Add(t)])[..|hist|] == hist;
  }

  lemma RanNext(hist: seq<Event>, t: Tid, idle: Tid)
    ensures Queued(hist + [Ran(t)]) == (if Queued(hist) == [] then [] else Queued(hist)[1..])
      && LastRun(hist + [Ran(t)]) == t
    ensures Fair(hist + [Ran(t)], idle) <==> Fair(hist, idle) && t == if Queued(hist) == [] then idle
      else Queued(hist)[0]
  {
    assert (hist + [Ran(t)])[..|hist|] == hist;
  }

  lemma AddsNone()
    ensures Adds([]) == []
  {}

  lemma AddsNext(ts: seq<Tid>, t: Tid)
    ensures Adds(ts + [t]) == Adds(ts) + [Add(t)]
  {}

  // After n further runs, the first n of the threads queued before have run and the rest still lead the queue.
  ghost predicate InOrder(q0: seq<Tid>, ran: seq<Tid>, q: seq<Tid>) {
    if |ran| <= |q0| then ran == q0[..|ran|] && q0[|ran|..] <= q else q0 <= ran
  }

  lemma InOrderAdd(q0: seq<Tid>, ran: seq<Tid>, q: seq<Tid>, t: Tid)
    requires InOrder(q0, ran, q)
    ensures InOrder(q0, ran, q + [t])
  {}

  lemma InOrderRan(q0: seq<Tid>, ran: seq<Tid>, q: seq<Tid>, idle: Tid)
    requires InOrder(q0, ran, q)
    ensures InOrder(q0, ran + [if q == [] then idle else q[0]], if q == [] then [] else q[1..])
  {
    var t := if q == [] then idle else q[0];
    if |ran| < |q0| {
      assert q[0] == q0[|ran|..][0] == q0[|ran|];
      assert q0[..|ran| + 1] == q0[..|ran|] + [t];
    } else if |ran| == |q0| {
      assert q0[..|ran|] == q0;
    }
  }

  // In a fair history that goes on from h0, the threads queued at h0 run first, in order.
  lemma {:induction false} RunInOrder(h0: seq<Event>, h: seq<Event>, idle: Tid)
    requires h0 <= h && Fair(h, idle)
    ensures Runs(h0) <= Runs(h) && InOrder(Queued(h0), Runs(h)[|Runs(h0)|..], Queued(h))
    decreases |h|
  {
    hide InOrder;
    if h == h0 {
      assert InOrder(Queued(h0), [], Queued(h0)) by { InOrderStart(Queued(h0)); }
      assert Runs(h)[|Runs(h0)|..] == [];
    } else {
      var g, e := h[..|h| - 1], h[|h| - 1];
      assert h0 <= g by { assert forall i :: 0 <= i < |h0| ==> g[i] == h[i] == h0[i]; }
      RunInOrder(h0, g, idle);
      var ran := Runs(g)[|Runs(h0)|..];
      if e.Add? {
        InOrderAdd(Queued(h0), ran, Queued(g), e.t);
        assert Runs(h)[|Runs(h0)|..] == ran;
      } else {
        InOrderRan(Queued(h0), ran, Queued(g), idle);
        assert Runs(h)[|Runs(h0)|..] == ran + [e.t];
      }
    }
  }

  lemma InOrderStart(q: seq<Tid>)
    ensures InOrder(q, [], q)
  {}

  class Scheduler {
    var next: seq<Tid>
    var state: seq<TState>
    var wake: seq<nat>
    var joiner: seq<Tid>
    var ready: Ends
    var sleepers: Tid
    var waits: map<Qid, Ends>       // mutexes and pipe wait queues
    var current: Tid
    const idle: Tid
    var owner: map<Qid, Tid>        // of the queues that are mutexes
    var pend: map<Tid, Pend>        // the call a thread is inside
    var freed: set<Tid>             // threads that were joined and given back
    ghost var place: seq<Place>
    ghost var readyQ: seq<Tid>
    ghost var sleepQ: seq<Tid>
    ghost var waitQ: map<Qid, seq<Tid>>
    ghost var hist: seq<Event>      // what has happened to the ready queue

    // sched_init: the boot context is thread 1 and runs; idle is thread 2 and is never queued.
    constructor ()
      ensures Valid() && current == 1 && idle == 2 && readyQ == [] && sleepQ == [] && waitQ == map[] && pend == map[]
        && owner == map[] && hist == [] && freed == {0}
    {
      hide Queue, List, Holds, Sorted, JoinsOk, LocksOk, StatesOk;
      next, state, wake, joiner := [0, 0, 0], [ZOMBIE, RUNNING, READY], [0, 0, 0], [0, 0, 0];
      ready, sleepers, waits, owner, current, idle, pend, freed := Ends(0, 0), 0, map[], map[], 1, 2, map[], {0};
      place, readyQ, sleepQ, waitQ, hist := [Gone, Cur, IdleP], [], [], map[], [];
      new;
      AtBoot();
    }

    ghost predicate Sizes()
      reads this`next, this`state, this`wake, this`joiner, this`ready, this`sleepers, this`waits, this`current,
            this`place, this`readyQ, this`sleepQ, this`waitQ
    {
      && |state| == |next| && |wake| == |next| && |joiner| == |next| && |place| == |next|
      && 0 < idle < |next| && 0 < current < |next|
    }

    // Every queue is an acyclic list of exactly the threads placed on it; the places are
    // exclusive, so no thread is on two queues.
    ghost predicate Lists()
      reads this`next, this`state, this`wake, this`joiner, this`ready, this`sleepers, this`waits, this`current,
            this`place, this`readyQ, this`sleepQ, this`waitQ
    {
      && Sizes()
      && Queue(next, ready, readyQ, place, InReady)
      && List(next, sleepers, sleepQ) && Holds(sleepQ, place, InSleep) && Sorted(sleepQ, wake)
      && (forall q :: q in waits ==> WaitOk(q))
      && (forall t: nat :: t < |place| && place[t].InWait? ==> place[t].q in waits)
    }

    ghost predicate WaitOk(q: Qid)
      requires q in waits
      reads this`next, this`waits, this`place, this`waitQ
    {
      q in waitQ && Queue(next, waits[q], waitQ[q], place, InWait(q))
    }

    // The other queues, when only threads off them changed.
    lemma OthersKept(next0: seq<Tid>, place0: seq<Place>, p: Place)
      requires |next0| == |place0| && |place| == |next| >= |next0| && OnList(p)
      requires forall t: nat :: t < |place0| && OnList(place0[t]) && place0[t] != p ==>
        place[t] == place0[t] && next[t] == next0[t]
      requires forall t: nat :: t < |place0| && OnList(place[t]) && place[t] != p ==> place[t] == place0[t]
      requires forall t: nat :: |place0| <= t < |place| ==> !OnList(place[t]) || place[t] == p
      ensures p != InReady && Queue(next0, ready, readyQ, place0, InReady) ==>
        Queue(next, ready, readyQ, place, InReady)
      ensures p != InSleep && List(next0, sleepers, sleepQ) && Holds(sleepQ, place0, InSleep) ==>
        List(next, sleepers, sleepQ) && Holds(sleepQ, place, InSleep)
      ensures forall q ::
        q in waits && q in waitQ && p != InWait(q) && Queue(next0, waits[q], waitQ[q], place0, InWait(q)) ==> WaitOk(q)
    {
      if p != InReady && Queue(next0, ready, readyQ, place0, InReady) {
        QueueFrame(next0, next, ready, readyQ, place0, place, InReady);
      }
      if p != InSleep && List(next0, sleepers, sleepQ) && Holds(sleepQ, place0, InSleep) {
        SleepFrame(next0, next, sleepers, sleepQ, place0, place);
      }
      forall q | q in waits && q in waitQ && p != InWait(q) && Queue(next0, waits[q], waitQ[q], place0, InWait(q))
        ensures WaitOk(q) {
        QueueFrame(next0, next, waits[q], waitQ[q], place0, place, InWait(q));
      }
    }

    // One thread t moved onto or off the list of place p, with the link of u, a member, rewritten.
    lemma OthersMoved(next0: seq<Tid>, place0: seq<Place>, p: Place, t: Tid, x: Place, a: Tid, u: Tid, b: Tid)
      requires |next0| == |place0| == |next| && t < |next| && place == place0[t := x] && OnList(p)
      requires !OnList(place0[t]) || place0[t] == p
      requires !OnList(x) || x == p
      requires u < |next| && (u == t || place0[u] == p) && next == Relink(next0, t, a, u, b)
      ensures p != InReady && Queue(next0, ready, readyQ, place0, InReady) ==>
        Queue(next, ready, readyQ, place, InReady)
      ensures p != InSleep && List(next0, sleepers, sleepQ) && Holds(sleepQ, place0, InSleep) ==>
        List(next, sleepers, sleepQ) && Holds(sleepQ, place, InSleep)
      ensures forall q ::
        q in waits && q in waitQ && p != InWait(q) && Queue(next0, waits[q], waitQ[q], place0, InWait(q)) ==> WaitOk(q)
    {
      hide Queue, List, Holds;
      OthersKept(next0, place0, p);
    }

    // sched_core_enqueue
    method Enqueue(t: Tid)
      requires Lists() && 0 < t < |next| && !OnList(place[t])
      modifies this`next, this`state, this`ready, this`readyQ, this`place, this`hist
      ensures Lists() && readyQ == old(readyQ) + [t] && place == old(place)[t := InReady]
        && state == old(state)[t := READY]
      ensures hist == old(hist) + [Add(t)] && (old(Logged()) ==> Logged())
    {
      hide Lists, Queued, Fair, LastRun;
      Append(t);
      AddNext(hist, t, idle);
      hist := hist + [Add(t)];
    }

    method Append(t: Tid)
      requires Lists() && 0 < t < |next| && !OnList(place[t])
      modifies this`next, this`state, this`ready, this`readyQ, this`place
      ensures Lists() && readyQ == old(readyQ) + [t] && place == old(place)[t := InReady]
        && state == old(state)[t := READY]
    {
      hide List, Queue, Holds, Sorted;
      ghost var next0, place0 := next, place;
      QueueAppend(next, ready, readyQ, place, InReady, t);
      state := state[t := READY];
      next := next[t := 0];
      if ready.tail != 0 {
        next := next[ready.tail := t];
      } else {
        ready := ready.(head := t);
      }
      ghost var u := if ready.tail != 0 then ready.tail else t;
      ghost var v: Tid := if ready.tail != 0 then t else 0;
      ready := ready.(tail := t);
      place, readyQ := place[t := InReady], readyQ + [t];
      OthersMoved(next0, place0, InReady, t, InReady, 0, u, v);
    }

    // sched_core_dequeue: the head leaves the queue; 0 when there is none.
    method Dequeue() returns (t: Tid)
      requires Lists()
      modifies this`next, this`ready, this`readyQ, this`place
      ensures Lists()
      ensures t == 0 <==> old(readyQ) == []
      ensures t == 0 ==> readyQ == [] && place == old(place)
      ensures t != 0 ==>
        t == old(readyQ)[0] && readyQ == old(readyQ)[1..] && t < |next| && old(place)[t] == InReady
        && place == old(place)[t := Loose]
    {
      hide List, Queue, Holds, Sorted, WaitOk;
      QueueEmpty(next, ready, readyQ, place, InReady);
      t := ready.head;
      if t != 0 { TakeHead(); }
    }

    method TakeHead()
      requires Lists() && readyQ != [] && ready.head != 0
      modifies this`next, this`ready, this`readyQ, this`place
      ensures Lists() && old(ready).head == old(readyQ)[0] && readyQ == old(readyQ)[1..]
      ensures var t := old(readyQ)[0]; t < |next| && old(place)[t] == InReady && place == old(place)[t := Loose]
    {
      hide List, Queue, Holds, Sorted;
      var t := ready.head;
      ghost var next0, place0 := next, place;
      QueuePop(next, ready, readyQ, place, InReady, Loose);
      ready := ready.(head := next[t]);
      if ready.head == 0 { ready := ready.(tail := 0); }
      next := next[t := 0];
      place, readyQ := place[t := Loose], readyQ[1..];
      assert next == Relink(next0, t, 0, t, 0);
      OthersMoved(next0, place0, InReady, t, Loose, 0, t, 0);
    }

    // Walk to the place of a wake tick: behind everyone due no later.
    method FindSlot(tick: nat) returns (prev: Tid, cur: Tid, ghost k: nat)
      requires Lists()
      ensures Behind(sleepQ, wake, k, tick) && cur == At(sleepQ, k) && prev == if k == 0 then 0 else sleepQ[k - 1]
    {
      hide Queue, Holds;
      k := 0;
      prev, cur := 0, sleepers;
      forall i | 0 <= i < |sleepQ| ensures 0 < sleepQ[i] < |wake| { assert Linked(next, sleepQ, i); }
      while cur != 0 && wake[cur] <= tick
        invariant k <= |sleepQ| && cur == At(sleepQ, k) && prev == if k == 0 then 0 else sleepQ[k - 1]
        invariant forall i :: 0 <= i < k ==> wake[sleepQ[i]] <= tick
        decreases |sleepQ| - k
      {
        assert Linked(next, sleepQ, k);
        prev, cur := cur, next[cur];
        k := k + 1;
      }
    }

    // Link t in behind the first k sleepers.
    method LinkSleeper(t: Tid, prev: Tid, cur: Tid, ghost k: nat)
      requires Lists() && 0 < t < |next| && !OnList(place[t]) && Behind(sleepQ, wake, k, wake[t])
      requires cur == At(sleepQ, k) && prev == if k == 0 then 0 else sleepQ[k - 1]
      modifies this`next, this`sleepers, this`sleepQ, this`place
      ensures Lists() && place == old(place)[t := InSleep] && sleepQ == InsertAt(old(sleepQ), k, t)
    {
      hide List, Queue, Holds, Sorted, InsertAt;
      SleepInserted(next, sleepers, sleepQ, place, wake, k, t);
      ghost var next0, place0 := next, place;
      next := next[t := cur];
      if prev == 0 {
        sleepers := t;
      } else {
        next := next[prev := t];
      }
      place, sleepQ := place[t := InSleep], InsertAt(sleepQ, k, t);
      OthersKept(next0, place0, InSleep);
    }

    // sched_core_sleep: stable insertion by wake tick.
    method SleepInsert(t: Tid, tick: nat) returns (ghost k: nat)
      requires Lists() && 0 < t < |next| && !OnList(place[t])
      modifies this`next, this`state, this`wake, this`sleepers, this`sleepQ, this`place
      ensures Lists() && place == old(place)[t := InSleep] && state == old(state)[t := SLEEPING]
        && wake == old(wake)[t := tick]
      ensures Behind(old(sleepQ), wake, k, tick) && sleepQ == InsertAt(old(sleepQ), k, t)
    {
      hide List, Queue, Holds, Behind, InsertAt;
      SleepFacts();
      assert t !in sleepQ by { NotHeld(sleepQ, place, InSleep, t); }
      state, wake := state[t := SLEEPING], wake[t := tick];
      var prev, cur;
      prev, cur, k := FindSlot(tick);
      LinkSleeper(t, prev, cur, k);
    }

    // The first sleeper becomes ready.
    method WakeFirst()
      requires Lists() && sleepQ != []
      modifies this`next, this`state, this`sleepers, this`ready, this`readyQ, this`sleepQ, this`place, this`hist
      ensures hist == old(hist) + [Add(old(sleepQ)[0])] && (old(Logged()) ==> Logged())
      ensures Lists() && old(sleepQ)[0] < |next| && readyQ == old(readyQ) + [old(sleepQ)[0]]
        && sleepQ == old(sleepQ)[1..]
      ensures place == old(place)[old(sleepQ)[0] := InReady] && state == old(state)[old(sleepQ)[0] := READY]
    {
      hide List, Queue, Holds, Sorted, Logged;
      var t := sleepers;
      ghost var next0, place0 := next, place;
      SleepPopped(next, sleepers, sleepQ, place, wake);
      sleepers := next[t];
      place, sleepQ := place[t := Loose], sleepQ[1..];
      OthersKept(next0, place0, InSleep);
      Enqueue(t);
    }

    // sched_core_wake_due: everyone due, in wake order, goes to the ready queue.
    method WakeDue(now: nat) returns (woken: nat)
      requires Lists()
      modifies this`next, this`state, this`sleepers, this`ready, this`readyQ, this`sleepQ, this`place, this`hist
      ensures Lists() && woken <= |old(sleepQ)| && readyQ == old(readyQ) + old(sleepQ)[..woken]
        && sleepQ == old(sleepQ)[woken..]
      ensures hist == old(hist) + Adds(old(sleepQ)[..woken]) && (old(Logged()) ==> Logged())
      ensures forall t: nat :: t < |wake| ==> (t in old(sleepQ)[..woken] <==> t in old(sleepQ) && wake[t] <= now)
      ensures place == PlacedReady(old(place), old(sleepQ)[..woken])
        && state == StatesReady(old(state), old(sleepQ)[..woken])
    {
      hide Lists, Sorted, PlacedReady, StatesReady, Logged, Adds, At;
      ghost var q0 := sleepQ;
      woken := 0;
      SleepFacts();
      NobodyReady(place, state);
      AddsNone();
      assert q0[..0] == [] && q0[0..] == q0;
      while sleepers != 0 && wake[sleepers] <= now
        invariant Lists() && woken <= |q0| && sleepQ == q0[woken..] && readyQ == old(readyQ) + q0[..woken]
        invariant hist == old(hist) + Adds(q0[..woken]) && (old(Logged()) ==> Logged())
        invariant place == PlacedReady(old(place), q0[..woken]) && state == StatesReady(old(state), q0[..woken])
        invariant forall i :: 0 <= i < woken ==> wake[q0[i]] <= now
        invariant sleepers < |wake| && (sleepers == 0 <==> sleepQ == []) && (sleepQ != [] ==> sleepers == sleepQ[0])
        decreases |q0| - woken
      {
        ghost var t := sleepQ[0];
        assert t == q0[woken];
        WakeFirst();
        SleepFacts();
        assert q0[..woken + 1] == q0[..woken] + [t];
        ReadyNext(old(place), old(state), q0[..woken], t);
        AddsNext(q0[..woken], t);
        woken := woken + 1;
      }
      DueArePrefix(q0, old(place), wake, woken, now);
    }

    // ---- whole steps ----------------------------------------------------------------------------------

    ghost predicate Base()
      reads this
    {
      Core() && Logged()
    }

    ghost predicate Core()
      reads this`next, this`state, this`wake, this`joiner, this`ready, this`sleepers, this`waits, this`current,
            this`owner, this`pend, this`freed, this`place, this`readyQ, this`sleepQ, this`waitQ
    {
      && Lists() && StatesOk(place, state, current, idle)
      && JoinsOk(place, joiner) && LocksOk(place, owner, waitQ, pend) && Settled(place, freed)
    }

    // The history explains the ready queue: every schedule() ran the head, or idle when there was none.
    ghost predicate Logged()
      reads this`hist, this`readyQ, this`current
    {
      readyQ == Queued(hist) && Fair(hist, idle) && current == LastRun(hist)
    }

    // Between steps: the current thread runs, and every other thread is in exactly one place.
    ghost predicate Valid()
      reads this
    {
      Base() && (current != idle ==> place[current] == Cur)
    }

    // About to switch: the current thread has been put somewhere.
    ghost predicate Parked()
      reads this
    {
      Base() && (current != idle ==> place[current] != Cur && place[current] != Gone)
    }

    // schedule(): pick and switch to the next thread.
    method Schedule()
      requires Parked()
      modifies this`next, this`state, this`ready, this`readyQ, this`place, this`current, this`hist
      ensures Valid() && hist == old(hist) + [Ran(current)]
      ensures old(readyQ) == [] ==> current == idle && readyQ == [] && place == old(place)
      ensures old(readyQ) != [] ==>
        current == old(readyQ)[0] && readyQ == old(readyQ)[1..] && current < |old(place)|
        && old(place)[current] == InReady && place == old(place)[current := Cur]
    {
      hide Core, Queued, Fair, LastRun;
      Switch();
      RanNext(hist, current, idle);
      hist := hist + [Ran(current)];
    }

    method Switch()
      requires Core() && (current != idle ==> place[current] != Cur && place[current] != Gone)
      modifies this`next, this`state, this`ready, this`readyQ, this`place, this`current
      ensures Core() && (current != idle ==> place[current] == Cur)
      ensures old(readyQ) == [] ==> current == idle && readyQ == [] && place == old(place)
      ensures old(readyQ) != [] ==>
        current == old(readyQ)[0] && readyQ == old(readyQ)[1..] && current < |old(place)|
        && old(place)[current] == InReady && place == old(place)[current := Cur]
    {
      hide Queue, List, Holds, Sorted, JoinsOk, LocksOk, StatesOk, Settled;
      ghost var place0 := place;
      var prev := current;
      assert StatesOk(place, state, prev, idle);
      StateFacts(place, state, prev, idle);
      SettledAt(place, freed, prev);
      var t := Dequeue();
      if t == 0 {
        if state[prev] == RUNNING { return; }
        t := idle;
      }
      Switched(place0, state, prev, t, idle);
      if t == prev {
        state := state[prev := RUNNING];
      } else {
        state := state[t := RUNNING];
        current := t;
      }
      if t != idle {
        Resettled(place0, freed, t, Cur);
        PutOn(t, place0);
      }
    }

    // The dequeued thread is the one that runs.
    ghost method PutOn(t: Tid, place0: seq<Place>)
      requires Lists() && t < |place| == |place0| && place0[t] == InReady && place == place0[t := Loose]
      requires JoinsOk(place0, joiner) && LocksOk(place0, owner, waitQ, pend)
      modifies this`place
      ensures Lists() && place == place0[t := Cur] && JoinsOk(place, joiner) && LocksOk(place, owner, waitQ, pend)
    {
      hide Queue, List, Holds, Sorted, JoinsOk, LocksOk;
      ghost var placed := place;
      place := place[t := Cur];
      OthersKept(next, placed, InReady);
      ReadyFrame(placed);
      PlainKeeps(place0, place, joiner, owner, waitQ, pend);
    }

    // The current thread is appended to the ready queue.
    method EnqueueCurrent()
      requires Valid() && current != idle
      modifies this`next, this`state, this`ready, this`readyQ, this`place, this`hist
      ensures hist == old(hist) + [Add(current)]
      ensures Parked() && readyQ == old(readyQ) + [current] && place == old(place)[current := InReady]
    {
      hide Queue, List, Holds, Sorted, JoinsOk, LocksOk, Logged;
      Enqueue(current);
      PlainKeeps(old(place), place, joiner, owner, waitQ, pend);
    }

    // sched_yield, and sched_preempt when a reschedule was asked for.
    method Yield()
      requires Valid()
      modifies this`next, this`state, this`ready, this`readyQ, this`place, this`current, this`hist
      ensures Valid() && hist == old(hist) + (if old(current) == idle then [] else [Add(old(current))]) + [Ran(current)]
      ensures var q := if old(current) == idle then old(readyQ) else old(readyQ) + [old(current)];
        if q == [] then current == idle && readyQ == [] else current == q[0] && readyQ == q[1..]
    {
      hide Lists, StatesOk, JoinsOk, LocksOk, Logged;
      if current != idle { EnqueueCurrent(); }
      Schedule();
    }

    // sched_sleep_ticks for a positive number of ticks.
    method Sleep(tick: nat) returns (ghost k: nat)
      requires Valid() && current != idle
      modifies this
      ensures Valid() && pend == old(pend) && owner == old(owner) && waitQ == old(waitQ)
        && hist == old(hist) + [Ran(current)]
      ensures Behind(old(sleepQ), wake, k, tick) && sleepQ == InsertAt(old(sleepQ), k, old(current))
        && wake == old(wake)[old(current) := tick]
      ensures if old(readyQ) == [] then current == idle && readyQ == []
        else current == old(readyQ)[0] && readyQ == old(readyQ)[1..]
    {
      hide Queue, List, Holds, Sorted, JoinsOk, LocksOk, InsertAt, Behind, Logged;
      k := SleepInsert(current, tick);
      PlainKeeps(old(place), place, joiner, owner, waitQ, pend);
      Schedule();
    }

    // The timer tick: everyone due becomes ready.
    method Tick(now: nat) returns (woken: nat)
      requires Valid()
      modifies this
      ensures Valid() && current == old(current) && wake == old(wake) && pend == old(pend) && owner == old(owner)
        && waitQ == old(waitQ)
      ensures woken <= |old(sleepQ)| && readyQ == old(readyQ) + old(sleepQ)[..woken] && sleepQ == old(sleepQ)[woken..]
      ensures hist == old(hist) + Adds(old(sleepQ)[..woken])
      ensures forall t: nat :: t < |wake| ==> (t in old(sleepQ)[..woken] <==> t in old(sleepQ) && wake[t] <= now)
    {
      hide Queue, List, Sorted, JoinsOk, LocksOk, Logged;
      woken := WakeDue(now);
      assert forall t: nat :: t < |place| && t in old(sleepQ)[..woken] ==> old(place)[t] == InSleep;
      PlainKeeps(old(place), place, joiner, owner, waitQ, pend);
    }

    // Append t to a wait queue.
    method PushWait(q: Qid, t: Tid)
      requires Lists() && q in waits && 0 < t < |next| && !OnList(place[t])
      modifies this`next, this`state, this`waits, this`waitQ, this`place
      ensures Lists() && q in old(waitQ) && place == old(place)[t := InWait(q)] && state == old(state)[t := BLOCKED]
      ensures waits.Keys == old(waits).Keys && waitQ == old(waitQ)[q := old(waitQ)[q] + [t]]
    {
      hide List, Queue, Holds, Sorted;
      assert WaitOk(q);
      ghost var next0, place0 := next, place;
      QueueAppend(next, waits[q], waitQ[q], place, InWait(q), t);
      state := state[t := BLOCKED];
      next := next[t := 0];
      var e := waits[q];
      if e.tail != 0 {
        next := next[e.tail := t];
      } else {
        e := e.(head := t);
      }
      ghost var u := if e.tail != 0 then e.tail else t;
      ghost var v: Tid := if e.tail != 0 then t else 0;
      waits := waits[q := e.(tail := t)];
      place, waitQ := place[t := InWait(q)], waitQ[q := waitQ[q] + [t]];
      WaitMoved(next0, place0, old(waits), old(waitQ), q, t, InWait(q), u, v);
    }

    // Take the head of a wait queue into hand; 0 when there is none.
    method PopWait(q: Qid) returns (t: Tid)
      requires Lists() && q in waits
      modifies this`next, this`waits, this`waitQ, this`place
      ensures Lists() && q in old(waitQ) && waits.Keys == old(waits).Keys && (t == 0 <==> old(waitQ)[q] == [])
      ensures t == 0 ==> waitQ == old(waitQ) && place == old(place)
      ensures t != 0 ==>
        t == old(waitQ)[q][0] && t < |next| == |old(place)| && old(place)[t] == InWait(q)
        && place == old(place)[t := Loose] && waitQ == old(waitQ)[q := old(waitQ)[q][1..]]
    {
      hide List, Queue, Holds, Sorted;
      assert WaitOk(q);
      QueueEmpty(next, waits[q], waitQ[q], place, InWait(q));
      t := waits[q].head;
      if t == 0 { return; }
      ghost var next0, place0 := next, place;
      QueuePop(next, waits[q], waitQ[q], place, InWait(q), Loose);
      var e := waits[q].(head := next[t]);
      if e.head == 0 { e := e.(tail := 0); }
      waits := waits[q := e];
      next := next[t := 0];
      place, waitQ := place[t := Loose], waitQ[q := waitQ[q][1..]];
      WaitMoved(next0, place0, old(waits), old(waitQ), q, t, Loose, t, 0);
    }

    // Thread t went to place x, onto or off the wait queue q; the link of u was rewritten.
    lemma WaitMoved(next0: seq<Tid>, place0: seq<Place>, waits0: map<Qid, Ends>, waitQ0: map<Qid, seq<Tid>>, q: Qid,
                    t: Tid, x: Place, u: Tid, b: Tid)
      requires Sizes() && |next0| == |place0| == |next| && t < |next| && place == place0[t := x] && q in waits0
      requires (!OnList(place0[t]) || place0[t] == InWait(q)) && (!OnList(x) || x == InWait(q))
      requires u < |next| && (u == t || place0[u] == InWait(q)) && next == Relink(next0, t, 0, u, b)
      requires Queue(next0, ready, readyQ, place0, InReady)
      requires List(next0, sleepers, sleepQ) && Holds(sleepQ, place0, InSleep) && Sorted(sleepQ, wake)
      requires forall r :: r in waits0 ==> r in waitQ0 && Queue(next0, waits0[r], waitQ0[r], place0, InWait(r))
      requires forall k: nat :: k < |place0| && place0[k].InWait? ==> place0[k].q in waits0
      requires waits.Keys == waits0.Keys && waitQ.Keys == waitQ0.Keys
      requires forall r :: r in waits0 && r != q ==> waits[r] == waits0[r] && waitQ[r] == waitQ0[r]
      requires q in waits && WaitOk(q)
      ensures Lists()
    {
      hide Queue, List, Holds, Sorted;
      OthersMoved(next0, place0, InWait(q), t, x, 0, u, b);
    }

    // Publish the current thread on a wait queue and block.
    method BlockOn(q: Qid)
      requires Valid() && current != idle && current !in pend && q in waits && q !in owner
      modifies this
      ensures Valid() && pend == old(pend) && owner == old(owner) && sleepQ == old(sleepQ)
        && hist == old(hist) + [Ran(current)]
      ensures q in old(waitQ) && waitQ == old(waitQ)[q := old(waitQ)[q] + [old(current)]]
      ensures if old(readyQ) == [] then current == idle && readyQ == []
        else current == old(readyQ)[0] && readyQ == old(readyQ)[1..]
    {
      hide Queue, List, Holds, Sorted, JoinsOk, LocksOk, StatesOk, StateOk, Lists, Logged;
      StateFacts(place, state, current, idle);
      WaitFacts(q);
      ghost var t := current;
      StatesMoved(place, state, current, idle, t, InWait(q), BLOCKED);
      PushWait(q, current);
      BlockKeeps(old(place), t, q, joiner, owner, old(waitQ), pend);
      Schedule();
    }

    // Dequeue one waiter and make it runnable; its state is BLOCKED, as sched_wake asserts.
    method WakeOne(q: Qid) returns (t: Tid)
      requires Valid() && q in waits && q !in owner
      modifies this
      ensures Valid() && current == old(current) && pend == old(pend) && owner == old(owner) && sleepQ == old(sleepQ)
        && q in old(waitQ)
      ensures old(waitQ)[q] == [] ==> t == 0 && waitQ == old(waitQ) && readyQ == old(readyQ)
      ensures old(waitQ)[q] != [] ==>
        t == old(waitQ)[q][0] && waitQ == old(waitQ)[q := old(waitQ)[q][1..]] && readyQ == old(readyQ) + [t]
      ensures t != 0 ==> t < |old(state)| && old(state)[t] == BLOCKED
      ensures hist == old(hist) + (if t == 0 then [] else [Add(t)])
    {
      hide Queue, List, Holds, Sorted, JoinsOk, LocksOk, StatesOk, Lists, Logged;
      WaitFacts(q);
      t := PopWait(q);
      if t == 0 { return; }
      WaiterBlocked(old(place), state, current, idle, t);
      StatesMoved(old(place), state, current, idle, t, InReady, READY);
      Enqueue(t);
      assert place == old(place)[t := InReady];
      WakeKeeps(old(place), t, q, joiner, owner, old(waitQ), pend);
    }

    // mutex_lock up to the point where the thread either has the lock or has blocked.
    method MutexLock(m: Qid) returns (got: bool)
      requires Valid() && current != idle && current !in pend && m in owner && m in waits && owner[m] != current
      modifies this
      ensures Valid() && sleepQ == old(sleepQ) && m in old(waitQ)
      ensures got <==> old(owner)[m] == 0
      ensures hist == old(hist) + (if got then [] else [Ran(current)])
      ensures got ==>
        owner == old(owner)[m := old(current)] && pend == old(pend) && waitQ == old(waitQ) && current == old(current)
        && readyQ == old(readyQ)
      ensures !got ==>
        owner == old(owner) && pend == old(pend)[old(current) := PLock(m)]
        && waitQ == old(waitQ)[m := old(waitQ)[m] + [old(current)]]
      ensures !got ==> if old(readyQ) == [] then current == idle && readyQ == []
        else current == old(readyQ)[0] && readyQ == old(readyQ)[1..]
    {
      hide Queue, List, Holds, Sorted, JoinsOk, LocksOk, StatesOk, StateOk, Lists, Logged;
      StateFacts(place, state, current, idle);
      WaitFacts(m);
      LockFacts(place, owner, waitQ, pend, m);
      if owner[m] == 0 {
        FreeLockTaken(place, owner, waitQ, pend, m, current);
        owner := owner[m := current];
        return true;
      }
      QueueFor(m);
      Schedule();
      got := false;
    }

    // The running thread joins the waiters of a mutex.
    method QueueFor(m: Qid)
      requires Valid() && current != idle && current !in pend && m in owner && m in waits && owner[m] != 0
      requires owner[m] != current
      modifies this`next, this`state, this`waits, this`waitQ, this`place, this`pend
      ensures Parked() && m in old(waitQ)
      ensures pend == old(pend)[current := PLock(m)] && waitQ == old(waitQ)[m := old(waitQ)[m] + [current]]
    {
      hide Lists, JoinsOk, LocksOk, StatesOk, StateOk, Logged;
      StateFacts(place, state, current, idle);
      WaitFacts(m);
      StatesMoved(place, state, current, idle, current, InWait(m), BLOCKED);
      PushWait(m, current);
      LockKeeps(old(place), current, m, joiner, owner, old(waitQ), pend);
      pend := pend[current := PLock(m)];
    }

    // The blocked thread runs again inside mutex_lock: it owns the lock, as asserted there.
    method MutexResume(m: Qid)
      requires Valid() && current in pend && pend[current] == PLock(m)
      modifies this`pend
      ensures Valid() && m in owner && owner[m] == current && pend == old(pend) - {current}
    {
      hide Queue, List, Holds, Sorted, JoinsOk, Logged;
      assert PendOk(place, owner, current, pend[current]);
      StateFacts(place, state, current, idle);
      pend := pend - {current};
    }

    // Hand the lock to the oldest waiter, or free it.
    method MutexUnlock(m: Qid)
      requires Valid() && m in owner && m in waits && owner[m] == current && current !in pend
      modifies this
      ensures Valid() && current == old(current) && pend == old(pend) && sleepQ == old(sleepQ) && m in old(waitQ)
      ensures old(waitQ)[m] == [] ==> owner == old(owner)[m := 0] && waitQ == old(waitQ) && readyQ == old(readyQ)
      ensures old(waitQ)[m] != [] ==>
        && owner == old(owner)[m := old(waitQ)[m][0]] && waitQ == old(waitQ)[m := old(waitQ)[m][1..]]
        && readyQ == old(readyQ) + [old(waitQ)[m][0]]
      ensures hist == old(hist) + (if old(waitQ)[m] == [] then [] else [Add(old(waitQ)[m][0])])
    {
      hide Queue, List, Holds, Sorted, JoinsOk, LocksOk, StatesOk, Lists, Logged, Settled;
      WaitFacts(m);
      LockFacts(place, owner, waitQ, pend, m);
      var t := PopWait(m);
      if t != 0 {
        owner := owner[m := t];
        WaiterBlocked(old(place), state, current, idle, t);
        StatesMoved(old(place), state, current, idle, t, InReady, READY);
        Resettled(old(place), freed, t, InReady);
        Enqueue(t);
        assert place == old(place)[t := InReady];
        HandOver(old(place), t, m, joiner, old(owner), old(waitQ), pend);
      } else {
        LockFreed(place, owner, waitQ, pend, m, current);
        owner := owner[m := 0];
      }
    }

    // A new, empty wait queue; a mutex starts free.
    method NewQueue(q: Qid, mutex: bool)
      requires Valid() && q !in waits && q !in owner
      modifies this`waits, this`waitQ, this`owner
      ensures Valid() && waits == old(waits)[q := Ends(0, 0)] && waitQ == old(waitQ)[q := []]
      ensures owner == if mutex then old(owner)[q := 0] else old(owner)
    {
      hide Lists, JoinsOk, LocksOk, StatesOk, Logged;
      SizeFacts();
      NobodyWaits(q);
      NewLock(place, owner, waitQ, pend, q, mutex);
      AddQueue(q);
      if mutex { owner := owner[q := 0]; }
    }

    lemma NobodyWaits(q: Qid)
      requires Lists() && q !in waits
      ensures forall t: nat :: t < |place| ==> place[t] != InWait(q)
    {
      hide Queue, List, Holds, Sorted;
    }

    // An empty wait queue.
    method AddQueue(q: Qid)
      requires Lists() && q !in waits
      modifies this`waits, this`waitQ
      ensures Lists() && waits == old(waits)[q := Ends(0, 0)] && waitQ == old(waitQ)[q := []]
    {
      hide Queue, List, Holds, Sorted;
      EmptyQueue(next, place, InWait(q));
      assert forall r :: r in waits ==> WaitOk(r);
      waits, waitQ := waits[q := Ends(0, 0)], waitQ[q := []];
      assert WaitOk(q);
    }

    // thread_create: a new thread, ready to run.
    method Create() returns (t: Tid)
      requires Valid()
      modifies this
      ensures Valid() && t == |old(next)| && |next| == |old(next)| + 1 && readyQ == old(readyQ) + [t]
        && current == old(current)
      ensures sleepQ == old(sleepQ) && waitQ == old(waitQ) && pend == old(pend) && owner == old(owner)
        && hist == old(hist) + [Add(t)]
    {
      hide Lists, JoinsOk, LocksOk, StatesOk, Logged;
      SizeFacts();
      GrownStates(place, state, joiner, current, idle, owner, waitQ, pend);
      t := NewThread();
      SizeFacts();
      Enqueue(t);
      SizeFacts();
      assert place == old(place) + [InReady] && state == old(state) + [READY];
    }

    method NewThread() returns (t: Tid)
      requires Lists()
      modifies this`next, this`state, this`wake, this`joiner, this`place
      ensures Lists() && t == |old(next)| && place == old(place) + [Loose] && state == old(state) + [READY]
        && joiner == old(joiner) + [0]
    {
      hide Queue, List, Holds, Sorted;
      t := |next|;
      next, state, wake, joiner := next + [0], state + [READY], wake + [0], joiner + [0];
      place := place + [Loose];
      assert forall q :: q in waits ==> old(WaitOk(q));
      Grown(old(next), old(place), old(wake));
    }

    lemma SizeFacts()
      requires Lists()
      ensures Sizes()
    {}

    // Room for one more thread, on no queue.
    lemma Grown(next0: seq<Tid>, place0: seq<Place>, wake0: seq<nat>)
      requires Sizes() && |next0| == |place0| == |wake0| && next == next0 + [0] && place == place0 + [Loose]
        && wake == wake0 + [0]
      requires Queue(next0, ready, readyQ, place0, InReady)
      requires List(next0, sleepers, sleepQ) && Holds(sleepQ, place0, InSleep) && Sorted(sleepQ, wake0)
      requires forall q :: q in waits ==> q in waitQ && Queue(next0, waits[q], waitQ[q], place0, InWait(q))
      requires forall t: nat :: t < |place0| && place0[t].InWait? ==> place0[t].q in waits
      ensures Lists()
    {
      hide Queue, List, Holds, Sorted;
      SortedGrown(sleepQ, wake0, 0);
      QueueFrame(next0, next, ready, readyQ, place0, place, InReady);
      SleepFrame(next0, next, sleepers, sleepQ, place0, place);
      forall q | q in waits ensures WaitOk(q) { QueueFrame(next0, next, waits[q], waitQ[q], place0, place, InWait(q)); }
    }

    method MarkDead()
      requires Lists() && place[current] == Cur
      modifies this`state, this`place
      ensures Lists() && place == old(place)[current := Exited] && state == old(state)[current := ZOMBIE]
    {
      hide Queue, List, Holds, Sorted;
      state := state[current := ZOMBIE];
      ghost var place0 := place;
      place := place[current := Exited];
      OffList(place0, current);
    }

    // The current thread is marked dead and its joiner, if any, made ready.
    method Leave()
      requires Valid() && current != idle && current !in pend && forall m :: m in owner ==> owner[m] != current
      modifies this`next, this`state, this`ready, this`readyQ, this`place, this`joiner, this`hist
      ensures Parked() && current < |place| == |old(place)| && place[current] == Exited
      ensures readyQ == old(readyQ) + (if old(joiner)[current] == 0 then [] else [old(joiner)[current]])
      ensures hist == old(hist) + (if old(joiner)[current] == 0 then [] else [Add(old(joiner)[current])])
    {
      hide Lists, JoinsOk, LocksOk, StatesOk, StateOk, Logged, Settled;
      SizeFacts();
      var j := joiner[current];
      ExitFacts(place, state, joiner, current, idle, owner, waitQ, pend);
      ExitKeeps(place, state, joiner, current, idle, owner, waitQ, pend);
      Resettled(place, freed, current, Exited);
      MarkDead();
      SizeFacts();
      if j != 0 {
        Resettled(place, freed, j, InReady);
        WakeJoiner(j);
        SizeFacts();
      }
    }

    method WakeJoiner(j: Tid)
      requires Lists() && 0 < j < |next| && !OnList(place[j])
      modifies this`next, this`state, this`ready, this`readyQ, this`place, this`joiner, this`hist
      ensures Lists() && readyQ == old(readyQ) + [j] && place == old(place)[j := InReady]
        && state == old(state)[j := READY]
      ensures joiner == old(joiner)[current := 0] && hist == old(hist) + [Add(j)] && (old(Logged()) ==> Logged())
    {
      hide Queue, List, Holds, Sorted, Logged;
      Enqueue(j);
      joiner := joiner[current := 0];
    }

    // thread_exit: the thread never runs again.
    method Exit()
      requires Valid() && current != idle && current !in pend && forall m :: m in owner ==> owner[m] != current
      modifies this
      ensures Valid() && |place| == |old(place)| && place[old(current)] == Exited && pend == old(pend)
        && owner == old(owner) && waitQ == old(waitQ) && sleepQ == old(sleepQ)
      ensures var q := old(readyQ) + (if old(joiner)[old(current)] == 0 then [] else [old(joiner)[old(current)]]);
        if q == [] then current == idle && readyQ == [] else current == q[0] && readyQ == q[1..]
      ensures hist == old(hist) + (if old(joiner)[old(current)] == 0 then [] else [Add(old(joiner)[old(current)])]) +
        [Ran(current)]
    {
      hide Lists, JoinsOk, LocksOk, StatesOk, Logged;
      Leave();
      Schedule();
    }

    // A thread that is on no list changed place and is still on none.
    lemma OffList(place0: seq<Place>, t: Tid)
      requires |place0| == |next| && Sizes() && t < |place| && place == place0[t := place[t]] && !OnList(place0[t])
        && !OnList(place[t])
      requires Queue(next, ready, readyQ, place0, InReady)
      requires List(next, sleepers, sleepQ) && Holds(sleepQ, place0, InSleep) && Sorted(sleepQ, wake)
      requires forall q :: q in waits ==> q in waitQ && Queue(next, waits[q], waitQ[q], place0, InWait(q))
      requires forall t: nat :: t < |place0| && place0[t].InWait? ==> place0[t].q in waits
      ensures Lists()
    {
      forall q | q in waits ensures WaitOk(q) { QueueFrame(next, next, waits[q], waitQ[q], place0, place, InWait(q)); }
    }

    // thread_join up to the point where the thread is known dead or the caller has blocked.
    method Join(t: Tid) returns (done: bool)
      requires Valid() && current != idle && current !in pend && 0 < t < |place| && t != current && t != idle
        && place[t] != Gone
      requires joiner[t] == 0 && forall j :: j in pend ==> pend[j] != PJoin(t)
      modifies this
      ensures Valid() && owner == old(owner) && waitQ == old(waitQ) && sleepQ == old(sleepQ)
      ensures done <==> old(place)[t] == Exited
      ensures hist == old(hist) + (if done then [] else [Ran(current)])
      ensures done ==>
        pend == old(pend) && place == old(place)[t := Gone] && current == old(current) && readyQ == old(readyQ)
      ensures !done ==> pend == old(pend)[old(current) := PJoin(t)]
      ensures !done ==> if old(readyQ) == [] then current == idle && readyQ == []
        else current == old(readyQ)[0] && readyQ == old(readyQ)[1..]
    {
      hide Lists, JoinsOk, LocksOk, StatesOk, StateOk, Logged;
      SizeFacts();
      JoinFacts(place, state, current, idle, t);
      if state[t] != ZOMBIE {
        WaitFor(t);
        Schedule();
        done := false;
      } else {
        Bury(t);
        done := true;
      }
    }

    // A thread that has exited is given back.
    method Bury(t: Tid)
      requires Valid() && 0 < t < |place| && t != current && t != idle && place[t] == Exited
      requires joiner[t] == 0 && forall j :: j in pend ==> pend[j] != PJoin(t)
      modifies this`place, this`freed
      ensures Valid() && place == old(place)[t := Gone] && freed == old(freed) + {t}
    {
      hide Queue, List, Holds, Sorted, JoinsOk, LocksOk, StatesOk, StateOk, Logged;
      ghost var place0 := place;
      place, freed := place[t := Gone], freed + {t};
      OffList(place0, t);
      ReapKeeps(place0, state, joiner, current, idle, owner, waitQ, pend, t);
    }

    // Block in the joiner slot of t.
    method WaitFor(t: Tid)
      requires Valid() && current != idle && current !in pend && 0 < t < |place| && t != current && !Over(place[t])
      requires joiner[t] == 0 && forall j :: j in pend ==> pend[j] != PJoin(t)
      modifies this`state, this`joiner, this`place, this`pend
      ensures Parked() && pend == old(pend)[current := PJoin(t)]
    {
      hide Queue, List, Holds, Sorted, JoinsOk, LocksOk, StatesOk, StateOk, Logged;
      JoinKeeps(place, state, joiner, current, idle, owner, waitQ, pend, t);
      ghost var place0 := place;
      var me := current;
      joiner := joiner[t := me];
      state := state[me := BLOCKED];
      place, pend := place[me := InJoin(t)], pend[me := PJoin(t)];
      OffList(place0, me);
    }

    // The joiner runs again: the thread is a zombie, as asserted there, and is freed.
    method JoinResume(t: Tid)
      requires Valid() && current in pend && pend[current] == PJoin(t)
      modifies this`place, this`pend, this`freed
      ensures Valid() && t < |state| && state[t] == ZOMBIE && pend == old(pend) - {current}
        && place == old(place)[t := Gone]
    {
      hide Queue, List, Holds, Sorted, JoinsOk, LocksOk, StatesOk, StateOk, Logged;
      ResumeFacts(place, state, joiner, current, idle, owner, waitQ, pend, t);
      ghost var place0 := place;
      place, pend, freed := place[t := Gone], pend - {current}, freed + {t};
      OffList(place0, t);
      ReapKeeps(place0, state, joiner, current, idle, owner, waitQ, pend, t);
    }

    lemma WaitFacts(q: Qid)
      requires Lists() && q in waits
      ensures Sizes() && q in waitQ
    {
      assert WaitOk(q);
    }

    lemma ReadyFrame(place0: seq<Place>)
      requires |place0| == |place| == |next| && Queue(next, ready, readyQ, place0, InReady)
      requires forall t: nat :: t < |place| ==> (place[t] == InReady <==> place0[t] == InReady)
      ensures Queue(next, ready, readyQ, place, InReady)
    {}

    lemma SleepFacts()
      requires Lists()
      ensures sleepers == At(sleepQ, 0) && sleepers < |next| && (sleepers == 0 <==> sleepQ == [])
      ensures sleepQ != [] ==> sleepers == sleepQ[0]
      ensures Sorted(sleepQ, wake) && (forall i :: 0 <= i < |sleepQ| ==> 0 < sleepQ[i] < |next|) && Sizes()
    {
      forall i | 0 <= i < |sleepQ| ensures 0 < sleepQ[i] < |next| { assert Linked(next, sleepQ, i); }
    }
  }

  lemma NotHeld(q: seq<Tid>, place: seq<Place>, p: Place, t: Tid)
    requires Holds(q, place, p) && t < |place| && place[t] != p
    ensures t !in q
  {}

  lemma SleepInserted(next: seq<Tid>, head: Tid, q: seq<Tid>, place: seq<Place>, wake: seq<nat>, k: nat, t: Tid)
    requires |next| == |place| == |wake| && 0 < t < |next| && place[t] != InSleep
    requires List(next, head, q) && Holds(q, place, InSleep) && Sorted(q, wake) && Behind(q, wake, k, wake[t])
    ensures k > 0 ==> 0 < q[k - 1] < |next| && place[q[k - 1]] == InSleep
    ensures List(if k == 0 then next[t := At(q, k)] else next[t := At(q, k)][q[k - 1] := t], if k == 0 then t
      else head, InsertAt(q, k, t))
    ensures Holds(InsertAt(q, k, t), place[t := InSleep], InSleep) && Sorted(InsertAt(q, k, t), wake)
  {
    ListInsert(next, head, q, k, t);
    InsertSorted(q, wake, k, t);
    if k > 0 { assert q[k - 1] in q; }
    assert forall x :: x in InsertAt(q, k, t) <==> x in q || x == t by {
      assert q == q[..k] + q[k..];
    }
  }

  lemma SleepPopped(next: seq<Tid>, head: Tid, q: seq<Tid>, place: seq<Place>, wake: seq<nat>)
    requires List(next, head, q) && Holds(q, place, InSleep) && Sorted(q, wake) && q != []
      && |next| == |place| == |wake|
    ensures head == q[0] && 0 < head < |next| && place[head] == InSleep
    ensures List(next, next[head], q[1..]) && Holds(q[1..], place[head := Loose], InSleep) && Sorted(q[1..], wake)
  {
    QueuePop(next, Ends(head, Last(q)), q, place, InSleep, Loose);
    ListFrame(next[head := 0], next, next[head], q[1..]);
  }

  // The places and states once the threads ts have been made ready.
  ghost function PlacedReady(place: seq<Place>, ts: seq<Tid>): seq<Place> {
    seq(|place|, t requires 0 <= t < |place| => if t in ts then InReady else place[t])
  }

  ghost function StatesReady(state: seq<TState>, ts: seq<Tid>): seq<TState> {
    seq(|state|, t requires 0 <= t < |state| => if t in ts then READY else state[t])
  }

  lemma NobodyReady(place: seq<Place>, state: seq<TState>)
    ensures PlacedReady(place, []) == place && StatesReady(state, []) == state
  {}

  lemma ReadyNext(place: seq<Place>, state: seq<TState>, ts: seq<Tid>, t: Tid)
    requires t < |place| == |state|
    ensures |PlacedReady(place, ts)| == |StatesReady(state, ts)| == |place|
    ensures PlacedReady(place, ts + [t]) == PlacedReady(place, ts)[t := InReady]
      && StatesReady(state, ts + [t]) == StatesReady(state, ts)[t := READY]
  {}

  lemma DueArePrefix(q: seq<Tid>, place: seq<Place>, wake: seq<nat>, k: nat, now: nat)
    requires Sorted(q, wake) && k <= |q| && (forall i :: 0 <= i < |q| ==> q[i] < |wake|)
    requires (forall i :: 0 <= i < k ==> wake[q[i]] <= now) && (k < |q| ==> wake[q[k]] > now)
    ensures forall t: nat :: t < |wake| ==> (t in q[..k] <==> t in q && wake[t] <= now)
  {
    forall t: nat | t < |wake| && t in q && wake[t] <= now ensures t in q[..k] {
      var i: nat :| i < |q| && q[i] == t;
      assert i < k;
      assert q[..k][i] == t;
    }
  }

  lemma SleepFrame(next: seq<Tid>, next': seq<Tid>, head: Tid, q: seq<Tid>, place: seq<Place>, place': seq<Place>)
    requires List(next, head, q) && Holds(q, place, InSleep) && |next'| >= |next| == |place| && |place'| == |next'|
    requires forall t: nat :: t < |next| && place[t] == InSleep ==> next'[t] == next[t]
    requires forall t: nat :: t < |place| ==> (place'[t] == InSleep <==> place[t] == InSleep)
    requires forall t: nat :: |place| <= t < |place'| ==> place'[t] != InSleep
    ensures List(next', head, q) && Holds(q, place', InSleep)
  {
    QueueFrame(next, next', Ends(head, Last(q)), q, place, place', InSleep);
  }

  // ---- what the invariant says -----------------------------------------------------------------------------

  // No thread is on two queues or twice on one, the running thread and idle are on none, only
  // the current thread runs, and no thread is lost: its state tells which queue has it.
  lemma ThreadsAccounted(s: Scheduler)
    requires s.Valid()
    ensures s.current !in s.readyQ && s.current !in s.sleepQ && s.idle !in s.readyQ && s.idle !in s.sleepQ
    ensures Counting.Distinct(s.readyQ) && Counting.Distinct(s.sleepQ)
      && (forall t :: !(t in s.readyQ && t in s.sleepQ))
    ensures forall q: Qid, t: Tid :: OnQueue(s, q, t) ==>
      t != s.current && t != s.idle && t !in s.readyQ && t !in s.sleepQ
    ensures forall q: Qid, r: Qid, t: Tid :: OnQueue(s, q, t) && OnQueue(s, r, t) ==> q == r
    ensures forall t: nat :: 0 < t < |s.place| && t != s.idle && s.place[t] != Gone ==>
      && (s.state[t] == RUNNING <==> t == s.current)
      && (s.state[t] == READY <==> t in s.readyQ)
      && (s.state[t] == SLEEPING <==> t in s.sleepQ)
      && (s.state[t] == BLOCKED ==> InSomeQueue(s, t) || InJoinSlot(s, t))
  {
    hide s.Lists, LocksOk, OnQueue, InSomeQueue, InJoinSlot;
    MembersPlaced(s);
  }

  ghost predicate OnQueue(s: Scheduler, q: Qid, t: Tid)
    reads s
  {
    q in s.waits && q in s.waitQ && t in s.waitQ[q]
  }

  lemma MembersPlaced(s: Scheduler)
    requires s.Lists() && JoinsOk(s.place, s.joiner)
    ensures s.Sizes() && Counting.Distinct(s.readyQ) && Counting.Distinct(s.sleepQ)
    ensures forall t :: t in s.readyQ <==> 0 < t < |s.place| && s.place[t] == InReady
    ensures forall t :: t in s.sleepQ <==> 0 < t < |s.place| && s.place[t] == InSleep
    ensures forall q: Qid, t: Tid :: OnQueue(s, q, t) ==> 0 < t < |s.place| && s.place[t] == InWait(q)
    ensures forall t: nat :: 0 < t < |s.place| && s.place[t].InWait? ==> InSomeQueue(s, t)
    ensures forall t: nat :: 0 < t < |s.place| && s.place[t].InJoin? ==> InJoinSlot(s, t)
  {
    hide Sorted, Linked;
    forall t | t in s.readyQ ensures 0 < t < |s.place| { ListMember(s.next, s.ready.head, s.readyQ, t); }
    forall t | t in s.sleepQ ensures 0 < t < |s.place| { ListMember(s.next, s.sleepers, s.sleepQ, t); }
    forall q: Qid, t: Tid | OnQueue(s, q, t) ensures 0 < t < |s.place| && s.place[t] == InWait(q) {
      assert s.WaitOk(q);
      ListMember(s.next, s.waits[q].head, s.waitQ[q], t);
    }
    forall t: nat | 0 < t < |s.place| && s.place[t].InWait? ensures InSomeQueue(s, t) {
      assert s.WaitOk(s.place[t].q) && OnQueue(s, s.place[t].q, t);
    }
  }

  ghost predicate InSomeQueue(s: Scheduler, t: Tid)
    reads s
  {
    exists q :: OnQueue(s, q, t)
  }

  ghost predicate InJoinSlot(s: Scheduler, t: Tid)
    reads s
  {
    exists u: nat :: u < |s.joiner| && s.joiner[u] == t
  }


  // ---- whole runs ----------------------------------------------------------------------------------------------

  // Round robin.  Take any two states of one run, the earlier one with history h0.  The thread that was
  // at position k of the ready queue then is the one that the (k+1)st schedule() after it ran.
  lemma PickedWithin(s: Scheduler, h0: seq<Event>, k: nat)
    requires s.Valid() && h0 <= s.hist && k < |Queued(h0)| && |Runs(s.hist)| > |Runs(h0)| + k
    ensures Runs(s.hist)[|Runs(h0)| + k] == Queued(h0)[k]
  {
    hide s.Core;
    RunInOrder(h0, s.hist, s.idle);
    assert Runs(s.hist)[|Runs(h0)|..][k] == Runs(s.hist)[|Runs(h0)| + k];
  }

  datatype Step =
    | DoYield | DoSleep(tick: nat) | DoTick(now: nat) | DoBlock(q: Qid) | DoWake(q: Qid)
    | DoLock(m: Qid) | DoUnlock(m: Qid) | DoResume | DoNewQueue(q: Qid, mutex: bool)
    | DoCreate | DoExit | DoJoin(t: Tid)

  // One step, if its caller keeps the rules that the source asserts; otherwise nothing.
  method Perform(s: Scheduler, step: Step)
    requires s.Valid()
    modifies s
    ensures s.Valid() && old(s.hist) <= s.hist
  {
    hide s.Lists, StatesOk, JoinsOk, LocksOk, s.Logged, Queued, Settled, Behind, InsertAt, Adds;
    var t := s.current;
    var plain := t != s.idle && t !in s.pend;
    Bounds(s);
    match step
    case DoYield => s.Yield();
    case DoSleep(tick) => if t != s.idle { var _ := s.Sleep(tick); }
    case DoTick(now) => var _ := s.Tick(now);
    case DoBlock(q) => if plain && q in s.waits && q !in s.owner { s.BlockOn(q); }
    case DoWake(q) => if q in s.waits && q !in s.owner { var _ := s.WakeOne(q); }
    case DoLock(m) => if plain && m in s.owner && m in s.waits && s.owner[m] != t { var _ := s.MutexLock(m); }
    case DoUnlock(m) => if t !in s.pend && m in s.owner && m in s.waits && s.owner[m] == t { s.MutexUnlock(m); }
    case DoResume =>
      if t in s.pend {
        match s.pend[t]
        case PLock(m) => s.MutexResume(m);
        case PJoin(u) => s.JoinResume(u);
      }
    case DoNewQueue(q, mutex) => if q !in s.waits && q !in s.owner { s.NewQueue(q, mutex); }
    case DoCreate => var _ := s.Create();
    case DoExit => if plain && (forall m :: m in s.owner ==> s.owner[m] != t) { s.Exit(); }
    case DoJoin(u) =>
      if plain && 0 < u < |s.next| && u != t && u != s.idle && u !in s.freed && s.joiner[u] == 0
        && (forall j :: j in s.pend ==> s.pend[j] != PJoin(u)) {
        var _ := s.Join(u);
      }
  }

  lemma Bounds(s: Scheduler)
    requires s.Valid()
    ensures s.Sizes() && forall t: nat :: t < |s.place| ==> (s.place[t] == Gone <==> t in s.freed)
  {}

  // Over every run of these steps the scheduler stays sound, and whoever was at position k of the ready
  // queue runs at the (k+1)st schedule().
  method RunSteps(s: Scheduler, steps: seq<Step>)
    requires s.Valid()
    modifies s
    ensures s.Valid() && old(s.hist) <= s.hist
    ensures forall k: nat :: k < |old(s.readyQ)| && |Runs(s.hist)| > |Runs(old(s.hist))| + k ==>
      Runs(s.hist)[|Runs(old(s.hist))| + k] == old(s.readyQ)[k]
    ensures s.current == LastRun(s.hist)
  {
    hide s.Core, Queued, Fair, Runs;
    ghost var h0 := s.hist;
    assert s.readyQ == Queued(h0);
    var i := 0;
    while i < |steps|
      invariant s.Valid() && h0 <= s.hist
    {
      Perform(s, steps[i]);
      i := i + 1;
    }
    forall k: nat | k < |old(s.readyQ)| && |Runs(s.hist)| > |Runs(h0)| + k
      ensures Runs(s.hist)[|Runs(h0)| + k] == old(s.readyQ)[k] {
      PickedWithin(s, h0, k);
    }
  }
}
