// The process table: pids, parents, zombies and blocking wait4.
module ProcTable {
  const PROC_MAX: nat := 64
  const INIT: nat := 1

  datatype PState = UNUSED | LIVE | ZOMBIE
  datatype Proc = Proc(pid: nat, ppid: nat, state: PState, status: int)
  const EMPTY := Proc(0, 0, UNUSED, 0)

  predicate Used(p: Proc) { p.state != UNUSED }

  // Does wait4(arg) ask for this child?
  predicate Match(arg: int, pid: nat) { arg <= 0 || pid == arg }

  function CountUsed(procs: seq<Proc>): nat {
    if procs == [] then 0 else CountUsed(procs[..|procs| - 1]) + (if Used(procs[|procs| - 1]) then 1 else 0)
  }

  lemma {:induction false} CountChange(procs: seq<Proc>, i: nat, p: Proc)
    requires i < |procs|
    ensures CountUsed(procs[i := p]) == CountUsed(procs) - (if Used(procs[i]) then 1 else 0) +
      (if Used(p) then 1 else 0)
  {
    var n := |procs| - 1;
    if i < n {
      CountChange(procs[..n], i, p);
      assert procs[i := p][..n] == procs[..n][i := p];
    } else {
      assert procs[i := p][..n] == procs[..n];
    }
  }

  ghost predicate LiveAt(procs: seq<Proc>, j: nat, pid: nat) {
    j < |procs| && procs[j].state == LIVE && procs[j].pid == pid
  }

  ghost predicate IsLive(procs: seq<Proc>, pid: nat) { exists j: nat :: LiveAt(procs, j, pid) }

  // Pids are positive, below the next one and unique.
  ghost predicate PidsOk(procs: seq<Proc>, nextPid: nat) {
    && (forall i :: 0 <= i < |procs| ==> if Used(procs[i]) then 0 < procs[i].pid < nextPid else procs[i] == EMPTY)
    && (forall i, j :: 0 <= i < j < |procs| && Used(procs[i]) && Used(procs[j]) ==> procs[i].pid != procs[j].pid)
  }

  // Every process but init has a live parent with a smaller pid.
  ghost predicate ParentOk(procs: seq<Proc>, i: nat) {
    i < |procs| && Used(procs[i]) ==>
      if procs[i].pid == INIT then procs[i].ppid == 0 else procs[i].ppid < procs[i].pid && IsLive(procs, procs[i].ppid)
  }

  ghost predicate ParentsOk(procs: seq<Proc>) {
    forall i: nat {:trigger ParentOk(procs, i)} :: ParentOk(procs, i)
  }

  // A parent asleep in wait4 has no matching zombie child, except that init may sleep on
  // zombies that were handed to it.
  ghost predicate NotMissed(procs: seq<Proc>, waiting: map<nat, int>, adopted: set<nat>, w: nat, i: nat) {
    w in waiting && i < |procs| && procs[i].state == ZOMBIE && procs[i].ppid == w && Match(waiting[w], procs[i].pid) ==>
      w == INIT && procs[i].pid in adopted
  }

  ghost predicate NoMissed(procs: seq<Proc>, waiting: map<nat, int>, adopted: set<nat>) {
    && (forall w :: w in waiting ==> IsLive(procs, w))
    && (forall w: nat, i: nat {:trigger NotMissed(procs, waiting, adopted, w, i)} ::
      NotMissed(procs, waiting, adopted, w, i))
  }

  // The sleep of w misses the zombie in slot i, which it waits for.
  ghost predicate Misses(procs: seq<Proc>, waiting: map<nat, int>, w: nat, i: nat) {
    w in waiting && i < |procs| && procs[i].state == ZOMBIE && procs[i].ppid == w && Match(waiting[w], procs[i].pid)
  }

  ghost predicate NoneMisses(procs: seq<Proc>, waiting: map<nat, int>) {
    forall w: nat, i: nat {:trigger Misses(procs, waiting, w, i)} :: !Misses(procs, waiting, w, i)
  }

  // The death of pid hands init a zombie that init sleeps for.
  ghost predicate Hands(procs: seq<Proc>, waiting: map<nat, int>, pid: nat) {
    INIT in waiting && exists i: nat ::
      i < |procs| && procs[i].state == ZOMBIE && procs[i].ppid == pid && Match(waiting[INIT], procs[i].pid)
  }

  // A zombie holds the status it exited with.
  ghost predicate Statuses(procs: seq<Proc>, exits: map<nat, int>) {
    forall i :: 0 <= i < |procs| && procs[i].state == ZOMBIE ==>
      procs[i].pid in exits && exits[procs[i].pid] == procs[i].status
  }

  ghost predicate FirstUnused(procs: seq<Proc>, i: nat) {
    i < |procs| && !Used(procs[i]) && forall k :: 0 <= k < i ==> Used(procs[k])
  }

  ghost predicate ChildIn(procs: seq<Proc>, i: nat, ppid: nat, state: PState) {
    i < |procs| && procs[i].state == state && procs[i].ppid == ppid
  }

  // What wait4 answers to a process with these children: for any child, or for the child with pid arg.
  ghost predicate Waited(procs: seq<Proc>, ppid: nat, arg: int, r: WaitResult) {
    && (r.NoChild? <==> forall i: nat :: ChildIn(procs, i, ppid, LIVE) || ChildIn(procs, i, ppid, ZOMBIE) ==>
      arg > 0 && procs[i].pid != arg)
    && (r.Reapable? <==> exists i: nat :: ChildIn(procs, i, ppid, ZOMBIE) && (arg <= 0 || procs[i].pid == arg))
    && (r.Reapable? ==> exists i: nat ::
      && ChildIn(procs, i, ppid, ZOMBIE) && r == Reapable(procs[i].pid, procs[i].status) && (arg > 0 ==> r.pid == arg)
      && forall k: nat :: k < i && ChildIn(procs, k, ppid, ZOMBIE) ==> arg > 0 && procs[k].pid != arg)
  }

  datatype WaitResult = NoChild | Reapable(pid: nat, status: int) | Sleeps
  datatype ForkResult = Child(pid: nat) | Again | NoMem

  class Table {
    var procs: seq<Proc>
    var nextPid: nat
    var nprocs: nat
    var waiting: map<nat, int>      // processes blocked in wait4, with what they wait for
    ghost var adopted: set<nat>     // zombies that were reparented to init
    ghost var exits: map<nat, int>  // the status every process that has exited left behind

    // The table once init has been created and while it lives.
    ghost predicate Valid()
      reads this
    {
      Base() && NoMissed(procs, waiting, adopted) && Statuses(procs, exits)
    }

    // The table alone, whoever sleeps.
    ghost predicate Base()
      reads this`procs, this`nextPid, this`nprocs
    {
      && |procs| == PROC_MAX && nprocs == CountUsed(procs) && nextPid > INIT
      && PidsOk(procs, nextPid) && IsLive(procs, INIT) && ParentsOk(procs)
    }

    // proc_table_init, followed by the allocation of init.
    constructor ()
      ensures Valid() && nextPid == 2 && nprocs == 1 && waiting == map[] && adopted == {} && NoneMisses(procs, waiting)
        && exits == map[]
      ensures procs[0] == Proc(INIT, 0, LIVE, 0) && forall i :: 0 < i < PROC_MAX ==> procs[i] == EMPTY
    {
      procs := [Proc(INIT, 0, LIVE, 0)] + seq(PROC_MAX - 1, i => EMPTY);
      nextPid, nprocs, waiting, adopted, exits := 2, 1, map[], {}, map[];
      new;
      CountFresh(procs, PROC_MAX);
      assert procs[..PROC_MAX] == procs;
      assert LiveAt(procs, 0, INIT);
    }

    // proc_find
    method Find(pid: nat) returns (i: nat)
      requires |procs| == PROC_MAX && PidsOk(procs, nextPid)
      ensures i <= PROC_MAX && (i < PROC_MAX ==> Used(procs[i]) && procs[i].pid == pid)
      ensures i == PROC_MAX ==> forall k :: 0 <= k < PROC_MAX && Used(procs[k]) ==> procs[k].pid != pid
    {
      if pid == 0 { return PROC_MAX; }
      i := 0;
      while i < PROC_MAX
        invariant i <= PROC_MAX && forall k :: 0 <= k < i && Used(procs[k]) ==> procs[k].pid != pid
      {
        if Used(procs[i]) && procs[i].pid == pid { return; }
        i := i + 1;
      }
    }

    // proc_alloc for a live parent: a pid that no process ever had, or 0 when the table is full.
    method Alloc(ppid: nat) returns (pid: nat)
      requires Valid() && IsLive(procs, ppid)
      modifies this`procs, this`nextPid, this`nprocs
      ensures Valid() && (NoneMisses(procs, waiting) <==> old(NoneMisses(procs, waiting)))
      ensures pid == 0 <==> old(nprocs) == PROC_MAX
      ensures pid == 0 ==> procs == old(procs) && nextPid == old(nextPid)
      ensures pid != 0 ==> pid == old(nextPid) && nextPid == pid + 1 && nprocs == old(nprocs) + 1
      ensures pid != 0 ==> exists i: nat ::
        FirstUnused(old(procs), i) && procs == old(procs)[i := Proc(pid, ppid, LIVE, 0)]
    {
      hide NoneMisses, NoMissed;
      var i := 0;
      while i < PROC_MAX && Used(procs[i])
        invariant i <= PROC_MAX && forall k :: 0 <= k < i ==> Used(procs[k])
      {
        i := i + 1;
      }
      FullCount(procs);
      if i == PROC_MAX { return 0; }
      assert FirstUnused(procs, i);
      pid := nextPid;
      Spawned(procs, nextPid, waiting, adopted, i, ppid);
      SpawnMisses(procs, waiting, i, Proc(pid, ppid, LIVE, 0));
      CountChange(procs, i, Proc(pid, ppid, LIVE, 0));
      nextPid := nextPid + 1;
      procs := procs[i := Proc(pid, ppid, LIVE, 0)];
      nprocs := nprocs + 1;
    }

    // proc_exit for a live process other than init: it becomes a zombie and its children go to
    // init.  Returns its parent.
    method Exit(pid: nat, status: int) returns (ppid: nat)
      requires Base() && IsLive(procs, pid) && pid != INIT
      modifies this`procs, this`adopted, this`exits
      ensures Base() && exits == old(exits)[pid := status] && (old(Statuses(procs, exits)) ==> Statuses(procs, exits))
      ensures Exited(old(procs), procs, pid, status) && IsLive(procs, ppid)
      ensures forall k :: 0 <= k < PROC_MAX && old(procs)[k].pid != pid ==> Inherited(old(procs)[k], procs[k], pid)
      ensures exists k ::
        0 <= k < PROC_MAX && procs[k] == Proc(pid, ppid, ZOMBIE, status) && old(procs)[k].state == LIVE
      ensures adopted == old(adopted) + Orphans(old(procs), pid)
    {
      hide IsLive, ParentsOk, CountUsed;
      var i := Find(pid);
      LiveFound(procs, nextPid, pid, i);
      ghost var procs0 := procs;
      CountChange(procs, i, procs[i].(state := ZOMBIE, status := status));
      procs := procs[i := procs[i].(state := ZOMBIE, status := status)];
      adopted := adopted + Orphans(procs0, pid);
      exits := exits[pid := status];
      HandOver(pid);
      ppid := procs[i].ppid;
      LiveBelow(procs0, nextPid, pid);
      ExitKeeps(procs0, procs, nextPid, pid, status);
      ParentAt(procs, i);
      ParentAt(procs0, i);
    }

    // The children of a dying process go to init.
    method HandOver(pid: nat)
      requires |procs| == PROC_MAX && nprocs == CountUsed(procs)
      modifies this`procs
      ensures |procs| == PROC_MAX && nprocs == CountUsed(procs)
      ensures forall m :: 0 <= m < PROC_MAX ==> procs[m] == Moved(old(procs)[m], pid)
    {
      var k := 0;
      while k < PROC_MAX
        invariant k <= PROC_MAX && |procs| == PROC_MAX && nprocs == CountUsed(procs)
        invariant forall m :: 0 <= m < PROC_MAX ==> procs[m] == if m < k then Moved(old(procs)[m], pid)
          else old(procs)[m]
      {
        if Used(procs[k]) && procs[k].ppid == pid {
          CountChange(procs, k, procs[k].(ppid := INIT));
          procs := procs[k := procs[k].(ppid := INIT)];
        }
        k := k + 1;
      }
    }

    // proc_die up to the end of its thread: exit, then wake a parent that waits.
    method Die(pid: nat, status: int) returns (ghost ppid: nat)
      requires Valid() && IsLive(procs, pid) && pid != INIT && pid !in waiting
      modifies this`procs, this`adopted, this`waiting, this`exits
      ensures Valid() && Exited(old(procs), procs, pid, status) && exits == old(exits)[pid := status]
      ensures forall k :: 0 <= k < PROC_MAX && old(procs)[k].pid != pid ==> Inherited(old(procs)[k], procs[k], pid)
      ensures IsLive(procs, ppid) && waiting == old(waiting) - {ppid}
      ensures exists k :: 0 <= k < PROC_MAX && procs[k] == Proc(pid, ppid, ZOMBIE, status)
      ensures old(NoneMisses(procs, waiting)) ==>
        (NoneMisses(procs, waiting) <==> !(ppid != INIT && old(Hands(procs, waiting, pid))))
    {
      hide IsLive, ParentsOk, CountUsed, NoneMisses, Hands;
      var parent := Exit(pid, status);
      ppid := parent;
      // The parent is live, so its waiter slot is looked at.
      waiting := waiting - {parent};
      DieKeeps(old(procs), procs, nextPid, old(waiting), old(adopted), pid, ppid, status);
      DieMisses(old(procs), procs, nextPid, old(waiting), pid, ppid, status);
      if old(NoneMisses(procs, waiting)) { FewerMiss(old(procs), old(waiting), ppid); }
      HandsWithout(old(procs), old(waiting), pid, ppid);
    }

    // proc_wait_find
    method WaitFind(ppid: nat, arg: int) returns (r: WaitResult)
      requires |procs| == PROC_MAX
      ensures r.NoChild? ==> forall i :: 0 <= i < PROC_MAX && Used(procs[i]) && procs[i].ppid == ppid ==>
        !Match(arg, procs[i].pid)
      ensures r.Reapable? ==> exists i ::
        0 <= i < PROC_MAX && procs[i] == Proc(r.pid, ppid, ZOMBIE, r.status) && Match(arg, r.pid)
      ensures r.Sleeps? ==> forall i :: 0 <= i < PROC_MAX && procs[i].state == ZOMBIE && procs[i].ppid == ppid ==>
        !Match(arg, procs[i].pid)
      ensures r.Sleeps? ==> exists i ::
        0 <= i < PROC_MAX && procs[i].state == LIVE && procs[i].ppid == ppid && Match(arg, procs[i].pid)
      ensures Waited(procs, ppid, arg, r)
    {
      var have := false;
      var i := 0;
      while i < PROC_MAX
        invariant i <= PROC_MAX
        invariant forall k :: 0 <= k < i && procs[k].state == ZOMBIE && procs[k].ppid == ppid ==>
          !Match(arg, procs[k].pid)
        invariant if have then exists k ::
          0 <= k < i && procs[k].state == LIVE && procs[k].ppid == ppid && Match(arg, procs[k].pid)
                  else forall k :: 0 <= k < i && Used(procs[k]) && procs[k].ppid == ppid ==> !Match(arg, procs[k].pid)
      {
        var p := procs[i];
        if Used(p) && p.ppid == ppid && Match(arg, p.pid) {
          have := true;
          if p.state == ZOMBIE {
            assert ChildIn(procs, i, ppid, ZOMBIE);
            return Reapable(p.pid, p.status);
          }
        }
        i := i + 1;
      }
      if have {
        var k: nat :| k < PROC_MAX && procs[k].state == LIVE && procs[k].ppid == ppid && Match(arg, procs[k].pid);
        assert ChildIn(procs, k, ppid, LIVE);
      }
      r := if have then Sleeps else NoChild;
    }

    // One pass of the wait4 loop, by a process that is awake.
    method Wait4(me: nat, arg: int) returns (r: WaitResult)
      requires Valid() && IsLive(procs, me) && me !in waiting
      modifies this`waiting
      ensures Valid() && (NoneMisses(procs, waiting) <==> old(NoneMisses(procs, waiting)))
      ensures waiting == if r.Sleeps? then old(waiting)[me := arg] else old(waiting)
      ensures r.NoChild? ==> forall i :: 0 <= i < PROC_MAX && Used(procs[i]) && procs[i].ppid == me ==>
        !Match(arg, procs[i].pid)
      ensures r.Reapable? ==> exists i ::
        0 <= i < PROC_MAX && procs[i] == Proc(r.pid, me, ZOMBIE, r.status) && Match(arg, r.pid)
      ensures r.Sleeps? ==> forall i :: 0 <= i < PROC_MAX && procs[i].state == ZOMBIE && procs[i].ppid == me ==>
        !Match(arg, procs[i].pid)
      ensures r.Sleeps? ==> exists i ::
        0 <= i < PROC_MAX && procs[i].state == LIVE && procs[i].ppid == me && Match(arg, procs[i].pid)
      ensures Waited(procs, me, arg, r) && (r.Reapable? ==> r.pid in exits && exits[r.pid] == r.status)
      ensures arg > 0 ==> (r.Sleeps? <==> exists i: nat :: ChildIn(procs, i, me, LIVE) && procs[i].pid == arg)
      ensures arg <= 0 ==> (r.Sleeps? <==>
        && (exists i: nat :: ChildIn(procs, i, me, LIVE)) && forall i: nat :: !ChildIn(procs, i, me, ZOMBIE))
    {
      hide IsLive, ParentsOk, CountUsed, NoneMisses, NoMissed;
      r := WaitFind(me, arg);
      WaitedOne(procs, nextPid, me, arg, r);
      if r.Sleeps? {
        SleepKeeps(procs, waiting, adopted, me, arg);
        SleepMisses(procs, waiting, me, arg);
        waiting := waiting[me := arg];
      }
    }

    // proc_reap: the slot of a zombie is free again; its pid is not.
    method Reap(pid: nat)
      requires Base()
      modifies this`procs, this`nprocs
      ensures Base() && (old(Valid()) ==> Valid())
      ensures old(NoneMisses(procs, waiting)) ==> NoneMisses(procs, waiting)
      ensures forall i :: 0 <= i < PROC_MAX ==>
        procs[i] == if old(procs)[i].state == ZOMBIE && old(procs)[i].pid == pid then EMPTY else old(procs)[i]
    {
      hide IsLive, ParentsOk, CountUsed;
      var i := Find(pid);
      if i == PROC_MAX || procs[i].state != ZOMBIE { return; }
      CountChange(procs, i, EMPTY);
      ReapKeeps(procs, nextPid, i);
      if NoMissed(procs, waiting, adopted) { ReapWakes(procs, waiting, adopted, i); }
      if NoneMisses(procs, waiting) { ReapMisses(procs, waiting, i); }
      procs := procs[i := EMPTY];
      UsedPositive(procs, i, old(procs));
      nprocs := nprocs - 1;
    }

    // process_fork, as far as the table goes: a child, or a table that is as it was, even when the address space could
    // not be cloned after the pid was given out.  That pid is spent.
    method Fork(me: nat, cloned: bool) returns (r: ForkResult)
      requires Valid() && IsLive(procs, me)
      modifies this`procs, this`nextPid, this`nprocs, this`adopted, this`exits
      ensures Valid() && adopted == old(adopted) && (NoneMisses(procs, waiting) <==> old(NoneMisses(procs, waiting)))
      ensures r.Again? <==> old(nprocs) == PROC_MAX
      ensures r.NoMem? <==> old(nprocs) < PROC_MAX && !cloned
      ensures !r.Child? ==> procs == old(procs) && nprocs == old(nprocs)
      ensures nextPid == if r.Again? then old(nextPid) else old(nextPid) + 1
      ensures r.Child? ==> r.pid == old(nextPid) && nprocs == old(nprocs) + 1
      ensures r.Child? ==> exists i: nat ::
        FirstUnused(old(procs), i) && procs == old(procs)[i := Proc(r.pid, me, LIVE, 0)]
    {
      hide IsLive, ParentsOk, CountUsed, NoneMisses, NoMissed, PidsOk, Exited;
      ghost var procs0 := procs;
      FullCount(procs);
      var pid := Alloc(me);
      if pid == 0 { return Again; }
      if cloned { return Child(pid); }
      ghost var i: nat :| FirstUnused(procs0, i) && procs == procs0[i := Proc(pid, me, LIVE, 0)];
      ghost var procs1 := procs;
      NewIsLive(procs0, nextPid - 1, i, me);
      var ppid := Exit(pid, 0);
      ghost var procs2 := procs;
      // The child never ran: there is nobody to wake.
      Reap(pid);
      Undone(procs0, procs1, procs2, procs, pid, i, me);
      assert adopted == old(adopted);
      r := NoMem;
    }
  }

  // A process that was just created is nobody's parent.
  lemma NewIsLive(procs: seq<Proc>, pid: nat, i: nat, me: nat)
    requires PidsOk(procs, pid) && ParentsOk(procs) && FirstUnused(procs, i) && IsLive(procs, me)
    ensures var procs' := procs[i := Proc(pid, me, LIVE, 0)];
      IsLive(procs', pid) && forall k :: 0 <= k < |procs'| && Used(procs'[k]) ==> procs'[k].ppid < pid
  {
    LiveBelow(procs, pid, me);
    assert LiveAt(procs[i := Proc(pid, me, LIVE, 0)], i, pid);
    forall k: nat | k < |procs| && Used(procs[k]) ensures procs[k].ppid < pid { assert ParentOk(procs, k); }
  }

  // Exit and reap take back what was just created.
  lemma Undone(procs: seq<Proc>, procs1: seq<Proc>, procs2: seq<Proc>, procs': seq<Proc>, pid: nat, i: nat, me: nat)
    requires PidsOk(procs, pid) && FirstUnused(procs, i) && procs1 == procs[i := Proc(pid, me, LIVE, 0)]
      && Exited(procs1, procs2, pid, 0)
    requires forall k :: 0 <= k < |procs1| && Used(procs1[k]) ==> procs1[k].ppid < pid
    requires |procs'| == |procs2|
    requires forall k :: 0 <= k < |procs2| ==>
      procs'[k] == if procs2[k].state == ZOMBIE && procs2[k].pid == pid then EMPTY else procs2[k]
    ensures procs' == procs && Orphans(procs1, pid) == {}
  {
    forall k | 0 <= k < |procs| ensures procs'[k] == procs[k] {
      if k != i { assert After(procs1[k], pid, 0) == procs[k]; }
    }
  }

  lemma UsedPositive(procs: seq<Proc>, i: nat, procs0: seq<Proc>)
    requires i < |procs0| && procs == procs0[i := EMPTY] && Used(procs0[i])
    ensures CountUsed(procs0) > 0
  {
    CountChange(procs0, i, EMPTY);
  }

  function Moved(p: Proc, pid: nat): Proc { if Used(p) && p.ppid == pid then p.(ppid := INIT) else p }

  lemma ParentAt(procs: seq<Proc>, i: nat)
    requires ParentsOk(procs) && i < |procs| && Used(procs[i]) && procs[i].pid != INIT
    ensures procs[i].ppid < procs[i].pid && IsLive(procs, procs[i].ppid)
  {
    assert ParentOk(procs, i);
  }

  lemma SleepKeeps(procs: seq<Proc>, waiting: map<nat, int>, adopted: set<nat>, me: nat, arg: int)
    requires NoMissed(procs, waiting, adopted) && IsLive(procs, me)
    requires forall i :: 0 <= i < |procs| && procs[i].state == ZOMBIE && procs[i].ppid == me ==>
      !Match(arg, procs[i].pid)
    ensures NoMissed(procs, waiting[me := arg], adopted)
  {
    var waiting' := waiting[me := arg];
    forall w: nat, i: nat
      ensures NotMissed(procs, waiting', adopted, w, i)
    {
      assert NotMissed(procs, waiting, adopted, w, i);
    }
  }

  // Pids are unique, so a wait for one child concerns that child alone.
  lemma WaitedOne(procs: seq<Proc>, nextPid: nat, ppid: nat, arg: int, r: WaitResult)
    requires PidsOk(procs, nextPid) && Waited(procs, ppid, arg, r)
    ensures arg > 0 ==> (r.Sleeps? <==> exists i: nat :: ChildIn(procs, i, ppid, LIVE) && procs[i].pid == arg)
    ensures arg <= 0 ==> (r.Sleeps? <==>
      && (exists i: nat :: ChildIn(procs, i, ppid, LIVE)) && forall i: nat :: !ChildIn(procs, i, ppid, ZOMBIE))
  {
    if r.Sleeps? {
      assert !r.NoChild?;
      var i: nat :|
        (ChildIn(procs, i, ppid, LIVE) || ChildIn(procs, i, ppid, ZOMBIE)) && !(arg > 0 && procs[i].pid != arg);
      assert ChildIn(procs, i, ppid, LIVE);
    }
  }

  lemma SleepMisses(procs: seq<Proc>, waiting: map<nat, int>, me: nat, arg: int)
    requires me !in waiting
    requires forall i :: 0 <= i < |procs| && procs[i].state == ZOMBIE && procs[i].ppid == me ==>
      !Match(arg, procs[i].pid)
    ensures NoneMisses(procs, waiting[me := arg]) <==> NoneMisses(procs, waiting)
  {
    var waiting' := waiting[me := arg];
    if w: nat, i: nat :| Misses(procs, waiting', w, i) { assert Misses(procs, waiting, w, i); }
    if w: nat, i: nat :| Misses(procs, waiting, w, i) { assert Misses(procs, waiting', w, i); }
  }

  // A dying process wakes its parent, so nobody sleeps through it; what it leaves to init is
  // recorded as adopted.
  lemma DieKeeps(procs: seq<Proc>, procs': seq<Proc>, nextPid: nat, waiting: map<nat, int>, adopted: set<nat>, pid: nat,
                 ppid: nat, status: int)
    requires NoMissed(procs, waiting, adopted) && Exited(procs, procs', pid, status) && PidsOk(procs, nextPid)
      && pid !in waiting
    requires exists k :: 0 <= k < |procs| && procs'[k] == Proc(pid, ppid, ZOMBIE, status) && procs[k].state == LIVE
    ensures NoMissed(procs', waiting - {ppid}, adopted + Orphans(procs, pid))
  {
    hide IsLive;
    var waiting', adopted' := waiting - {ppid}, adopted + Orphans(procs, pid);
    var z :| 0 <= z < |procs| && procs'[z] == Proc(pid, ppid, ZOMBIE, status) && procs[z].state == LIVE;
    forall w | w in waiting' ensures IsLive(procs', w) { LiveKept(procs, procs', w); }
    forall w: nat, i: nat ensures NotMissed(procs', waiting', adopted', w, i) {
      assert NotMissed(procs, waiting, adopted, w, i);
      if i < |procs| && procs[i].state == ZOMBIE && procs[i].ppid == pid { assert procs[i].pid in Orphans(procs, pid); }
    }
  }

  // Exactly when somebody sleeps on a zombie after pid has died and its parent is awake: somebody already did, or init
  // does, because a zombie child of pid that it waits for is now its own.
  lemma DieMisses(procs: seq<Proc>, procs': seq<Proc>, nextPid: nat, waiting: map<nat, int>, pid: nat, ppid: nat,
                  status: int)
    requires Exited(procs, procs', pid, status) && PidsOk(procs, nextPid) && pid !in waiting && pid != INIT
    requires exists k :: 0 <= k < |procs| && procs'[k] == Proc(pid, ppid, ZOMBIE, status) && procs[k].state == LIVE
    ensures NoneMisses(procs', waiting - {ppid}) <==>
      NoneMisses(procs, waiting - {ppid}) && !Hands(procs, waiting - {ppid}, pid)
  {
    var waiting' := waiting - {ppid};
    var z: nat :| z < |procs| && procs'[z] == Proc(pid, ppid, ZOMBIE, status) && procs[z].state == LIVE;
    if !NoneMisses(procs', waiting') {
      var w: nat, i: nat :| Misses(procs', waiting', w, i);
      if procs[i].ppid != pid { assert Misses(procs, waiting', w, i); }
    }
    if w: nat, i: nat :| Misses(procs, waiting', w, i) { assert Misses(procs', waiting', w, i); }
    if Hands(procs, waiting', pid) {
      var i: nat :| i < |procs| && procs[i].state == ZOMBIE && procs[i].ppid == pid
        && Match(waiting'[INIT], procs[i].pid);
      assert Misses(procs', waiting', INIT, i);
    }
  }

  lemma FewerMiss(procs: seq<Proc>, waiting: map<nat, int>, w: nat)
    requires NoneMisses(procs, waiting)
    ensures NoneMisses(procs, waiting - {w})
  {
    var waiting' := waiting - {w};
    forall v: nat, i: nat ensures !Misses(procs, waiting', v, i) { assert !Misses(procs, waiting, v, i); }
  }

  lemma HandsWithout(procs: seq<Proc>, waiting: map<nat, int>, pid: nat, w: nat)
    ensures Hands(procs, waiting - {w}, pid) <==> w != INIT && Hands(procs, waiting, pid)
  {}

  lemma ReapKeeps(procs: seq<Proc>, nextPid: nat, i: nat)
    requires PidsOk(procs, nextPid) && IsLive(procs, INIT) && ParentsOk(procs)
    requires i < |procs| && procs[i].state == ZOMBIE
    ensures var procs' := procs[i := EMPTY]; PidsOk(procs', nextPid) && IsLive(procs', INIT) && ParentsOk(procs')
  {
    hide IsLive;
    var procs' := procs[i := EMPTY];
    LiveKept(procs, procs', INIT);
    forall k: nat ensures ParentOk(procs', k) {
      assert ParentOk(procs, k);
      if k < |procs| && k != i && Used(procs[k]) && procs[k].pid != INIT { LiveKept(procs, procs', procs[k].ppid); }
    }
  }

  lemma ReapWakes(procs: seq<Proc>, waiting: map<nat, int>, adopted: set<nat>, i: nat)
    requires NoMissed(procs, waiting, adopted) && i < |procs| && procs[i].state == ZOMBIE
    ensures NoMissed(procs[i := EMPTY], waiting, adopted)
  {
    hide IsLive;
    var procs' := procs[i := EMPTY];
    forall w | w in waiting ensures IsLive(procs', w) { LiveKept(procs, procs', w); }
    forall w: nat, k: nat
      ensures NotMissed(procs', waiting, adopted, w, k)
    {
      assert NotMissed(procs, waiting, adopted, w, k);
    }
  }

  lemma ReapMisses(procs: seq<Proc>, waiting: map<nat, int>, i: nat)
    requires NoneMisses(procs, waiting) && i < |procs|
    ensures NoneMisses(procs[i := EMPTY], waiting)
  {
    var procs' := procs[i := EMPTY];
    forall w: nat, k: nat ensures !Misses(procs', waiting, w, k) { assert !Misses(procs, waiting, w, k); }
  }

  // One entry after pid exits.
  function After(p: Proc, pid: nat, status: int): Proc {
    Moved(if p.state == LIVE && p.pid == pid then p.(state := ZOMBIE, status := status) else p, pid)
  }

  // Another process stays as it is, but for a child of the dying one, which init inherits.
  ghost predicate Inherited(p: Proc, p': Proc, pid: nat) {
    && p'.pid == p.pid && p'.state == p.state && p'.status == p.status
    && p'.ppid == if Used(p) && p.ppid == pid then INIT else p.ppid
  }

  ghost predicate Exited(procs: seq<Proc>, procs': seq<Proc>, pid: nat, status: int) {
    |procs'| == |procs| && forall i :: 0 <= i < |procs| ==> procs'[i] == After(procs[i], pid, status)
  }

  // Zombie children of a dying process.
  ghost function Orphans(procs: seq<Proc>, pid: nat): set<nat> {
    set i | 0 <= i < |procs| && procs[i].state == ZOMBIE && procs[i].ppid == pid :: procs[i].pid
  }

  lemma {:induction false} CountFresh(procs: seq<Proc>, n: nat)
    requires 0 < n <= |procs| && Used(procs[0]) && forall i :: 0 < i < |procs| ==> !Used(procs[i])
    ensures CountUsed(procs[..n]) == 1
  {
    assert procs[..n][..n - 1] == procs[..n - 1];
    if n > 1 { CountFresh(procs, n - 1); }
  }

  lemma {:induction false} FullCount(procs: seq<Proc>)
    ensures CountUsed(procs) <= |procs|
      && (CountUsed(procs) == |procs| <==> forall i :: 0 <= i < |procs| ==> Used(procs[i]))
  {
    if procs != [] { FullCount(procs[..|procs| - 1]); }
  }

  lemma LiveFound(procs: seq<Proc>, nextPid: nat, pid: nat, i: nat)
    requires PidsOk(procs, nextPid) && IsLive(procs, pid) && i <= |procs|
    requires if i < |procs| then Used(procs[i]) && procs[i].pid == pid else forall k ::
      0 <= k < |procs| && Used(procs[k]) ==> procs[k].pid != pid
    ensures i < |procs| && procs[i].state == LIVE
  {
    var j: nat :| LiveAt(procs, j, pid);
    assert Used(procs[j]);
  }

  lemma LiveKept(procs: seq<Proc>, procs': seq<Proc>, q: nat)
    requires IsLive(procs, q) && |procs'| == |procs|
    requires forall j: nat :: j < |procs| && procs[j].state == LIVE && procs[j].pid == q ==>
      procs'[j].state == LIVE && procs'[j].pid == q
    ensures IsLive(procs', q)
  {
    var j: nat :| LiveAt(procs, j, q);
    assert LiveAt(procs', j, q);
  }

  lemma LiveBelow(procs: seq<Proc>, nextPid: nat, q: nat)
    requires PidsOk(procs, nextPid) && IsLive(procs, q)
    ensures 0 < q < nextPid
  {
    var j: nat :| LiveAt(procs, j, q);
    assert Used(procs[j]);
  }

  lemma Spawned(procs: seq<Proc>, nextPid: nat, waiting: map<nat, int>, adopted: set<nat>, i: nat, ppid: nat)
    requires PidsOk(procs, nextPid) && IsLive(procs, INIT) && ParentsOk(procs) && NoMissed(procs, waiting, adopted)
    requires i < |procs| && !Used(procs[i]) && IsLive(procs, ppid) && nextPid > INIT
    ensures var procs' := procs[i := Proc(nextPid, ppid, LIVE, 0)];
      PidsOk(procs', nextPid + 1) && IsLive(procs', INIT) && ParentsOk(procs') && NoMissed(procs', waiting, adopted)
  {
    hide IsLive;
    var procs' := procs[i := Proc(nextPid, ppid, LIVE, 0)];
    LiveKept(procs, procs', INIT);
    LiveKept(procs, procs', ppid);
    LiveBelow(procs, nextPid, ppid);
    forall k: nat ensures ParentOk(procs', k) {
      assert ParentOk(procs, k);
      if k < |procs| && k != i && Used(procs[k]) && procs[k].pid != INIT { LiveKept(procs, procs', procs[k].ppid); }
    }
    forall w | w in waiting ensures IsLive(procs', w) { LiveKept(procs, procs', w); }
    forall w: nat, k: nat
      ensures NotMissed(procs', waiting, adopted, w, k)
    {
      assert NotMissed(procs, waiting, adopted, w, k);
    }
  }

  lemma SpawnMisses(procs: seq<Proc>, waiting: map<nat, int>, i: nat, p: Proc)
    requires i < |procs| && procs[i].state == UNUSED && p.state == LIVE
    ensures NoneMisses(procs[i := p], waiting) <==> NoneMisses(procs, waiting)
  {
    var procs' := procs[i := p];
    if w: nat, k: nat :| Misses(procs', waiting, w, k) { assert Misses(procs, waiting, w, k); }
    if w: nat, k: nat :| Misses(procs, waiting, w, k) { assert Misses(procs', waiting, w, k); }
  }

  lemma ExitKeeps(procs: seq<Proc>, procs': seq<Proc>, nextPid: nat, pid: nat, status: int)
    requires PidsOk(procs, nextPid) && IsLive(procs, INIT) && ParentsOk(procs) && pid > INIT
      && Exited(procs, procs', pid, status)
    ensures PidsOk(procs', nextPid) && IsLive(procs', INIT) && ParentsOk(procs')
  {
    hide IsLive;
    LiveKept(procs, procs', INIT);
    forall k: nat ensures ParentOk(procs', k) {
      assert ParentOk(procs, k);
      if k < |procs| && Used(procs[k]) && procs[k].pid != INIT && procs[k].ppid != pid {
        LiveKept(procs, procs', procs[k].ppid);
      }
    }
  }

  // ---- what the invariant says -----------------------------------------------------------------------------

  ghost predicate ChildOf(procs: seq<Proc>, c: nat, p: nat) {
    exists i: nat :: i < |procs| && Used(procs[i]) && procs[i].pid == c && procs[i].ppid == p
  }

  // The next process up the chain is the live parent, with a smaller pid.
  ghost predicate Climbs(procs: seq<Proc>, chain: seq<nat>, k: nat)
    requires k + 1 < |chain|
  {
    ChildOf(procs, chain[k], chain[k + 1]) && IsLive(procs, chain[k + 1]) && chain[k + 1] < chain[k]
  }

  // Parents form a tree rooted at init: from every process the parent links lead to init, with
  // ever smaller pids.
  lemma ChainToInit(procs: seq<Proc>, nextPid: nat, i: nat) returns (chain: seq<nat>)
    requires PidsOk(procs, nextPid) && ParentsOk(procs) && i < |procs| && Used(procs[i])
    ensures chain != [] && chain[0] == procs[i].pid && chain[|chain| - 1] == INIT
    ensures forall k: nat {:trigger Climbs(procs, chain, k)} :: k + 1 < |chain| ==> Climbs(procs, chain, k)
    decreases procs[i].pid
  {
    if procs[i].pid == INIT {
      chain := [INIT];
    } else {
      ParentAt(procs, i);
      var j: nat :| LiveAt(procs, j, procs[i].ppid);
      var rest := ChainToInit(procs, nextPid, j);
      chain := [procs[i].pid] + rest;
      assert ChildOf(procs, procs[i].pid, rest[0]);
      forall k: nat {:trigger Climbs(procs, chain, k)} | k + 1 < |chain| ensures Climbs(procs, chain, k) {
        if k > 0 { assert Climbs(procs, rest, k - 1); }
      }
    }
  }

  // No parent other than init sleeps in wait4 while a matching child is a zombie.
  lemma NobodySleepsOnZombie(t: Table, w: nat, i: nat)
    requires t.Valid() && w in t.waiting && i < PROC_MAX && t.procs[i].state == ZOMBIE && t.procs[i].ppid == w
      && Match(t.waiting[w], t.procs[i].pid)
    ensures w == INIT && t.procs[i].pid in t.adopted
  {
    assert NotMissed(t.procs, t.waiting, t.adopted, w, i);
  }

  lemma OneFirst(procs: seq<Proc>, i: nat)
    requires FirstUnused(procs, i)
    ensures forall j: nat :: FirstUnused(procs, j) ==> j == i
  {}

  // init, its child 2, grandchild 3 and great-grandchild 4.
  method FourGenerations() returns (t: Table)
    ensures fresh(t) && t.Valid() && t.waiting == map[] && (forall i :: 4 <= i < PROC_MAX ==> t.procs[i] == EMPTY)
    ensures t.procs[0] == Proc(1, 0, LIVE, 0) && t.procs[1] == Proc(2, 1, LIVE, 0) && t.procs[2] == Proc(3, 2, LIVE, 0)
      && t.procs[3] == Proc(4, 3, LIVE, 0)
  {
    hide PidsOk, ParentsOk, NoMissed, CountUsed;
    t := new Table();
    assert LiveAt(t.procs, 0, 1) && FirstUnused(t.procs, 1);
    OneFirst(t.procs, 1);
    var a := t.Alloc(1);
    assert FirstUnused(t.procs, 2) && LiveAt(t.procs, 1, 2);
    OneFirst(t.procs, 2);
    var b := t.Alloc(2);
    assert FirstUnused(t.procs, 3) && LiveAt(t.procs, 2, 3);
    OneFirst(t.procs, 3);
    var c := t.Alloc(3);
  }

  // Init can: a zombie whose parent dies is handed over without a wake-up.
  method InitSleepsOnZombie() returns (t: Table)
    ensures t.Valid() && INIT in t.waiting && t.waiting[INIT] <= 0
    ensures exists i ::
      0 <= i < PROC_MAX && t.procs[i].state == ZOMBIE && t.procs[i].pid == 4 && t.procs[i].ppid == INIT
  {
    hide PidsOk, ParentsOk, NoMissed, NoneMisses, CountUsed, Waited, ChildIn, Inherited, Statuses;
    t := FourGenerations();
    assert LiveAt(t.procs, 3, 4);
    ghost var _ := t.Die(4, 0);
    assert t.procs[3] == Proc(4, 3, ZOMBIE, 0) && t.procs[1] == Proc(2, 1, LIVE, 0)
      && t.procs[2] == Proc(3, 2, LIVE, 0);
    assert LiveAt(t.procs, 0, 1);
    var r := t.Wait4(1, -1);
    assert r.Sleeps?;
    assert LiveAt(t.procs, 2, 3);
    ghost var parent := t.Die(3, 0);
    assert t.procs[3] == Proc(4, 1, ZOMBIE, 0);
  }
}
