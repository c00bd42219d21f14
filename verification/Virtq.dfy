// The split virtqueue (section 2.7 of VIRTIO 1.2): descriptor accounting by the driver, against a
// device that completes chains in any order.
module Virtq {
  import opened Counting

  const WRAP: nat := 65536     // ring indices are 16 bits wide

  datatype Desc = Desc(addr: nat, len: nat, more: bool, write: bool, next: nat)   // more: F_NEXT
  datatype Sg = Sg(addr: nat, len: nat)
  datatype Done = Done(id: nat, len: nat)
  datatype Req = Req(sgs: seq<Sg>, out: nat)

  // Who has a descriptor.
  datatype Owner = Idle | Busy(head: nat)

  // The descriptors of s follow each other by their next fields.
  ghost predicate Linked(desc: seq<Desc>, s: seq<nat>) {
    && Distinct(s) && (forall i: nat :: i < |s| ==> s[i] < |desc|)
    && forall i: nat {:trigger Follows(desc, s, i)} :: i + 1 < |s| ==> Follows(desc, s, i)
  }

  ghost predicate Follows(desc: seq<Desc>, s: seq<nat>, i: nat)
    requires i + 1 < |s|
  {
    s[i] < |desc| && desc[s[i]].next == s[i + 1]
  }

  // A chain in flight: F_NEXT on all descriptors but the last.
  ghost predicate Chain(desc: seq<Desc>, head: nat, s: seq<nat>) {
    && s != [] && s[0] == head && Linked(desc, s)
    && forall i: nat :: i < |s| ==> (desc[s[i]].more <==> i + 1 < |s|)
  }

  ghost predicate Has(owner: seq<Owner>, s: seq<nat>, o: Owner) {
    forall d: nat :: d < |owner| ==> (d in s <==> owner[d] == o)
  }

  // The free list and the chains in flight partition the descriptors.
  ghost predicate Parts(desc: seq<Desc>, freeHead: nat, free: seq<nat>, chains: map<nat, seq<nat>>, owner: seq<Owner>) {
    && |owner| == |desc| && freeHead < |desc| && (forall d: nat :: d < |desc| ==> desc[d].next < |desc|)
    && Linked(desc, free) && (free != [] ==> free[0] == freeHead) && Has(owner, free, Idle)
    && (forall h :: h in chains ==> Chain(desc, h, chains[h]) && Has(owner, chains[h], Busy(h)))
    && (forall d: nat :: d < |owner| && owner[d].Busy? ==> owner[d].head in chains)
  }

  ghost predicate InRing<T(!new)>(ring: seq<T>, log: seq<T>, from: nat) {
    |ring| > 0 && forall j: nat :: from <= j < |log| ==> ring[j % |ring|] == log[j]
  }

  // The queue size is a power of two, so it divides the range of an index.
  ghost predicate Divides(size: nat, fold: nat) { size > 0 && fold >= 2 && size * fold == WRAP }

  predicate IsIndex(idx: nat, count: nat) { idx == count % WRAP }

  // Every chain in flight waits in the available ring, is held by the device, or waits in the
  // used ring, exactly once.
  ghost predicate Phases(keys: set<nat>, pending: seq<nat>, held: set<nat>, done: seq<nat>) {
    && Distinct(pending) && Distinct(done)
    && (forall h :: h in keys <==> h in pending || h in held || h in done)
    && (forall h :: !(h in pending && h in held) && !(h in pending && h in done) && !(h in held && h in done))
  }

  // ---- rings ------------------------------------------------------------------------------------------------------

  lemma MulGe(n: nat, k: int)
    requires k >= 1
    ensures n * k >= n
  {}

  lemma MulLe(n: nat, k: int)
    requires k <= 0
    ensures n * k <= 0
  {}

  // Fewer than n steps apart, two counters use different slots.
  lemma SlotsDiffer(j: nat, k: nat, n: nat)
    requires n > 0 && j < k < j + n
    ensures j % n != k % n
  {
    var q := k / n - j / n;
    assert k - j == n * q + (k % n - j % n) by {
      assert k == n * (k / n) + k % n && j == n * (j / n) + j % n;
      Distribute(n, k / n, j / n);
    }
    if q >= 1 { MulGe(n, q); } else { MulLe(n, q); }
  }

  lemma Distribute(n: nat, a: int, b: int)
    ensures n * a - n * b == n * (a - b)
  {}

  // Reducing an index modulo its 16-bit range does not change its slot.
  lemma WrapSlot(k: nat, n: nat, f: nat)
    requires Divides(n, f)
    ensures n > 0 && k % WRAP % n == k % n
  {
    var q, r := k / WRAP, k % WRAP;
    assert k == n * f * q + r;
    Regroup(n, f, q);
    AddMultiple(r, n, f * q);
  }

  lemma Regroup(n: nat, f: nat, q: nat)
    ensures n * f * q == n * (f * q)
  {}

  lemma {:induction false} AddMultiple(r: nat, n: nat, k: nat)
    requires n > 0
    ensures (r + n * k) % n == r % n
    decreases k
  {
    if k > 0 {
      AddMultiple(r, n, k - 1);
      Distribute(n, k, 1);
      AddOne(r + n * (k - 1), n);
    }
  }

  lemma AddOne(r: nat, n: nat)
    requires n > 0
    ensures (r + n) % n == r % n
  {
    assert r == n * (r / n) + r % n;
    Unique(r + n, n, r / n + 1, r % n);
  }

  lemma Unique(x: nat, n: nat, q: nat, r: nat)
    requires n > 0 && r < n && x == n * (q - 1) + r + n
    ensures x % n == r
  {
    var q', r' := x / n, x % n;
    assert x == n * q' + r';
    Distribute(n, q, q');
    Distribute(n, q, 1);
    if q > q' { MulGe(n, q - q'); } else if q < q' { MulLe(n, q - q' + 1); Distribute(n, q - q' + 1, 1); }
  }

  // Appending to a ring with room keeps every entry that is still waited for.
  lemma RingAppend<T(!new)>(ring: seq<T>, log: seq<T>, from: nat, x: T)
    requires InRing(ring, log, from) && from <= |log| < from + |ring|
    ensures InRing(ring[|log| % |ring| := x], log + [x], from)
  {
    var ring', log' := ring[|log| % |ring| := x], log + [x];
    forall j: nat | from <= j < |log'| ensures ring'[j % |ring'|] == log'[j] {
      if j < |log| { SlotsDiffer(j, |log|, |ring|); }
    }
  }

  // ---- counting -----------------------------------------------------------------------------------------------------

  lemma LinkedFacts(desc: seq<Desc>, s: seq<nat>)
    requires Linked(desc, s)
    ensures Distinct(s) && forall x :: x in s ==> x < |desc|
  {}

  // There are at most as many chains in flight as descriptors that are not free.
  lemma ChainsFit(desc: seq<Desc>, freeHead: nat, free: seq<nat>, chains: map<nat, seq<nat>>, owner: seq<Owner>)
    requires Parts(desc, freeHead, free, chains, owner)
    ensures |chains.Keys| + |free| <= |desc|
  {
    hide Linked;
    LinkedFacts(desc, free);
    forall h | h in chains ensures h < |desc| && h !in free {
      assert Chain(desc, h, chains[h]) && h == chains[h][0] && h in chains[h];
      LinkedFacts(desc, chains[h]);
    }
    DistinctCount(free);
    assert chains.Keys !! SetOf(free);
    assert |chains.Keys + SetOf(free)| == |chains.Keys| + |SetOf(free)|;
    Bounded(chains.Keys + SetOf(free), |desc|);
  }

  // Neither ring holds more entries than there are chains in flight.
  lemma PhasesFit(keys: set<nat>, pending: seq<nat>, held: set<nat>, done: seq<nat>)
    requires Phases(keys, pending, held, done)
    ensures |pending| <= |keys| && |done| <= |keys| && (held != {} ==> |done| < |keys|)
  {
    DistinctCount(pending);
    DistinctCount(done);
    SubsetCount(SetOf(pending), keys);
    SubsetCount(SetOf(done), keys);
    if held != {} {
      var h :| h in held;
      SubsetCount(SetOf(done) + {h}, keys);
      assert |SetOf(done) + {h}| == |SetOf(done)| + 1;
    }
  }

  // The id as the driver reads it, in 16 bits.
  function Id16(d: Done): nat { d.id % WRAP }

  // The ids in s that name a descriptor; the others are garbage.
  function Ids(s: seq<Done>, size: nat): seq<nat> {
    if s == [] then []
    else Ids(s[..|s| - 1], size) + (if Id16(s[|s| - 1]) < size then [Id16(s[|s| - 1])] else [])
  }

  class Queue {
    const size: nat
    ghost const fold: nat              // size * fold is the range of an index
    var desc: seq<Desc>
    var availRing: seq<nat>
    var availIdx: nat
    var usedRing: seq<Done>            // written by the device
    var usedIdx: nat                   // written by the device
    var freeHead: nat
    var numFree: nat
    var lastUsed: nat
    var devIdx: nat                    // the device's place in the available ring

    ghost var free: seq<nat>
    ghost var chains: map<nat, seq<nat>>
    ghost var owner: seq<Owner>
    ghost var reqs: map<nat, Req>      // what was asked for, by the head of its chain
    ghost var published: seq<nat>      // every head ever made available
    ghost var seen: nat                // how many of them the device has taken
    ghost var held: set<nat>           // taken by the device and not completed
    ghost var completed: seq<Done>     // everything the device ever completed
    ghost var taken: nat               // how many of them the driver has consumed

    ghost predicate Valid()
      reads this
    {
      && Divides(size, fold) && |desc| == size && |availRing| == size && |usedRing| == size
      && Parts(desc, freeHead, free, chains, owner) && numFree == |free|
      && seen <= |published| && taken <= |completed| <= taken + size
      && IsIndex(availIdx, |published|) && IsIndex(usedIdx, |completed|) && IsIndex(lastUsed, taken)
        && IsIndex(devIdx, seen)
      && InRing(availRing, published, seen) && InRing(usedRing, completed, taken)
      && Phases(chains.Keys, published[seen..], held, Ids(completed[taken..], size))
      && Described(desc, chains, reqs)
    }

    constructor (size: nat, ghost fold: nat)
      requires Divides(size, fold)
      ensures Valid() && this.size == size && numFree == size && published == [] && completed == [] && chains == map[]
        && seen == 0 && held == {}
    {
      this.size, this.fold := size, fold;
      var d: seq<Desc> := [];
      var i := 0;
      while i < size
        invariant i <= size && |d| == i && forall k: nat :: k < i ==>
          d[k] == Desc(0, 0, k + 1 < size, false, if k + 1 < size then k + 1 else 0)
      {
        d := d + [Desc(0, 0, i + 1 < size, false, if i + 1 < size then i + 1 else 0)];
        i := i + 1;
      }
      desc, availRing, usedRing := d, seq(size, k => 0), seq(size, k => Done(0, 0));
      availIdx, usedIdx, freeHead, numFree, lastUsed, devIdx := 0, 0, 0, size, 0, 0;
      free, chains, owner, reqs := seq(size, k => k), map[], seq(size, k => Idle), map[];
      published, seen, held, completed, taken := [], 0, {}, [], 0;
      new;
      assert Ids(completed[taken..], size) == [];
      AllFree(desc, free, owner);
    }

    // Fill the first total descriptors of the free list.
    method FillChain(sgs: seq<Sg>, out: nat, total: nat) returns (next: nat)
      requires Parts(desc, freeHead, free, chains, owner) && 0 < total <= |free| && total <= |sgs|
      modifies this`desc
      ensures |desc| == |old(desc)| && next < |desc| && (total < |free| ==> next == free[total])
      ensures forall d: nat :: d < |desc| && d !in free[..total] ==> desc[d] == old(desc)[d]
      ensures forall k: nat :: k < total ==>
        free[k] < |desc| && desc[free[k]] == Desc(sgs[k].addr, sgs[k].len, k + 1 < total, k >= out,
        old(desc)[free[k]].next)
    {
      next := freeHead;
      var i := 0;
      while i < total
        invariant i <= total && |desc| == |old(desc)| && next < |desc| && (i < |free| ==> next == free[i])
        invariant forall d: nat :: d < |desc| && d !in free[..i] ==> desc[d] == old(desc)[d]
        invariant forall k: nat :: k < i ==>
          free[k] < |desc| && desc[free[k]] == Desc(sgs[k].addr, sgs[k].len, k + 1 < total, k >= out,
          old(desc)[free[k]].next)
      {
        assert free[i] !in free[..i] && free[..i + 1] == free[..i] + [free[i]];
        assert i + 1 < |free| ==> Follows(old(desc), free, i);
        var d := desc[next];
        desc := desc[next := Desc(sgs[i].addr, sgs[i].len, i + 1 < total, i >= out, d.next)];
        next := d.next;
        i := i + 1;
      }
    }

    // virtq_add: queue one request; -1 when the descriptors do not suffice.
    method Add(sgs: seq<Sg>, out: nat, ins: nat) returns (head: int)
      requires Valid() && |sgs| == out + ins && out < WRAP && ins < WRAP
      modifies this
      ensures Valid() && seen == old(seen) && held == old(held) && completed == old(completed) && taken == old(taken)
      ensures head == -1 <==> Sum16(out, ins) == 0 || Sum16(out, ins) > old(numFree)
      ensures head == -1 ==> desc == old(desc) && chains == old(chains) && published == old(published)
      ensures head != -1 ==>
        && head >= 0 && published == old(published) + [head] && head !in old(chains) && head in chains
        && chains == old(chains)[head := chains[head]] && |chains[head]| == Sum16(out, ins)
          && Filled(desc, chains[head], sgs, out)
        && reqs == old(reqs)[head := Req(sgs, out)]
      ensures head == -1 || |chains[head]| == out + ins <==> SumFits(out, ins, old(numFree))
      ensures BusyKept(old(desc), desc, old(owner))
    {
      hide Parts, Phases, InRing, Divides, IsIndex, Ids, Filled, BusyKept, Sum16, Described, SumFits;
      FitsIff(out, ins, numFree);
      PartsSizes(desc, freeHead, free, chains, owner);
      NothingWritten(desc, owner);
      SumBound(out, ins);
      var total := Sum16(out, ins);
      if total == 0 || total > numFree { return -1; }
      head := AddChain(sgs, out, total);
    }

    method AddChain(sgs: seq<Sg>, out: nat, total: nat) returns (h: nat)
      requires Valid() && 0 < total <= numFree && total <= |sgs|
      modifies this`desc, this`freeHead, this`numFree, this`free, this`chains, this`owner, this`reqs, this`availRing,
        this`availIdx, this`published
      ensures reqs == old(reqs)[h := Req(sgs, out)]
      ensures Valid() && published == old(published) + [h] && h !in old(chains) && h in chains
        && chains == old(chains)[h := chains[h]]
      ensures |chains[h]| == total && Filled(desc, chains[h], sgs, out) && BusyKept(old(desc), desc, old(owner))
    {
      hide Parts, Phases, InRing, Divides, IsIndex, Ids, Filled, BusyKept, Described;
      RoomToAdd(desc, freeHead, free, chains, owner, published[seen..], held, Ids(completed[taken..], size));
      h := TakeChain(sgs, out, total);
      DescribedAdd(old(desc), desc, old(freeHead), old(free), old(chains), old(owner), reqs, h, chains[h], sgs, out);
      reqs := reqs[h := Req(sgs, out)];
      Publish(h);
    }

    // Move the first total free descriptors into a chain that describes sgs.
    method TakeChain(sgs: seq<Sg>, out: nat, total: nat) returns (head: nat)
      requires Parts(desc, freeHead, free, chains, owner) && numFree == |free| && 0 < total <= |free| && total <= |sgs|
      modifies this`desc, this`freeHead, this`numFree, this`free, this`chains, this`owner
      ensures Parts(desc, freeHead, free, chains, owner) && numFree == |free| && |desc| == |old(desc)|
      ensures head == old(freeHead) && head !in old(chains) && head in chains
        && chains == old(chains)[head := chains[head]] && chains.Keys == old(chains).Keys + {head}
      ensures |chains[head]| == total && Filled(desc, chains[head], sgs, out) && BusyKept(old(desc), desc, old(owner))
    {
      hide Parts, Filled, BusyKept, Given;
      PartsSizes(desc, freeHead, free, chains, owner);
      head := freeHead;
      var next := FillChain(sgs, out, total);
      FillFacts(old(desc), desc, free, owner, total, sgs, out);
      Taken(old(desc), desc, old(freeHead), next, free, chains, owner, total);
      freeHead := next;
      numFree := numFree - total;
      ghost var chain := free[..total];
      chains, owner, free := chains[head := chain], Given(owner, chain, Busy(head)), free[total..];
    }

    // The device looks for work: it meets the published heads in order, each once.
    method DeviceTake() returns (r: int)
      requires Valid()
      modifies this`devIdx, this`seen, this`held
      ensures Valid()
      ensures r == -1 <==> old(seen) == |published|
      ensures r == -1 ==> seen == old(seen) && held == old(held)
      ensures r != -1 ==> r == published[old(seen)] && r >= 0 && seen == old(seen) + 1 && held == old(held) + {r}
      ensures r != -1 ==> r in chains && r in reqs && Filled(desc, chains[r], reqs[r].sgs, reqs[r].out)
    {
      hide Parts, Phases, InRing, Ids, IsIndex, Divides, Filled;
      ChainsFit(desc, freeHead, free, chains, owner);
      ghost var done := Ids(completed[taken..], size);
      PhasesFit(chains.Keys, published[seen..], held, done);
      SizeBound(size, fold);
      SameIndex(devIdx, seen, availIdx, |published|);
      if devIdx == availIdx { return -1; }
      SlotOf(devIdx, seen, size, fold);
      r := availRing[devIdx % size];
      RingRead(availRing, published, seen);
      PhasesTake(chains.Keys, published[seen..], held, done);
      PhasesHeld(chains.Keys, published[seen..], held, done);
      NextIndex(devIdx, seen);
      devIdx := (devIdx + 1) % WRAP;
      held := held + {r};
      assert published[seen..][1..] == published[seen + 1..];
      seen := seen + 1;
    }

    // The device follows the next fields of a chain it took, as section 2.7.5 of VIRTIO 1.2 has it: it meets the
    // buffers of the request in order, first those it may read and then those it may write.
    method DeviceWalk(head: nat) returns (toRead: seq<Sg>, toWrite: seq<Sg>)
      requires Valid() && head in held
      ensures head in chains && head in reqs && |chains[head]| <= |reqs[head].sgs|
      ensures toRead + toWrite == reqs[head].sgs[..|chains[head]|]
      ensures |toRead| == if reqs[head].out < |chains[head]| then reqs[head].out else |chains[head]|
    {
      hide Phases, InRing, Ids, IsIndex, Divides, Linked;
      PhasesIn(chains.Keys, published[seen..], held, Ids(completed[taken..], size), head);
      assert head in chains && head in reqs;
      ghost var c, r := chains[head], reqs[head];
      WalkFacts(desc, freeHead, free, chains, owner, reqs, head);
      toRead, toWrite := [], [];
      var cur, k, more := head, 0, true;
      while more
        invariant k <= |c| && (more ==> k < |c| && cur == c[k]) && (!more ==> k == |c|)
        invariant toRead + toWrite == r.sgs[..k] && |toRead| == if r.out < k then r.out else k
        decreases |c| - k, more
      {
        WalkStep(desc, c, k);
        var d := desc[cur];
        assert r.sgs[..k + 1] == r.sgs[..k] + [Sg(d.addr, d.len)];
        if d.write {
          toWrite := toWrite + [Sg(d.addr, d.len)];
        } else {
          assert toWrite == [];
          toRead := toRead + [Sg(d.addr, d.len)];
        }
        cur, k, more := d.next, k + 1, d.more;
      }
    }

    // The device completes any chain it holds.
    method DeviceComplete(id: nat, len: nat)
      requires Valid() && id in held && |completed| < taken + size
      modifies this`usedRing, this`usedIdx, this`held, this`completed
      ensures Valid() && held == old(held) - {id} && completed == old(completed) + [Done(id, len)]
    {
      hide Parts, Phases, InRing, Ids, IsIndex, Divides, Described;
      HeldId(desc, freeHead, free, chains, owner, published[seen..], held, Ids(completed[taken..], size), id);
      SizeBound(size, fold);
      PhasesComplete(chains.Keys, published[seen..], held, Ids(completed[taken..], size), id);
      IdsAppend(completed[taken..], Done(id, len), size);
      PutUsed(Done(id, len));
      held := held - {id};
    }

    // A broken device reports an id that names no descriptor.
    method DeviceGarbage(d: Done)
      requires Valid() && Id16(d) >= size && |completed| < taken + size
      modifies this`usedRing, this`usedIdx, this`completed
      ensures Valid() && completed == old(completed) + [d]
    {
      hide Parts, Phases, InRing, Ids, IsIndex, Divides, Described;
      IdsAppend(completed[taken..], d, size);
      PutUsed(d);
      assert Ids(completed[taken..], size) == Ids(old(completed)[taken..], size);
    }

    // Write the next used slot and advance the index.
    method PutUsed(d: Done)
      requires Divides(size, fold) && |usedRing| == size && IsIndex(usedIdx, |completed|)
        && InRing(usedRing, completed, taken) && taken <= |completed| < taken + size
      modifies this`usedRing, this`usedIdx, this`completed
      ensures |usedRing| == size && completed == old(completed) + [d] && IsIndex(usedIdx, |completed|)
        && InRing(usedRing, completed, taken)
      ensures completed[taken..] == old(completed)[taken..] + [d]
    {
      hide InRing, IsIndex, Divides;
      SlotOf(usedIdx, |completed|, size, fold);
      RingAppend(usedRing, completed, taken, d);
      NextIndex(usedIdx, |completed|);
      usedRing := usedRing[usedIdx % size := d];
      usedIdx := (usedIdx + 1) % WRAP;
      completed := completed + [d];
    }

    // A device that writes no garbage never runs out of used slots.
    lemma RoomToComplete()
      requires Valid() && held != {} && forall d :: d in completed[taken..] ==> Id16(d) < size
      ensures |completed| < taken + size
    {
      hide Parts, Phases, InRing, Ids, IsIndex, Divides, Described;
      ChainsFit(desc, freeHead, free, chains, owner);
      PhasesFit(chains.Keys, published[seen..], held, Ids(completed[taken..], size));
      IdsAll(completed[taken..], size);
    }

    // Walk a chain to its tail.
    method FindTail(id: nat) returns (tail: nat, count: nat)
      requires |desc| == size && id in chains && Chain(desc, id, chains[id])
      ensures count == |chains[id]| && tail == chains[id][count - 1]
    {
      ghost var c := chains[id];
      ChainShort(desc, id, c);
      tail, count := id, 1;
      while desc[tail].more && count < size
        invariant 1 <= count <= |c| <= size && tail == c[count - 1] && tail < |desc|
        decreases |c| - count
      {
        assert Follows(desc, c, count - 1);
        tail := desc[tail].next;
        count := count + 1;
      }
    }

    // virtq_take_used: consume one completion and recycle its chain; -1 when there is none, -2 when its id names no
    // descriptor.  An id that names one is always that of a chain in flight.
    method TakeUsed() returns (r: int, len: nat)
      requires Valid()
      modifies this`desc, this`freeHead, this`numFree, this`lastUsed, this`free, this`chains, this`owner, this`reqs,
        this`taken
      ensures Valid()
      ensures r == -1 <==> old(taken) == |completed|
      ensures r == -2 <==> old(taken) < |completed| && Id16(completed[old(taken)]) >= size
      ensures r < 0 ==> desc == old(desc) && chains == old(chains) && numFree == old(numFree) && reqs == old(reqs)
      ensures taken == if r == -1 then old(taken) else old(taken) + 1
      ensures r != -1 && r != -2 ==>
        && r >= 0 && r == Id16(completed[old(taken)]) && len == completed[old(taken)].len
        && r in old(chains) && chains == old(chains) - {r} && numFree == old(numFree) + |old(chains)[r]|
        && OthersKept(old(desc), desc, old(owner), r) && reqs == old(reqs) - {r}
    {
      hide Parts, Phases, InRing, Ids, Chain, IsIndex, Divides, OthersKept, Described;
      len := 0;
      var some, e := NextUsed();
      if !some { return -1, len; }
      PhasesNext(chains.Keys, published[seen..], held, completed, old(taken), size);
      var id := Id16(e);
      if id >= size { return -2, len; }
      len := e.len;
      r := id;
      Recycle(id);
      DescribedDrop(old(desc), desc, old(freeHead), old(free), old(chains), old(owner), reqs, id);
      reqs := reqs - {id};
    }

    // The next element of the used ring, if there is one.
    method NextUsed() returns (some: bool, e: Done)
      requires Valid()
      modifies this`lastUsed, this`taken
      ensures some <==> old(taken) < |completed|
      ensures !some ==> Valid() && taken == old(taken)
      ensures some ==>
        taken == old(taken) + 1 <= |completed| && e == completed[old(taken)] && IsIndex(lastUsed, taken)
        && InRing(usedRing, completed, taken)
    {
      hide Parts, Phases, InRing, Ids, IsIndex, Divides, Described;
      e := Done(0, 0);
      SizeBound(size, fold);
      SameIndex(lastUsed, taken, usedIdx, |completed|);
      some := lastUsed != usedIdx;
      if !some { return; }
      SlotOf(lastUsed, taken, size, fold);
      e := usedRing[lastUsed % size];
      RingRead(usedRing, completed, taken);
      NextIndex(lastUsed, taken);
      lastUsed := (lastUsed + 1) % WRAP;
      taken := taken + 1;
    }

    // Splice the chain onto the free list.
    method Recycle(id: nat)
      requires |desc| == size && Parts(desc, freeHead, free, chains, owner) && numFree == |free| && id in chains
      modifies this`desc, this`freeHead, this`numFree, this`free, this`chains, this`owner
      ensures |desc| == size && Parts(desc, freeHead, free, chains, owner) && numFree == |free|
        && chains == old(chains) - {id}
      ensures numFree == old(numFree) + |old(chains)[id]| && OthersKept(old(desc), desc, old(owner), id)
    {
      hide Chain, Linked, Has;
      var tail, count := FindTail(id);
      ghost var c := chains[id];
      Released(desc, freeHead, free, chains, owner, id);
      desc := desc[tail := desc[tail].(more := true, write := false, next := freeHead)];
      freeHead := id;
      numFree := numFree + count;
      chains, owner, free := chains - {id}, Given(owner, c, Idle), c + free;
    }

    // Write the next available slot and advance the index.
    method Publish(head: nat)
      requires Divides(size, fold) && |availRing| == size && IsIndex(availIdx, |published|)
        && InRing(availRing, published, seen)
      requires seen <= |published| < seen + size
      modifies this`availRing, this`availIdx, this`published
      ensures |availRing| == size && published == old(published) + [head] && IsIndex(availIdx, |published|)
        && InRing(availRing, published, seen)
      ensures published[seen..] == old(published)[seen..] + [head]
    {
      hide InRing, IsIndex, Divides;
      SlotOf(availIdx, |published|, size, fold);
      RingAppend(availRing, published, seen, head);
      availRing := availRing[availIdx % size := head];
      NextIndex(availIdx, |published|);
      availIdx := (availIdx + 1) % WRAP;
      published := published + [head];
    }
  }

  lemma AllFree(desc: seq<Desc>, free: seq<nat>, owner: seq<Owner>)
    requires |desc| > 0 && |free| == |owner| == |desc| && forall k: nat :: k < |desc| ==>
      free[k] == k && owner[k] == Idle
    requires forall k: nat :: k < |desc| ==> desc[k].next == if k + 1 < |desc| then k + 1 else 0
    ensures Parts(desc, 0, free, map[], owner)
  {
    forall k: nat | k + 1 < |free| ensures Follows(desc, free, k) {}
    forall d: nat | d < |owner| ensures d in free { assert free[d] == d; }
  }

  lemma WalkFacts(desc: seq<Desc>, freeHead: nat, free: seq<nat>, chains: map<nat, seq<nat>>, owner: seq<Owner>,
                  reqs: map<nat, Req>, h: nat)
    requires Parts(desc, freeHead, free, chains, owner) && Described(desc, chains, reqs) && h in chains && h in reqs
    ensures Chain(desc, h, chains[h]) && Filled(desc, chains[h], reqs[h].sgs, reqs[h].out)
  {}

  lemma WalkStep(desc: seq<Desc>, c: seq<nat>, k: nat)
    requires Linked(desc, c) && k < |c|
    ensures c[k] < |desc| && (k + 1 < |c| ==> desc[c[k]].next == c[k + 1])
  {
    assert k + 1 < |c| ==> Follows(desc, c, k);
  }

  lemma PhasesIn(keys: set<nat>, pending: seq<nat>, held: set<nat>, done: seq<nat>, h: nat)
    requires Phases(keys, pending, held, done) && h in held
    ensures h in keys
  {}

  // The chain describes the buffers: readable ones first, then writable ones.
  ghost predicate Filled(desc: seq<Desc>, chain: seq<nat>, sgs: seq<Sg>, out: nat) {
    && |chain| <= |sgs|
    && forall k: nat :: k < |chain| ==>
      chain[k] < |desc| && var d := desc[chain[k]];
        d.addr == sgs[k].addr && d.len == sgs[k].len && d.write == (k >= out)
  }

  // Every chain in flight still describes the request it was made for.
  ghost predicate Described(desc: seq<Desc>, chains: map<nat, seq<nat>>, reqs: map<nat, Req>) {
    && reqs.Keys == chains.Keys
    && forall h {:trigger chains[h]} :: h in chains ==> Filled(desc, chains[h], reqs[h].sgs, reqs[h].out)
  }

  lemma FilledKept(desc: seq<Desc>, desc': seq<Desc>, chain: seq<nat>, r: Req, owner: seq<Owner>, h: nat)
    requires Filled(desc, chain, r.sgs, r.out) && |desc| == |desc'| == |owner| && Has(owner, chain, Busy(h))
    requires forall d: nat :: d < |desc| && owner[d] == Busy(h) ==> desc'[d] == desc[d]
    ensures Filled(desc', chain, r.sgs, r.out)
  {
    forall k: nat | k < |chain|
      ensures chain[k] < |desc| && desc'[chain[k]] == desc[chain[k]]
    {
      assert chain[k] in chain;
    }
  }

  lemma DescribedAdd(desc: seq<Desc>, desc': seq<Desc>, freeHead: nat, free: seq<nat>, chains: map<nat, seq<nat>>,
                     owner: seq<Owner>, reqs: map<nat, Req>, h: nat, chain: seq<nat>, sgs: seq<Sg>, out: nat)
    requires Parts(desc, freeHead, free, chains, owner) && Described(desc, chains, reqs) && BusyKept(desc, desc', owner)
    requires h !in chains && Filled(desc', chain, sgs, out)
    ensures Described(desc', chains[h := chain], reqs[h := Req(sgs, out)])
  {
    hide Filled, Linked, Chain, Has;
    forall g | g in chains ensures Filled(desc', chains[g], reqs[g].sgs, reqs[g].out) {
      FilledKept(desc, desc', chains[g], reqs[g], owner, g);
    }
  }

  lemma DescribedDrop(desc: seq<Desc>, desc': seq<Desc>, freeHead: nat, free: seq<nat>, chains: map<nat, seq<nat>>,
                      owner: seq<Owner>, reqs: map<nat, Req>, h: nat)
    requires Parts(desc, freeHead, free, chains, owner) && Described(desc, chains, reqs)
      && OthersKept(desc, desc', owner, h)
    ensures Described(desc', chains - {h}, reqs - {h})
  {
    hide Filled, Linked, Chain, Has;
    forall g | g in chains && g != h ensures Filled(desc', chains[g], reqs[g].sgs, reqs[g].out) {
      FilledKept(desc, desc', chains[g], reqs[g], owner, g);
    }
  }

  // No descriptor in flight was written.
  ghost predicate BusyKept(desc: seq<Desc>, desc': seq<Desc>, owner: seq<Owner>) {
    |desc| == |desc'| == |owner| && forall d: nat :: d < |desc| && owner[d].Busy? ==> desc'[d] == desc[d]
  }

  lemma FillFacts(desc: seq<Desc>, desc': seq<Desc>, free: seq<nat>, owner: seq<Owner>, total: nat, sgs: seq<Sg>,
                  out: nat)
    requires |desc| == |desc'| == |owner| && total <= |free| && total <= |sgs|
      && (forall d: nat :: d < |desc| ==> (d in free <==> owner[d] == Idle))
    requires forall d: nat :: d < |desc| && d !in free[..total] ==> desc'[d] == desc[d]
    requires forall k: nat :: k < total ==>
      free[k] < |desc'| && desc'[free[k]] == Desc(sgs[k].addr, sgs[k].len, k + 1 < total, k >= out, desc[free[k]].next)
    ensures Filled(desc', free[..total], sgs, out) && BusyKept(desc, desc', owner)
  {
    forall d: nat | d < |desc| && owner[d].Busy? ensures desc'[d] == desc[d] {
      assert d !in free[..total];
    }
  }

  lemma PartsSizes(desc: seq<Desc>, freeHead: nat, free: seq<nat>, chains: map<nat, seq<nat>>, owner: seq<Owner>)
    requires Parts(desc, freeHead, free, chains, owner)
    ensures |owner| == |desc| && freeHead < |desc| && (free != [] ==> free[0] == freeHead && freeHead !in chains)
    ensures forall d: nat :: d < |desc| ==> (d in free <==> owner[d] == Idle)
    ensures forall h :: h in chains ==> h < |desc| && owner[h] == Busy(h)
  {
    forall h | h in chains ensures h < |desc| && owner[h] == Busy(h) {
      assert Chain(desc, h, chains[h]) && chains[h][0] in chains[h];
    }
  }

  // Only descriptors of chain h were written.
  ghost predicate OthersKept(desc: seq<Desc>, desc': seq<Desc>, owner: seq<Owner>, h: nat) {
    |desc| == |desc'| == |owner| && forall d: nat :: d < |desc| && owner[d] != Busy(h) ==> desc'[d] == desc[d]
  }

  lemma SizeBound(size: nat, fold: nat)
    requires Divides(size, fold)
    ensures 0 < size < WRAP
  {
    MulGe(size, fold - 1);
    Distribute(size, fold, 1);
  }

  // Less than a whole range apart, equal indices mean equal counts.
  lemma SameIndex(i: nat, a: nat, j: nat, b: nat)
    requires IsIndex(i, a) && IsIndex(j, b) && a <= b < a + WRAP
    ensures i == j <==> a == b
  {
    if a < b { SlotsDiffer(a, b, WRAP); }
  }

  // The slot an index leads to is that of the count it stands for.
  lemma SlotOf(i: nat, a: nat, size: nat, fold: nat)
    requires IsIndex(i, a) && Divides(size, fold)
    ensures size > 0 && i % size == a % size
  {
    WrapSlot(a, size, fold);
  }

  lemma RingRead<T(!new)>(ring: seq<T>, log: seq<T>, from: nat)
    requires InRing(ring, log, from) && from < |log|
    ensures |ring| > 0 && ring[from % |ring|] == log[from] && InRing(ring, log, from + 1)
  {}

  lemma IdsAppend(s: seq<Done>, d: Done, size: nat)
    ensures Ids(s + [d], size) == Ids(s, size) + (if Id16(d) < size then [Id16(d)] else [])
  {
    assert (s + [d])[..|s|] == s;
  }

  lemma {:induction false} IdsTail(s: seq<Done>, size: nat)
    requires s != []
    ensures Ids(s, size) == (if Id16(s[0]) < size then [Id16(s[0])] else []) + Ids(s[1..], size)
    decreases |s|
  {
    var n := |s| - 1;
    if n == 0 {
      assert s[..0] == [] && s[1..] == [];
    } else {
      IdsTail(s[..n], size);
      assert s[..n][1..] == s[1..][..n - 1] && s[..n][0] == s[0] && s[1..][n - 1] == s[n];
    }
  }

  // With no garbage among them, the completions not yet consumed are as many as their ids.
  lemma {:induction false} IdsAll(s: seq<Done>, size: nat)
    requires forall d :: d in s ==> Id16(d) < size
    ensures |Ids(s, size)| == |s|
  {
    if s != [] { IdsAll(s[..|s| - 1], size); }
  }

  // One completion is consumed: its chain leaves, unless it is garbage.
  lemma PhasesNext(keys: set<nat>, pending: seq<nat>, held: set<nat>, completed: seq<Done>, k: nat, size: nat)
    requires k < |completed| && Phases(keys, pending, held, Ids(completed[k..], size))
    ensures Id16(completed[k]) >= size ==> Phases(keys, pending, held, Ids(completed[k + 1..], size))
    ensures Id16(completed[k]) < size ==>
      Id16(completed[k]) in keys && Phases(keys - {Id16(completed[k])}, pending, held, Ids(completed[k + 1..], size))
  {
    hide Phases, Ids;
    IdsTail(completed[k..], size);
    assert completed[k..][1..] == completed[k + 1..];
    var done := Ids(completed[k..], size);
    if Id16(completed[k]) < size {
      assert done[1..] == Ids(completed[k + 1..], size);
      PhasesReap(keys, pending, held, done);
    } else {
      assert done == Ids(completed[k + 1..], size);
    }
  }

  // A chain that the device holds has a descriptor's id.
  lemma HeldId(desc: seq<Desc>, freeHead: nat, free: seq<nat>, chains: map<nat, seq<nat>>, owner: seq<Owner>,
               pending: seq<nat>, held: set<nat>, done: seq<nat>, id: nat)
    requires Parts(desc, freeHead, free, chains, owner) && Phases(chains.Keys, pending, held, done) && id in held
    ensures id < |desc|
  {
    assert id in chains && Chain(desc, id, chains[id]) && id == chains[id][0] && id in chains[id];
    LinkedFacts(desc, chains[id]);
  }

  lemma PhasesTake(keys: set<nat>, pending: seq<nat>, held: set<nat>, done: seq<nat>)
    requires Phases(keys, pending, held, done) && pending != []
    ensures Phases(keys, pending[1..], held + {pending[0]}, done)
  {
    assert pending == [pending[0]] + pending[1..];
  }

  lemma PhasesHeld(keys: set<nat>, pending: seq<nat>, held: set<nat>, done: seq<nat>)
    requires Phases(keys, pending, held, done) && pending != []
    ensures pending[0] in keys
  {
    assert pending[0] in pending;
  }

  lemma PhasesComplete(keys: set<nat>, pending: seq<nat>, held: set<nat>, done: seq<nat>, h: nat)
    requires Phases(keys, pending, held, done) && h in held
    ensures Phases(keys, pending, held - {h}, done + [h])
  {}

  lemma PhasesReap(keys: set<nat>, pending: seq<nat>, held: set<nat>, done: seq<nat>)
    requires Phases(keys, pending, held, done) && done != []
    ensures done[0] in keys && Phases(keys - {done[0]}, pending, held, done[1..])
  {
    assert done == [done[0]] + done[1..] && done[0] in done;
  }

  lemma ChainShort(desc: seq<Desc>, h: nat, c: seq<nat>)
    requires Chain(desc, h, c)
    ensures |c| <= |desc| && forall i: nat :: i < |c| ==> c[i] < |desc|
  {
    DistinctCount(c);
    Bounded(SetOf(c), |desc|);
  }

  // A finished chain goes in front of the free list.
  lemma Released(desc: seq<Desc>, freeHead: nat, free: seq<nat>, chains: map<nat, seq<nat>>, owner: seq<Owner>, h: nat)
    requires Parts(desc, freeHead, free, chains, owner) && h in chains
    ensures Chain(desc, h, chains[h]) && chains[h] != []
    ensures var c := chains[h];
      var tail := c[|c| - 1];
      && tail < |desc|
      && var desc' := desc[tail := desc[tail].(more := true, write := false, next := freeHead)];
         Parts(desc', h, c + free, chains - {h}, Given(owner, c, Idle)) && OthersKept(desc, desc', owner, h)
  {
    var c := chains[h];
    var tail := c[|c| - 1];
    assert Chain(desc, h, c) && Has(owner, c, Busy(h));
    assert tail in c;
    var desc' := desc[tail := desc[tail].(more := true, write := false, next := freeHead)];
    var owner' := Given(owner, c, Idle);
    assert Linked(desc', c + free) by { Spliced(desc, desc', c, free, freeHead, owner, h); }
    forall g | g in chains - {h} ensures Chain(desc', g, chains[g]) && Has(owner', chains[g], Busy(g)) {
      OtherChain(desc, desc', g, chains[g], owner, h, tail);
      assert Has(owner, chains[g], Busy(g));
    }
  }

  lemma Spliced(desc: seq<Desc>, desc': seq<Desc>, c: seq<nat>, free: seq<nat>, freeHead: nat, owner: seq<Owner>,
                h: nat)
    requires Chain(desc, h, c) && Linked(desc, free) && (free != [] ==> free[0] == freeHead) && |owner| == |desc|
    requires Has(owner, c, Busy(h)) && Has(owner, free, Idle)
    requires var tail := c[|c| - 1];
      tail < |desc| && desc' == desc[tail := desc[tail].(more := true, write := false, next := freeHead)]
    ensures Linked(desc', c + free)
  {
    var s := c + free;
    forall i, j | 0 <= i < j < |s| ensures s[i] != s[j] {
      if i < |c| <= j { assert c[i] in c && free[j - |c|] in free; }
    }
    forall i: nat | i + 1 < |s| ensures Follows(desc', s, i) {
      if i + 1 < |c| {
        assert Follows(desc, c, i);
      } else if i >= |c| {
        assert Follows(desc, free, i - |c|);
        assert free[i - |c|] in free && c[|c| - 1] in c;
      }
    }
  }

  lemma OtherChain(desc: seq<Desc>, desc': seq<Desc>, g: nat, c: seq<nat>, owner: seq<Owner>, h: nat, tail: nat)
    requires Chain(desc, g, c) && g != h && |owner| == |desc| == |desc'| && Has(owner, c, Busy(g)) && tail < |desc|
      && owner[tail] == Busy(h)
    requires forall d: nat :: d < |desc| && d != tail ==> desc'[d] == desc[d]
    ensures Chain(desc', g, c)
  {
    forall i: nat | i < |c| ensures c[i] < |desc| && c[i] != tail { assert c[i] in c; }
    forall i: nat | i + 1 < |c| ensures Follows(desc', c, i) { assert Follows(desc, c, i); }
  }

  lemma FreeHeadNew(desc: seq<Desc>, freeHead: nat, free: seq<nat>, chains: map<nat, seq<nat>>, owner: seq<Owner>)
    requires Parts(desc, freeHead, free, chains, owner) && free != []
    ensures freeHead !in chains
  {
    PartsSizes(desc, freeHead, free, chains, owner);
  }

  // A free descriptor leaves room in the available ring, and its chain will be a new one.
  lemma RoomToAdd(desc: seq<Desc>, freeHead: nat, free: seq<nat>, chains: map<nat, seq<nat>>, owner: seq<Owner>,
                  pending: seq<nat>, held: set<nat>, done: seq<nat>)
    requires Parts(desc, freeHead, free, chains, owner) && free != [] && Phases(chains.Keys, pending, held, done)
    ensures freeHead !in chains && |pending| < |desc|
      && Phases(chains.Keys + {freeHead}, pending + [freeHead], held, done)
  {
    hide Parts, Phases;
    FreeHeadNew(desc, freeHead, free, chains, owner);
    ChainsFit(desc, freeHead, free, chains, owner);
    PhasesFit(chains.Keys, pending, held, done);
    PhasesAdd(chains.Keys, pending, held, done, freeHead);
  }

  ghost function Given(owner: seq<Owner>, s: seq<nat>, o: Owner): seq<Owner> {
    seq(|owner|, d requires 0 <= d < |owner| => if d in s then o else owner[d])
  }

  lemma NothingWritten(desc: seq<Desc>, owner: seq<Owner>)
    requires |desc| == |owner|
    ensures BusyKept(desc, desc, owner)
  {}

  // The sum of two 16-bit counts, in 16 bits.
  function Sum16(a: nat, b: nat): nat { (a + b) % WRAP }

  // The counts add up in 16 bits, or what is left of them is refused anyway.
  predicate SumFits(out: nat, ins: nat, numFree: nat) {
    out + ins < WRAP || Sum16(out, ins) == 0 || Sum16(out, ins) > numFree
  }

  lemma FitsIff(out: nat, ins: nat, numFree: nat)
    ensures Sum16(out, ins) == 0 || Sum16(out, ins) > numFree || Sum16(out, ins) == out + ins <==>
      SumFits(out, ins, numFree)
  {}

  // 65535 readable and 2 writable buffers: the queue takes the first one and drops the other 65536.
  method WrappedRequest() returns (q: Queue, head: nat, sgs: seq<Sg>)
    ensures fresh(q) && q.Valid() && |sgs| == 65535 + 2 && q.published == [head]
    ensures head in q.chains && |q.chains[head]| == 1 && q.reqs == map[head := Req(sgs, 65535)]
  {
    q := new Queue(4, 16384);
    sgs := seq<Sg>(65537, k => Sg(0, 1));
    var h := q.Add(sgs, 65535, 2);
    head := h;
  }

  lemma SumBound(a: nat, b: nat)
    ensures Sum16(a, b) <= a + b
  {}

  lemma NextIndex(i: nat, k: nat)
    requires IsIndex(i, k)
    ensures IsIndex((i + 1) % WRAP, k + 1)
  {}

  lemma PhasesAdd(keys: set<nat>, pending: seq<nat>, held: set<nat>, done: seq<nat>, h: nat)
    requires Phases(keys, pending, held, done) && h !in keys
    ensures Phases(keys + {h}, pending + [h], held, done)
  {}

  // The first total free descriptors became a chain.
  lemma Taken(desc: seq<Desc>, desc': seq<Desc>, freeHead: nat, freeHead': nat, free: seq<nat>,
              chains: map<nat, seq<nat>>, owner: seq<Owner>, total: nat)
    requires Parts(desc, freeHead, free, chains, owner) && 0 < total <= |free| && |desc'| == |desc|
      && freeHead' < |desc|
    requires total < |free| ==> freeHead' == free[total]
    requires forall d: nat :: d < |desc| && d !in free[..total] ==> desc'[d] == desc[d]
    requires forall k: nat :: k < total ==>
      free[k] < |desc| && desc'[free[k]].more == (k + 1 < total) && desc'[free[k]].next == desc[free[k]].next
    ensures freeHead !in chains && freeHead == free[0]
    ensures Parts(desc', freeHead', free[total..], chains[freeHead := free[..total]],
      Given(owner, free[..total], Busy(freeHead)))
  {
    var chain, rest := free[..total], free[total..];
    var owner' := Given(owner, chain, Busy(freeHead));
    assert free == chain + rest;
    assert freeHead !in chains by {
      PartsSizes(desc, freeHead, free, chains, owner);
      assert free[0] in free;
    }
    assert Chain(desc', freeHead, chain) by { FrontChain(desc, desc', free, total); }
    assert Linked(desc', rest) by { BackLinked(desc, desc', free, total); }
    forall h | h in chains ensures Chain(desc', h, chains[h]) && Has(owner', chains[h], Busy(h)) {
      ChainKept(desc, desc', h, chains[h], free, owner);
    }
  }

  lemma FrontChain(desc: seq<Desc>, desc': seq<Desc>, free: seq<nat>, total: nat)
    requires Linked(desc, free) && 0 < total <= |free| && |desc'| == |desc|
    requires forall k: nat :: k < total ==>
      free[k] < |desc| && desc'[free[k]].more == (k + 1 < total) && desc'[free[k]].next == desc[free[k]].next
    ensures Chain(desc', free[0], free[..total])
  {
    var chain := free[..total];
    forall i: nat | i + 1 < |chain| ensures Follows(desc', chain, i) { assert Follows(desc, free, i); }
  }

  lemma BackLinked(desc: seq<Desc>, desc': seq<Desc>, free: seq<nat>, total: nat)
    requires Linked(desc, free) && total <= |free| && |desc'| == |desc| && forall d: nat ::
      d < |desc| && d !in free[..total] ==> desc'[d] == desc[d]
    ensures Linked(desc', free[total..])
  {
    var rest := free[total..];
    forall i: nat | i + 1 < |rest| ensures Follows(desc', rest, i) {
      assert Follows(desc, free, total + i);
      assert rest[i] !in free[..total];
    }
  }

  // A chain whose descriptors were not written is still a chain.
  lemma ChainKept(desc: seq<Desc>, desc': seq<Desc>, h: nat, chain: seq<nat>, written: seq<nat>, owner: seq<Owner>)
    requires Chain(desc, h, chain) && |desc'| == |desc| == |owner| && Has(owner, chain, Busy(h))
      && Has(owner, written, Idle)
    requires forall d: nat :: d < |desc| && d !in written ==> desc'[d] == desc[d]
    ensures Chain(desc', h, chain)
  {
    forall i: nat | i < |chain| ensures chain[i] < |desc| && desc'[chain[i]] == desc[chain[i]] {
      assert chain[i] in chain;
    }
    forall i: nat | i + 1 < |chain| ensures Follows(desc', chain, i) { assert Follows(desc, chain, i); }
  }
}
