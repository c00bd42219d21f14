// Anonymous pipes: the ring buffer, and the blocking protocol over it for any number of reader
// and writer threads.
module PipeRing {
  // The last i slots before wrapping and the first ones after it.
  function Slot(cap: nat, head: nat, i: nat): nat
    requires head < cap
  {
    if head + i < cap then head + i else head + i - cap
  }

  lemma SlotIsMod(cap: nat, head: nat, i: nat)
    requires head < cap && i <= cap
    ensures Slot(cap, head, i) == (head + i) % cap
  {
    if head + i >= cap {
      assert head + i == cap + (head + i - cap);
      WrapOnce(head + i - cap, cap);
    }
  }

  lemma WrapOnce(r: nat, cap: nat)
    requires r <= cap && cap > 0
    ensures r < cap ==> (cap + r) % cap == r
    ensures r == cap ==> (cap + r) % cap == 0
  {}

  class Ring<T> {
    const buf: array<T>
    var head: nat
    var count: nat

    ghost predicate Valid()
      reads this
    {
      0 < buf.Length && head < buf.Length && count <= buf.Length
    }

    // The bytes queued, oldest first.
    ghost function Contents(): (s: seq<T>)
      requires Valid()
      reads this, buf
      ensures |s| == count
    {
      seq(count, i requires 0 <= i < count && Valid() reads this, buf => buf[Slot(buf.Length, head, i)])
    }

    constructor (storage: array<T>)
      requires storage.Length > 0
      ensures Valid() && buf == storage && Contents() == []
    {
      buf, head, count := storage, 0, 0;
    }

    // memcpy out of the buffer.
    method CopyOut(at: nat, n: nat) returns (s: seq<T>)
      requires at + n <= buf.Length
      ensures s == buf[at..at + n]
    {
      s := [];
      var i := 0;
      while i < n
        invariant i <= n && s == buf[at..at + i]
      {
        s := s + [buf[at + i]];
        i := i + 1;
      }
    }

    // memcpy into the buffer.
    method CopyIn(at: nat, src: seq<T>)
      requires at + |src| <= buf.Length
      modifies buf
      ensures forall j :: 0 <= j < buf.Length ==> buf[j] == if at <= j < at + |src| then src[j - at] else old(buf[j])
    {
      var i := 0;
      while i < |src|
        invariant i <= |src|
        invariant forall j :: 0 <= j < buf.Length ==> buf[j] == if at <= j < at + i then src[j - at] else old(buf[j])
      {
        buf[at + i] := src[i];
        i := i + 1;
      }
    }

    method Read(len: nat) returns (dst: seq<T>)
      requires Valid()
      modifies this
      ensures Valid() && |dst| == (if len < old(count) then len else old(count))
      ensures dst + Contents() == old(Contents()) && buf[..] == old(buf[..])
    {
      var n := if len < count then len else count;
      var first := buf.Length - head;
      if first > n { first := n; }
      ghost var before := Contents();
      ghost var h := head;
      var a := CopyOut(head, first);
      var b := CopyOut(0, n - first);
      dst := a + b;
      forall i | 0 <= i < n ensures dst[i] == before[i] {}
      SlotIsMod(buf.Length, head, n);
      head := (head + n) % buf.Length;
      count := count - n;
      forall i | 0 <= i < count ensures Contents()[i] == before[n + i] {}
    }

    method Write(src: seq<T>) returns (n: nat)
      requires Valid()
      modifies this`count, buf
      ensures Valid() && n == (if |src| < buf.Length - old(count) then |src| else buf.Length - old(count))
      ensures n <= |src| && Contents() == old(Contents()) + src[..n]
    {
      var space := buf.Length - count;
      n := if |src| < space then |src| else space;
      SlotIsMod(buf.Length, head, count);
      var tail := (head + count) % buf.Length;
      var first := buf.Length - tail;
      if first > n { first := n; }
      ghost var before := Contents();
      CopyIn(tail, src[..first]);
      CopyIn(0, src[first..n]);
      count := count + n;
      forall i | 0 <= i < count ensures buf[Slot(buf.Length, head, i)] == (before + src[..n])[i] {
        SlotsApart(buf.Length, head, count - n, n, i);
      }
    }
  }

  // The slots a write fills lie behind the queued ones: straight on, or from the front.
  lemma SlotsApart(cap: nat, head: nat, count: nat, n: nat, i: nat)
    requires head < cap && count + n <= cap && i < count + n
    ensures var tail := Slot(cap, head, count);
      var first := if cap - tail > n then n else cap - tail;
      var s := Slot(cap, head, i);
      if i < count then !(tail <= s < tail + first) && !(s < n - first)
      else if i - count < first then s == tail + (i - count) && !(s < n - first)
      else s == i - count - first
  {}
}

module Pipes {
  import Counting
  import opened PipeRing

  type Tid = nat
  type byte = x: int | 0 <= x < 256

  // A thread inside pipe_read or pipe_write.
  datatype Job = Reading(len: nat) | Writing(data: seq<byte>, done: nat)
  datatype ReadResult = Got(bytes: seq<byte>) | Eof | ReadSleeps
  datatype WriteResult = Wrote(n: nat) | Broken | WriteSleeps

  ghost predicate WokenReader(jobs: map<Tid, Job>, woken: set<Tid>) {
    exists t :: t in woken && t in jobs && jobs[t].Reading?
  }

  ghost predicate WokenWriter(jobs: map<Tid, Job>, woken: set<Tid>) {
    exists t :: t in woken && t in jobs && jobs[t].Writing?
  }

  // Who is where: sleepers are in one queue, once, in the right kind of call, and a thread that
  // was woken and has not run since is in no queue.
  ghost predicate Queued(rq: seq<Tid>, wq: seq<Tid>, jobs: map<Tid, Job>, woken: set<Tid>) {
    && Counting.Distinct(rq) && Counting.Distinct(wq)
    && (forall t :: t in rq ==> t in jobs && jobs[t].Reading? && t !in woken)
    && (forall t :: t in wq ==> t in jobs && jobs[t].Writing? && t !in woken)
    && (forall t :: t in woken ==> t in jobs)
    && (forall t :: t in jobs ==> if jobs[t].Reading? then jobs[t].len > 0 else jobs[t].done < |jobs[t].data|)
  }

  // Why nobody is left asleep on both sides: a full pipe with sleeping readers has a woken
  // reader, an empty pipe with sleeping writers has a woken writer, and sleepers on both sides
  // always come with somebody woken.
  ghost predicate Awake(cap: nat, count: nat, rq: seq<Tid>, wq: seq<Tid>, jobs: map<Tid, Job>, woken: set<Tid>) {
    && (count == cap && rq != [] ==> WokenReader(jobs, woken))
    && (count == 0 && wq != [] ==> WokenWriter(jobs, woken))
    && (rq != [] && wq != [] ==> woken != {})
  }

  // Calls in progress hold an end open; without the other end nobody sleeps.
  ghost predicate Ends(readers: nat, writers: nat, rq: seq<Tid>, wq: seq<Tid>, jobs: map<Tid, Job>) {
    && (readers == 0 ==> wq == [] && forall t :: t in jobs ==> jobs[t].Writing?)
    && (writers == 0 ==> rq == [] && forall t :: t in jobs ==> jobs[t].Reading?)
  }

  ghost predicate Several(s: set<Tid>) { exists t, u :: t in s && u in s && t != u }

  // Everything about the calls in progress.
  ghost predicate Calls(cap: nat, count: nat, readers: nat, writers: nat, rq: seq<Tid>, wq: seq<Tid>,
                        jobs: map<Tid, Job>, woken: set<Tid>) {
    Queued(rq, wq, jobs, woken) && Awake(cap, count, rq, wq, jobs, woken) && Ends(readers, writers, rq, wq, jobs)
  }

  class Pipe {
    const ring: Ring<byte>
    var readers: nat
    var writers: nat
    var rq: seq<Tid>                  // read_wait
    var wq: seq<Tid>                  // write_wait
    var freed: bool
    ghost var jobs: map<Tid, Job>     // threads inside a call
    ghost var woken: set<Tid>         // dequeued by a wake-up, not run since
    ghost var accepted: seq<byte>
    ghost var delivered: seq<byte>
    ghost var everRead: set<Tid>      // threads that ever called read

    ghost predicate Valid()
      reads this, ring, ring.buf
    {
      && ring.Valid()
      && delivered + ring.Contents() == accepted
      && Calls(ring.buf.Length, ring.count, readers, writers, rq, wq, jobs, woken)
      && (freed <==> readers == 0 && writers == 0)
      && (forall t :: t in jobs && jobs[t].Reading? ==> t in everRead)
      && (rq != [] && ring.count > 0 ==> Several(everRead))
    }

    // A reader sleeps while there are bytes to read.
    ghost predicate Overlooked()
      reads this, ring
    {
      rq != [] && ring.count > 0
    }

    // And no reader has been woken to take them.
    ghost predicate Stranded()
      reads this, ring
    {
      Overlooked() && !WokenReader(jobs, woken)
    }

    constructor (storage: array<byte>)
      requires storage.Length > 0
      ensures Valid() && fresh(ring) && ring.buf == storage && readers == writers == 1 && rq == wq == [] && !freed
      ensures jobs == map[] && woken == {} && accepted == delivered == [] && everRead == {} && ring.Contents() == []
    {
      ring := new Ring(storage);
      readers, writers, rq, wq, freed := 1, 1, [], [], false;
      jobs, woken, accepted, delivered, everRead := map[], {}, [], [], {};
    }

    // pipe_read and pipe_write are entered.
    ghost method StartRead(t: Tid, len: nat)
      requires Valid() && t !in jobs && len > 0 && readers > 0
      modifies this`jobs, this`everRead
      ensures Valid() && jobs == old(jobs)[t := Reading(len)] && everRead == old(everRead) + {t}
      ensures Stranded() <==> old(Stranded())
    {
      jobs := jobs[t := Reading(len)];
      everRead := everRead + {t};
      StillAwake(old(jobs), jobs, woken);
    }

    ghost method StartWrite(t: Tid, data: seq<byte>)
      requires Valid() && t !in jobs && data != [] && writers > 0
      modifies this`jobs
      ensures Valid() && jobs == old(jobs)[t := Writing(data, 0)]
      ensures Stranded() <==> old(Stranded())
    {
      jobs := jobs[t := Writing(data, 0)];
      StillAwake(old(jobs), jobs, woken);
    }

    // wq_wake_one on the readers.
    method WakeReader()
      modifies this`rq, this`woken
      ensures if old(rq) == [] then rq == [] && woken == old(woken)
              else rq == old(rq)[1..] && woken == old(woken) + {old(rq)[0]}
    {
      if rq != [] {
        woken := woken + {rq[0]};
        rq := rq[1..];
      }
    }

    method WakeWriter()
      modifies this`wq, this`woken
      ensures if old(wq) == [] then wq == [] && woken == old(woken)
              else wq == old(wq)[1..] && woken == old(woken) + {old(wq)[0]}
    {
      if wq != [] {
        woken := woken + {wq[0]};
        wq := wq[1..];
      }
    }

    // Bytes leave the ring for a reader.
    method Take(len: nat) returns (bytes: seq<byte>)
      requires ring.Valid() && delivered + ring.Contents() == accepted
      modifies ring, this`delivered
      ensures ring.Valid() && delivered + ring.Contents() == accepted && delivered == old(delivered) + bytes
      ensures |bytes| == (if len < old(ring.count) then len else old(ring.count))
        && ring.count == old(ring.count) - |bytes|
    {
      ghost var before := ring.Contents();
      bytes := ring.Read(len);
      Regroup(delivered, bytes, ring.Contents());
      delivered := delivered + bytes;
    }

    // Bytes enter the ring from a writer.
    method Offer(data: seq<byte>, done: nat) returns (n: nat)
      requires ring.Valid() && delivered + ring.Contents() == accepted && done <= |data|
      modifies ring`count, ring.buf, this`accepted
      ensures ring.Valid() && delivered + ring.Contents() == accepted && ring.count == old(ring.count) + n
      ensures n == if |data| - done < ring.buf.Length - old(ring.count) then |data| - done
        else ring.buf.Length - old(ring.count)
      ensures accepted == old(accepted) + data[done..done + n]
    {
      ghost var before := ring.Contents();
      n := ring.Write(data[done..]);
      assert data[done..][..n] == data[done..done + n];
      Regroup(delivered, before, data[done..done + n]);
      accepted := accepted + data[done..done + n];
    }

    // One critical section of pipe_read, for a thread that is awake.
    method ReadStep(t: Tid, len: nat) returns (r: ReadResult)
      requires Valid() && t in jobs && jobs[t] == Reading(len) && t !in rq
      modifies this, ring
      ensures Valid() && accepted == old(accepted) && readers == old(readers) && writers == old(writers)
        && everRead == old(everRead)
      ensures r.Got? ==>
        0 < |r.bytes| <= len && delivered == old(delivered) + r.bytes && jobs == old(jobs) - {t} && rq == old(rq)
      ensures r.Got? ==> wq == if old(wq) == [] then [] else old(wq)[1..]
      ensures r.Got? ==> woken == if old(wq) == [] then old(woken) - {t} else old(woken) - {t} + {old(wq)[0]}
      ensures r.Eof? ==> writers == 0 && delivered == accepted && jobs == old(jobs) - {t}
      ensures r.ReadSleeps? ==>
        writers > 0 && delivered == accepted && jobs == old(jobs) && rq == old(rq) + [t] && wq == old(wq)
        && woken == old(woken) - {t}
      ensures r.Got? <==> old(ring.count) > 0
      ensures !r.Got? ==> delivered == old(delivered)
      ensures r.Got? ==> |r.bytes| == if len < old(ring.count) then len else old(ring.count)
      ensures Overlooked() <==> old(rq) != [] && len < old(ring.count)
      ensures Stranded() <==> old(rq) != [] && len < old(ring.count) && !WokenReader(old(jobs), old(woken) - {t})
    {
      hide Calls, Several;
      ghost var cap, count := ring.buf.Length, ring.count;
      CallFacts(cap, count, readers, writers, rq, wq, jobs, woken);
      var bytes := Take(len);
      if |bytes| > 0 {
        ReaderServed(cap, count, ring.count, readers, writers, rq, wq, jobs, woken, t);
        jobs, woken := jobs - {t}, woken - {t};
        WakeWriter();
        assert woken == old(woken) - {t} + First(old(wq));
        return Got(bytes);
      }
      if writers == 0 {
        ReaderLeaves(cap, readers, rq, wq, jobs, woken, t);
        jobs, woken := jobs - {t}, woken - {t};
        return Eof;
      }
      ReaderSleeps(cap, readers, writers, rq, wq, jobs, woken, t);
      rq := rq + [t];
      woken := woken - {t};
      r := ReadSleeps;
    }

    // One critical section of pipe_write, for a thread that is awake.
    method WriteStep(t: Tid, data: seq<byte>, done: nat) returns (r: WriteResult, done': nat)
      requires Valid() && t in jobs && jobs[t] == Writing(data, done) && t !in wq
      modifies this, ring, ring.buf
      ensures Valid() && delivered == old(delivered) && readers == old(readers) && writers == old(writers)
        && everRead == old(everRead)
      ensures done <= done' <= |data| && accepted == old(accepted) + data[done..done']
      ensures r.Wrote? ==> jobs == old(jobs) - {t} && wq == old(wq)
      ensures r.Wrote? ==> r.n == done' && (done' == |data| || (readers == 0 && done' > 0))
      ensures r.Broken? ==> readers == 0 && done' == 0 && jobs == old(jobs) - {t} && wq == old(wq)
      ensures r.WriteSleeps? ==>
        readers > 0 && done' < |data| && ring.count == ring.buf.Length && jobs == old(jobs)[t := Writing(data, done')]
        && wq == old(wq) + [t]
      ensures readers > 0 ==> done' - done == if |data| - done < ring.buf.Length - old(ring.count) then |data| - done
        else ring.buf.Length - old(ring.count)
      ensures woken == if done' > done && old(rq) != [] then old(woken) - {t} + {old(rq)[0]} else old(woken) - {t}
      ensures rq == if done' > done && old(rq) != [] then old(rq)[1..] else old(rq)
      ensures ring.count == old(ring.count) + (done' - done)
      ensures Overlooked() <==>
        if old(readers > 0 && ring.count < ring.buf.Length) then |old(rq)| >= 2 else old(Overlooked())
      ensures !Stranded()
    {
      hide Calls, Several;
      ghost var cap, count := ring.buf.Length, ring.count;
      CallFacts(cap, count, readers, writers, rq, wq, jobs, woken);
      done' := done;
      if readers == 0 {
        WriterLeaves(cap, count, writers, rq, wq, jobs, woken, t);
        jobs, woken := jobs - {t}, woken - {t};
        assert data[done..done'] == [];
        return if done > 0 then Wrote(done) else Broken, done';
      }
      r, done' := QueueBytes(t, data, done);
    }

    // The running writer t has queued n bytes.
    method WakeFor(ghost t: Tid, n: nat)
      modifies this`rq, this`woken
      ensures rq == if n > 0 then Dequeued(old(rq)) else old(rq)
      ensures woken == if n > 0 then old(woken) - {t} + First(old(rq)) else old(woken) - {t}
    {
      woken := woken - {t};
      if n > 0 { WakeReader(); }
    }

    // The part of pipe_write after the reader check.
    method QueueBytes(t: Tid, data: seq<byte>, done: nat) returns (r: WriteResult, done': nat)
      requires Valid() && t in jobs && jobs[t] == Writing(data, done) && t !in wq && readers > 0
      modifies this`accepted, this`woken, this`rq, this`wq, this`jobs, ring, ring.buf
      ensures Valid() && done <= done' <= |data| && accepted == old(accepted) + data[done..done']
      ensures done' - done == if |data| - done < ring.buf.Length - old(ring.count) then |data| - done
        else ring.buf.Length - old(ring.count)
      ensures r == if done' == |data| then Wrote(done') else WriteSleeps
      ensures r.Wrote? ==> jobs == old(jobs) - {t} && wq == old(wq)
      ensures r.WriteSleeps? ==>
        ring.count == ring.buf.Length && jobs == old(jobs)[t := Writing(data, done')] && wq == old(wq) + [t]
      ensures woken == if done' > done then old(woken) - {t} + First(old(rq)) else old(woken) - {t}
      ensures rq == if done' > done then Dequeued(old(rq)) else old(rq)
      ensures ring.count == old(ring.count) + (done' - done) && !Stranded()
    {
      hide Calls, Several, WokenReader, Dequeued, First, Counting.Distinct, ring.Contents;
      ghost var cap, count := ring.buf.Length, ring.count;
      CallFacts(cap, count, readers, writers, rq, wq, jobs, woken);
      var n := Offer(data, done);
      done' := done + n;
      TwoReaders(rq, jobs, everRead);
      WakeFor(t, n);
      if done' == |data| {
        WriterDone(cap, count, ring.count, readers, writers, old(rq), wq, old(jobs), old(woken), t);
        jobs := jobs - {t};
        WriterWakes(cap, count, readers, writers, old(rq), wq, old(jobs), jobs, old(woken), t, n);
        return Wrote(done'), done';
      }
      WriterSleeps(cap, count, readers, writers, old(rq), wq, old(jobs), old(woken), t, done', n);
      jobs := jobs[t := Writing(data, done')];
      WriterWakes(cap, count, readers, writers, old(rq), wq, old(jobs), jobs, old(woken), t, n);
      wq := wq + [t];
      r := WriteSleeps;
    }

    // The last reference to a read end is gone; no call holds it.
    method ReleaseRead()
      requires Valid() && readers > 0 && (readers == 1 ==> forall t :: t in jobs ==> jobs[t].Writing?)
      modifies this
      ensures Valid() && readers == old(readers) - 1 && writers == old(writers) && rq == old(rq) && jobs == old(jobs)
      ensures accepted == old(accepted) && delivered == old(delivered) && everRead == old(everRead)
      ensures if readers == 0 then wq == [] && woken == old(woken) + Members(old(wq))
        else wq == old(wq) && woken == old(woken)
      ensures !old(freed) && (freed ==> rq == [] && wq == [] && jobs == map[])
      ensures Stranded() <==> old(Stranded())
    {
      hide Calls;
      CallFacts(ring.buf.Length, ring.count, readers, writers, rq, wq, jobs, woken);
      ReadEndGone(ring.buf.Length, ring.count, readers, writers, rq, wq, jobs, woken);
      readers := readers - 1;
      if readers == 0 {
        woken := woken + Members(wq);
        wq := [];
      }
      freed := readers == 0 && writers == 0;
      assert Calls(ring.buf.Length, ring.count, readers, writers, rq, wq, jobs, woken);
      assert delivered + ring.Contents() == accepted;
    }

    method ReleaseWrite()
      requires Valid() && writers > 0 && (writers == 1 ==> forall t :: t in jobs ==> jobs[t].Reading?)
      modifies this
      ensures Valid() && writers == old(writers) - 1 && readers == old(readers) && wq == old(wq) && jobs == old(jobs)
      ensures accepted == old(accepted) && delivered == old(delivered) && everRead == old(everRead)
      ensures if writers == 0 then rq == [] && woken == old(woken) + Members(old(rq))
        else rq == old(rq) && woken == old(woken)
      ensures !old(freed) && (freed ==> rq == [] && wq == [] && jobs == map[])
      ensures Stranded() <==> old(Stranded()) && writers > 0
    {
      hide Calls;
      CallFacts(ring.buf.Length, ring.count, readers, writers, rq, wq, jobs, woken);
      WriteEndGone(ring.buf.Length, ring.count, readers, writers, rq, wq, jobs, woken);
      writers := writers - 1;
      if writers == 0 {
        woken := woken + Members(rq);
        rq := [];
      }
      freed := readers == 0 && writers == 0;
    }
  }

  // A thread entering a call takes nobody's wake-up away.
  lemma StillAwake(jobs: map<Tid, Job>, jobs': map<Tid, Job>, woken: set<Tid>)
    requires forall t :: t in jobs ==> t in jobs' && jobs'[t] == jobs[t]
    ensures WokenReader(jobs, woken) ==> WokenReader(jobs', woken)
    ensures WokenWriter(jobs, woken) ==> WokenWriter(jobs', woken)
  {}

  lemma Regroup(a: seq<byte>, b: seq<byte>, c: seq<byte>)
    ensures a + b + c == a + (b + c)
  {}

  // Two sleeping readers are two threads that called read.
  lemma TwoReaders(rq: seq<Tid>, jobs: map<Tid, Job>, everRead: set<Tid>)
    requires Counting.Distinct(rq) && (forall t :: t in rq ==> t in jobs && jobs[t].Reading?) && forall t ::
      t in jobs && jobs[t].Reading? ==> t in everRead
    ensures Dequeued(rq) != [] ==> Several(everRead)
  {
    if |rq| >= 2 { assert rq[0] in rq && rq[1] in rq && rq[0] != rq[1]; }
  }

  function Members(q: seq<Tid>): set<Tid> { set t | t in q }

  lemma CallFacts(cap: nat, count: nat, readers: nat, writers: nat, rq: seq<Tid>, wq: seq<Tid>, jobs: map<Tid, Job>,
                  woken: set<Tid>)
    requires Calls(cap, count, readers, writers, rq, wq, jobs, woken)
    ensures forall t :: t in jobs ==> if jobs[t].Reading? then jobs[t].len > 0 else jobs[t].done < |jobs[t].data|
    ensures forall t :: t in rq ==> t in jobs && jobs[t].Reading?
    ensures forall t :: t in wq ==> t in jobs && jobs[t].Writing?
    ensures readers == 0 ==> rq == [] && wq == [] && forall t :: t in jobs ==> jobs[t].Writing?
    ensures writers == 0 ==> rq == [] && forall t :: t in jobs ==> jobs[t].Reading?
    ensures Counting.Distinct(rq)
  {
    assert rq != [] ==> rq[0] in rq;
  }

  function Dequeued(q: seq<Tid>): seq<Tid> { if q == [] then [] else q[1..] }

  function First(q: seq<Tid>): set<Tid> { if q == [] then {} else {q[0]} }

  // A reader took bytes, woke a writer and returned.
  lemma ReaderServed(cap: nat, count: nat, count': nat, readers: nat, writers: nat, rq: seq<Tid>, wq: seq<Tid>,
                     jobs: map<Tid, Job>, woken: set<Tid>, t: Tid)
    requires Calls(cap, count, readers, writers, rq, wq, jobs, woken) && t in jobs && jobs[t].Reading? && t !in rq
      && count' < count <= cap
    ensures Calls(cap, count', readers, writers, rq, Dequeued(wq), jobs - {t}, woken - {t} + First(wq))
  {
    if wq != [] { assert wq[0] in wq && wq[0] in (jobs - {t}); }
  }

  // A reader found the pipe empty and no writer left.
  lemma ReaderLeaves(cap: nat, readers: nat, rq: seq<Tid>, wq: seq<Tid>, jobs: map<Tid, Job>, woken: set<Tid>, t: Tid)
    requires Calls(cap, 0, readers, 0, rq, wq, jobs, woken) && t in jobs && t !in rq
    ensures Calls(cap, 0, readers, 0, rq, wq, jobs - {t}, woken - {t})
  {}

  // A reader found the pipe empty and went to sleep.
  lemma ReaderSleeps(cap: nat, readers: nat, writers: nat, rq: seq<Tid>, wq: seq<Tid>, jobs: map<Tid, Job>,
                     woken: set<Tid>, t: Tid)
    requires Calls(cap, 0, readers, writers, rq, wq, jobs, woken) && cap > 0 && writers > 0 && t in jobs
      && jobs[t].Reading? && t !in rq
    ensures Calls(cap, 0, readers, writers, rq + [t], wq, jobs, woken - {t})
  {
    if wq != [] {
      var u :| u in woken && u in jobs && jobs[u].Writing?;
      assert u in woken - {t};
    }
  }

  lemma WriterLeaves(cap: nat, count: nat, writers: nat, rq: seq<Tid>, wq: seq<Tid>, jobs: map<Tid, Job>,
                     woken: set<Tid>, t: Tid)
    requires Calls(cap, count, 0, writers, rq, wq, jobs, woken) && t in jobs && t !in wq
    ensures Calls(cap, count, 0, writers, rq, wq, jobs - {t}, woken - {t})
  {}

  // A writer queued its last bytes, woke a reader and returned.
  lemma WriterDone(cap: nat, count: nat, count': nat, readers: nat, writers: nat, rq: seq<Tid>, wq: seq<Tid>,
                   jobs: map<Tid, Job>, woken: set<Tid>, t: Tid)
    requires Calls(cap, count, readers, writers, rq, wq, jobs, woken) && t in jobs && jobs[t].Writing? && t !in wq
      && count < count' <= cap
    ensures Calls(cap, count', readers, writers, Dequeued(rq), wq, jobs - {t}, woken - {t} + First(rq))
  {
    if rq != [] { assert rq[0] in rq && rq[0] in (jobs - {t}); }
  }

  // A writer that queued n bytes, or found the pipe full, leaves a woken reader if any reader sleeps.
  lemma WriterWakes(cap: nat, count: nat, readers: nat, writers: nat, rq: seq<Tid>, wq: seq<Tid>, jobs: map<Tid, Job>,
                    jobs': map<Tid, Job>, woken: set<Tid>, t: Tid, n: nat)
    requires Calls(cap, count, readers, writers, rq, wq, jobs, woken) && t in jobs && jobs[t].Writing?
    requires (forall x :: x in jobs && x != t ==> x in jobs' && jobs'[x] == jobs[x]) && (n == 0 ==> count == cap)
    ensures (if n > 0 then Dequeued(rq) else rq) != [] ==>
      WokenReader(jobs', if n > 0 then woken - {t} + First(rq) else woken - {t})
  {
    if rq != [] {
      assert rq[0] in rq;
      if n == 0 {
        var u :| u in woken && u in jobs && jobs[u].Reading?;
        assert u in woken - {t} && u in jobs' && jobs'[u].Reading?;
      } else {
        assert rq[0] in woken - {t} + First(rq) && rq[0] in jobs' && jobs'[rq[0]].Reading?;
      }
    }
  }

  // A writer filled the pipe with n bytes and went to sleep with more to come.
  lemma WriterSleeps(cap: nat, count: nat, readers: nat, writers: nat, rq: seq<Tid>, wq: seq<Tid>,
                     jobs: map<Tid, Job>, woken: set<Tid>, t: Tid, done: nat, n: nat)
    requires Calls(cap, count, readers, writers, rq, wq, jobs, woken) && t in jobs && jobs[t].Writing? && t !in wq
    requires cap > 0 && readers > 0 && count + n == cap && done < |jobs[t].data|
    ensures var rq' := if n > 0 then Dequeued(rq) else rq;
      Calls(cap, cap, readers, writers, rq', wq + [t], jobs[t := Writing(jobs[t].data, done)],
        if n > 0 then woken - {t} + First(rq) else woken - {t})
  {
    WriterWakes(cap, count, readers, writers, rq, wq, jobs, jobs[t := Writing(jobs[t].data, done)], woken, t, n);
  }

  lemma ReadEndGone(cap: nat, count: nat, readers: nat, writers: nat, rq: seq<Tid>, wq: seq<Tid>, jobs: map<Tid, Job>,
                    woken: set<Tid>)
    requires Calls(cap, count, readers, writers, rq, wq, jobs, woken) && readers > 0
      && (readers == 1 ==> forall t :: t in jobs ==> jobs[t].Writing?)
    ensures readers > 1 ==> Calls(cap, count, readers - 1, writers, rq, wq, jobs, woken)
    ensures readers == 1 ==>
      Calls(cap, count, 0, writers, rq, [], jobs, woken + Members(wq)) && (writers == 0 ==> jobs == map[]) && rq == []
  {
    assert rq != [] ==> rq[0] in rq;
  }

  lemma WriteEndGone(cap: nat, count: nat, readers: nat, writers: nat, rq: seq<Tid>, wq: seq<Tid>, jobs: map<Tid, Job>,
                     woken: set<Tid>)
    requires Calls(cap, count, readers, writers, rq, wq, jobs, woken) && writers > 0
      && (writers == 1 ==> forall t :: t in jobs ==> jobs[t].Reading?)
    ensures writers > 1 ==> Calls(cap, count, readers, writers - 1, rq, wq, jobs, woken)
    ensures writers == 1 ==>
      Calls(cap, count, readers, 0, [], wq, jobs, woken + Members(rq)) && (readers == 0 ==> jobs == map[]) && wq == []
  {
    assert wq != [] ==> wq[0] in wq;
  }

  // What every reachable state gives: bytes come out in the order they went in, sleepers on both
  // sides never wait for each other alone, and a freed pipe has nobody left in it.
  lemma PipeSafe(p: Pipe)
    requires p.Valid()
    ensures p.delivered <= p.accepted
    ensures p.rq != [] && p.wq != [] ==> exists t :: t in p.woken && t in p.jobs && t !in p.rq && t !in p.wq
    ensures p.freed ==> p.jobs == map[] && p.rq == [] && p.wq == []
    ensures p.rq != [] && p.ring.count > 0 ==> exists t, u :: t in p.everRead && u in p.everRead && t != u
  {
    assert p.accepted[..|p.delivered|] == p.delivered;
    if p.rq != [] && p.wq != [] {
      var t :| t in p.woken;
      assert t !in p.rq && t !in p.wq;
    }
    if p.freed { assert forall t :: t !in p.jobs; }
  }

  // Any two threads that read can end with one asleep over bytes and nobody woken to take them: a write wakes one
  // reader only, and that reader may leave bytes behind.
  method SleepsOnBytes(storage: array<byte>, t: Tid, u: Tid, w: Tid, len: nat, data: seq<byte>) returns (p: Pipe)
    requires t != u && t != w && u != w && 0 < len < storage.Length && len < |data|
    modifies storage
    ensures p.Valid() && p.rq == [u] && p.ring.count > 0 && p.Stranded()
  {
    hide Calls, Several;
    p := new Pipe(storage);
    p.StartRead(t, len);
    p.StartRead(u, len);
    var r := p.ReadStep(t, len);
    r := p.ReadStep(u, len);
    p.StartWrite(w, data);
    var wr, done := p.WriteStep(w, data, 0);
    r := p.ReadStep(t, len);
  }
}
