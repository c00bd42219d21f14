// The write-through block cache: it never disagrees with the device, and it holds the most
// recently used blocks.
module BlockCache {
  import opened Counting

  type Block = seq<int>

  // ---- recency, by the history of accesses ----------------------------------------------------------------

  function Without(s: seq<nat>, x: nat): (r: seq<nat>)
    ensures forall y :: y in r <==> y in s && y != x
    ensures x !in s ==> r == s
  {
    if s == [] then []
    else if s[0] == x then Without(s[1..], x)
    else [s[0]] + Without(s[1..], x)
  }

  lemma {:induction false} WithoutDistinct(s: seq<nat>, x: nat)
    requires Distinct(s)
    ensures Distinct(Without(s, x))
  {
    if s != [] {
      WithoutDistinct(s[1..], x);
      assert s[0] !in s[1..];
    }
  }

  // Blocks by recency, most recent first.
  function Mru(hist: seq<nat>): seq<nat> {
    if hist == [] then [] else [hist[|hist| - 1]] + Without(Mru(hist[..|hist| - 1]), hist[|hist| - 1])
  }

  // One more than the position of the last access to x; 0 when there is none.
  function LastUse(hist: seq<nat>, x: nat): nat {
    if hist == [] then 0 else if hist[|hist| - 1] == x then |hist| else LastUse(hist[..|hist| - 1], x)
  }

  lemma {:induction false} LastUseBound(hist: seq<nat>, x: nat)
    ensures LastUse(hist, x) <= |hist| && (LastUse(hist, x) == 0 <==> x !in hist)
  {
    if hist != [] {
      LastUseBound(hist[..|hist| - 1], x);
      assert hist == hist[..|hist| - 1] + [hist[|hist| - 1]];
    }
  }

  ghost predicate ByRecency(hist: seq<nat>, s: seq<nat>) {
    forall i, j :: 0 <= i < j < |s| ==> LastUse(hist, s[i]) > LastUse(hist, s[j])
  }

  // The recency list holds every block ever used, once, ordered by last use.
  lemma {:induction false} MruOrder(hist: seq<nat>)
    ensures Distinct(Mru(hist)) && (forall x :: x in Mru(hist) <==> x in hist) && ByRecency(hist, Mru(hist))
  {
    if hist != [] {
      var h, x := hist[..|hist| - 1], hist[|hist| - 1];
      MruOrder(h);
      assert hist == h + [x];
      var rest := Without(Mru(h), x);
      WithoutDistinct(Mru(h), x);
      forall y | y in rest ensures LastUse(hist, y) == LastUse(h, y) <= |h| { LastUseBound(h, y); }
      WithoutOrder(h, Mru(h), x);
      FrontOrder(h, hist, rest, x);
    }
  }

  lemma FrontOrder(h: seq<nat>, hist: seq<nat>, rest: seq<nat>, x: nat)
    requires hist == h + [x] && ByRecency(h, rest) && Distinct(rest) && x !in rest
    requires forall y :: y in rest ==> LastUse(hist, y) == LastUse(h, y) <= |h|
    ensures ByRecency(hist, [x] + rest) && Distinct([x] + rest)
  {
    hide LastUse;
    var s := [x] + rest;
    assert LastUse(hist, x) == |hist| by { LastUseOf(h, x); }
    forall i, j | 0 <= i < j < |s| ensures LastUse(hist, s[i]) > LastUse(hist, s[j]) {
      assert s[j] == rest[j - 1] && rest[j - 1] in rest;
      if i > 0 { assert s[i] == rest[i - 1] && rest[i - 1] in rest; }
    }
  }

  lemma LastUseOf(h: seq<nat>, x: nat)
    ensures LastUse(h + [x], x) == |h| + 1
  {}

  lemma {:induction false} WithoutOrder(hist: seq<nat>, s: seq<nat>, x: nat)
    requires ByRecency(hist, s)
    ensures ByRecency(hist, Without(s, x))
  {
    if s != [] {
      WithoutOrder(hist, s[1..], x);
      var r := Without(s[1..], x);
      forall y | y in r ensures LastUse(hist, s[0]) > LastUse(hist, y) {
        var j :| 0 <= j < |s[1..]| && s[1..][j] == y;
        assert s[j + 1] == y;
      }
      if s[0] != x {
        var t := [s[0]] + r;
        forall i, j | 0 <= i < j < |t| ensures LastUse(hist, t[i]) > LastUse(hist, t[j]) {
          assert t[j] == r[j - 1] && r[j - 1] in r;
          if i > 0 { assert t[i] == r[i - 1]; }
        }
      }
    }
  }

  // Removing x from a list with x at position i.
  lemma {:induction false} WithoutAt(s: seq<nat>, i: nat)
    requires Distinct(s) && i < |s|
    ensures Without(s, s[i]) == s[..i] + s[i + 1..]
  {
    if i == 0 {
      assert s[0] !in s[1..];
    } else {
      assert s[1..][i - 1] == s[i];
      WithoutAt(s[1..], i - 1);
      assert s[1..][..i - 1] == s[1..i] && s[1..][i..] == s[i + 1..];
      assert [s[0]] + s[1..i] == s[..i];
    }
  }

  // Removing x from behind position n does not show in the first n.
  lemma {:induction false} WithoutBehind(s: seq<nat>, x: nat, n: nat)
    requires n <= |s| && x !in s[..n]
    ensures |Without(s, x)| >= n && Without(s, x)[..n] == s[..n]
    decreases n
  {
    if n > 0 {
      assert s[0] == s[..n][0];
      assert s[1..][..n - 1] == s[..n][1..];
      WithoutBehind(s[1..], x, n - 1);
      assert ([s[0]] + Without(s[1..], x))[..n] == [s[0]] + Without(s[1..], x)[..n - 1];
      assert [s[0]] + s[1..][..n - 1] == s[..n];
    }
  }

  // ---- the cache -----------------------------------------------------------------------------------------------

  // At most one valid entry per block, and every valid entry equals the device.
  ghost predicate Coherent(lba: seq<nat>, stamp: seq<nat>, data: seq<Block>, disk: seq<Block>) {
    && |lba| == |stamp| == |data|
    && (forall i :: 0 <= i < |lba| && stamp[i] != 0 ==> lba[i] < |disk| && data[i] == disk[lba[i]])
    && (forall i, j :: 0 <= i < j < |lba| && stamp[i] != 0 && stamp[j] != 0 ==> lba[i] != lba[j])
  }

  // order lists the valid entries, most recent first; they hold the blocks at the front of mru.
  ghost predicate Recent(lba: seq<nat>, stamp: seq<nat>, order: seq<nat>, mru: seq<nat>) {
    && |lba| == |stamp|
    && |order| == (if |mru| < |lba| then |mru| else |lba|)
    && (forall i :: 0 <= i < |order| ==> order[i] < |lba| && stamp[order[i]] != 0 && lba[order[i]] == mru[i])
    && (forall i, j :: 0 <= i < j < |order| ==> stamp[order[i]] > stamp[order[j]])
    && (forall e :: 0 <= e < |lba| && stamp[e] != 0 ==> e in order)
  }

  datatype IoErr = OK | EINVAL | EIO

  class Cache {
    const n: nat
    var lba: seq<nat>
    var stamp: seq<nat>        // 0 marks an empty entry
    var data: seq<Block>
    var clock: nat
    var disk: seq<Block>       // the device
    ghost var hist: seq<nat>   // blocks accessed
    ghost var order: seq<nat>
    ghost var failed: bool     // a device error has occurred

    ghost predicate Valid()
      reads this
    {
      && n > 0 && |lba| == n && Coherent(lba, stamp, data, disk) && (forall i :: 0 <= i < n ==> stamp[i] <= clock)
      && (!failed ==> Recent(lba, stamp, order, Mru(hist)))
    }

    constructor (n: nat, disk: seq<Block>)
      requires n > 0
      ensures Valid() && this.n == n && this.disk == disk && hist == [] && !failed
    {
      this.n, this.disk := n, disk;
      lba, stamp, data, clock := seq(n, i => 0), seq(n, i => 0), seq(n, i => []), 0;
      hist, order, failed := [], [], false;
    }

    // cache_lookup
    method Find(b: nat) returns (e: nat)
      requires Valid()
      ensures e <= n && (e < n ==> stamp[e] != 0 && lba[e] == b)
      ensures e == n ==> forall i :: 0 <= i < n && stamp[i] != 0 ==> lba[i] != b
    {
      e := 0;
      while e < n
        invariant e <= n && forall i :: 0 <= i < e && stamp[i] != 0 ==> lba[i] != b
      {
        if stamp[e] != 0 && lba[e] == b { return; }
        e := e + 1;
      }
    }

    // cache_victim
    method Victim() returns (v: nat)
      requires Valid()
      ensures v < n && forall i :: 0 <= i < n ==> stamp[v] <= stamp[i]
    {
      v := 0;
      var i := 1;
      while i < n
        invariant v < n && 1 <= i <= n && forall j :: 0 <= j < i ==> stamp[v] <= stamp[j]
      {
        if stamp[i] < stamp[v] { v := i; }
        i := i + 1;
      }
    }

    // A device read, which may fail.
    method DevRead(b: nat) returns (ok: bool, x: Block)
      requires b < |disk|
      modifies this`failed
      ensures ok ==> x == disk[b] && failed == old(failed)
      ensures !ok ==> failed
    {
      ok := *;
      x := disk[b];
      if !ok { x := []; failed := true; }
    }

    // A device write, which may fail and then leaves the block unknown.
    method DevWrite(b: nat, x: Block) returns (ok: bool)
      requires b < |disk|
      modifies this`failed, this`disk
      ensures |disk| == |old(disk)| && forall i :: 0 <= i < |disk| && i != b ==> disk[i] == old(disk)[i]
      ensures ok ==> disk[b] == x && failed == old(failed)
      ensures !ok ==> failed
    {
      ok := *;
      if ok {
        disk := disk[b := x];
      } else {
        var torn: Block := *;
        disk, failed := disk[b := torn], true;
      }
    }

    // Reads return what the device holds.
    method Read(b: nat) returns (rc: IoErr, buf: Block)
      requires Valid()
      modifies this
      ensures Valid() && disk == old(disk)
      ensures rc == EINVAL <==> b >= |disk|
      ensures rc == OK ==> buf == disk[b] && hist == old(hist) + [b] && failed == old(failed)
      ensures rc == EIO ==> failed
    {
      hide Recent, Coherent, Mru, MissOrder, HitOrder;
      buf := [];
      if b >= |disk| { return EINVAL, buf; }
      CoherentFacts(lba, stamp, data, disk);
      ghost var lba0, stamp0, data0 := lba, stamp, data;
      var e := Find(b);
      if e == n {
        e := Victim();
        var ok, x := DevRead(b);
        data := data[e := x];
        if !ok {
          Dropped(lba, stamp, data0, disk, disk, e, b, lba, x);
          stamp := stamp[e := 0];
          return EIO, buf;
        }
        if !failed { Missed(lba, stamp, order, hist, e, b, clock + 1); }
        lba := lba[e := b];
        order := MissOrder(order, n, e);
      } else {
        if !failed { Hit(lba, stamp, order, hist, e, clock + 1); }
        CoherentAt(lba, stamp, data, disk, e);
        order := HitOrder(order, e);
      }
      Stored(lba0, stamp0, data0, disk, disk, e, b, disk[b], clock + 1);
      assert lba == lba0[e := b] && data == data0[e := disk[b]];
      hist := hist + [b];
      clock := clock + 1;
      stamp := stamp[e := clock];
      return OK, data[e];
    }

    // Writes go through; after a failed one the block is not cached.
    method Write(b: nat, buf: Block) returns (rc: IoErr)
      requires Valid()
      modifies this
      ensures Valid() && |disk| == |old(disk)| && forall i :: 0 <= i < |disk| && i != b ==> disk[i] == old(disk)[i]
      ensures rc == EINVAL <==> b >= |disk|
      ensures rc == OK ==> disk[b] == buf && hist == old(hist) + [b] && failed == old(failed)
      ensures rc == EIO ==> failed && forall i :: 0 <= i < n && stamp[i] != 0 ==> lba[i] != b
    {
      hide Recent, Coherent, Mru, MissOrder, HitOrder;
      if b >= |disk| { return EINVAL; }
      CoherentFacts(lba, stamp, data, disk);
      ghost var lba0, stamp0, data0, disk0 := lba, stamp, data, disk;
      var e := Claim(b);
      hist := hist + [b];
      data := data[e := buf];
      clock := clock + 1;
      stamp := stamp[e := clock];
      var ok := DevWrite(b, buf);
      if !ok {
        Dropped(lba0, stamp0, data0, disk0, disk, e, b, lba, buf);
        assert stamp0[e := clock][e := 0] == stamp0[e := 0];
        stamp := stamp[e := 0];
        return EIO;
      }
      Stored(lba0, stamp0, data0, disk0, disk, e, b, buf, clock);
      rc := OK;
    }

    // The entry a write goes to: the one that caches b, or the least recent one.
    method Claim(b: nat) returns (e: nat)
      requires Valid()
      modifies this`lba, this`order
      ensures e < n && lba == old(lba)[e := b]
      ensures forall i :: 0 <= i < n && i != e && stamp[i] != 0 ==> old(lba)[i] != b
      ensures !failed ==> Recent(lba, stamp[e := clock + 1], order, Mru(hist + [b]))
    {
      hide Recent, Coherent, Mru, MissOrder, HitOrder;
      CoherentFacts(lba, stamp, data, disk);
      e := Find(b);
      if e == n {
        e := Victim();
        if !failed { Missed(lba, stamp, order, hist, e, b, clock + 1); }
        lba := lba[e := b];
        order := MissOrder(order, n, e);
      } else {
        if !failed { Hit(lba, stamp, order, hist, e, clock + 1); }
        CoherentAt(lba, stamp, data, disk, e);
        order := HitOrder(order, e);
      }
    }
  }

  lemma CoherentFacts(lba: seq<nat>, stamp: seq<nat>, data: seq<Block>, disk: seq<Block>)
    requires Coherent(lba, stamp, data, disk)
    ensures |lba| == |stamp| == |data|
  {}

  lemma CoherentAt(lba: seq<nat>, stamp: seq<nat>, data: seq<Block>, disk: seq<Block>, e: nat)
    requires Coherent(lba, stamp, data, disk) && e < |lba| && stamp[e] != 0
    ensures lba[e] < |disk| && data[e] == disk[lba[e]] && forall i :: 0 <= i < |lba| && i != e && stamp[i] != 0 ==>
      lba[i] != lba[e]
  {}

  ghost function MissOrder(order: seq<nat>, n: nat, e: nat): seq<nat> {
    [e] + (if |order| < n || order == [] then order else order[..|order| - 1])
  }

  ghost function HitOrder(order: seq<nat>, e: nat): seq<nat> { [e] + Without(order, e) }

  lemma MruStep(hist: seq<nat>, b: nat)
    ensures Mru(hist + [b]) == [b] + Without(Mru(hist), b)
  {
    assert (hist + [b])[..|hist|] == hist;
  }

  lemma OrderDistinct(lba: seq<nat>, stamp: seq<nat>, order: seq<nat>, mru: seq<nat>)
    requires Recent(lba, stamp, order, mru)
    ensures Distinct(order) && forall x :: x in order ==> x < |lba|
  {}

  // A block that is not cached takes the place of the least recent one.
  lemma Missed(lba: seq<nat>, stamp: seq<nat>, order: seq<nat>, hist: seq<nat>, e: nat, b: nat, clock: nat)
    requires Recent(lba, stamp, order, Mru(hist)) && e < |lba|
    requires (forall i :: 0 <= i < |lba| ==> stamp[e] <= stamp[i]) && (forall i :: 0 <= i < |lba| ==> stamp[i] < clock)
    requires forall i :: 0 <= i < |lba| && stamp[i] != 0 ==> lba[i] != b
    ensures Recent(lba[e := b], stamp[e := clock], MissOrder(order, |lba|, e), Mru(hist + [b]))
  {
    hide Mru, Without;
    var n, mru := |lba|, Mru(hist);
    MruStep(hist, b);
    OrderDistinct(lba, stamp, order, mru);
    assert b !in mru[..|order|];
    WithoutBehind(mru, b, |order|);
    var mru' := [b] + Without(mru, b);
    if |order| < n {
      assert mru[..|order|] == mru;
      if stamp[e] != 0 { CoverSize(order, n); }
      MissFill(lba, stamp, order, mru, e, b, clock);
    } else {
      Covers(order, n, e);
      LastIsLeast(stamp, order, e);
      MissEvict(lba, stamp, order, mru, mru', e, b, clock);
    }
  }

  lemma LastIsLeast(stamp: seq<nat>, order: seq<nat>, e: nat)
    requires e in order && (forall i :: 0 <= i < |order| ==> order[i] < |stamp|) && forall i, j ::
      0 <= i < j < |order| ==> stamp[order[i]] > stamp[order[j]]
    requires forall i :: 0 <= i < |stamp| ==> stamp[e] <= stamp[i]
    ensures e == order[|order| - 1]
  {
    var j :| 0 <= j < |order| && order[j] == e;
    assert stamp[e] <= stamp[order[|order| - 1]];
  }

  lemma MissFill(lba: seq<nat>, stamp: seq<nat>, order: seq<nat>, mru: seq<nat>, e: nat, b: nat, clock: nat)
    requires Recent(lba, stamp, order, mru) && e < |lba| && stamp[e] == 0 && |order| < |lba| && forall i ::
      0 <= i < |lba| ==> stamp[i] < clock
    ensures Recent(lba[e := b], stamp[e := clock], [e] + order, [b] + mru)
  {
    var order', stamp', lba' := [e] + order, stamp[e := clock], lba[e := b];
    forall i | 0 < i < |order'| ensures order'[i] == order[i - 1] && order'[i] != e {}
    forall x | 0 <= x < |lba'| && stamp'[x] != 0 ensures x in order' { if x != e { assert x in order; } }
  }

  lemma MissEvict(lba: seq<nat>, stamp: seq<nat>, order: seq<nat>, mru: seq<nat>, mru': seq<nat>, e: nat, b: nat,
                  clock: nat)
    requires Recent(lba, stamp, order, mru) && |order| == |lba| > 0 && e == order[|order| - 1] && forall i ::
      0 <= i < |lba| ==> stamp[i] < clock
    requires |mru'| > |order| && mru'[0] == b && mru'[1..|order| + 1] == mru[..|order|]
    ensures Recent(lba[e := b], stamp[e := clock], [e] + order[..|order| - 1], mru')
  {
    var m := |order| - 1;
    var order', stamp', lba' := [e] + order[..m], stamp[e := clock], lba[e := b];
    assert order == order[..m] + [e];
    forall i | 0 < i < |order'| ensures order'[i] == order[i - 1] && order'[i] != e && mru'[i] == mru[i - 1] {
      assert mru'[1..|order| + 1][i - 1] == mru'[i];
    }
    forall x | 0 <= x < |lba'| && stamp'[x] != 0 ensures x in order' { if x != e { assert x in order; } }
  }

  // A cached block moves to the front.
  lemma Hit(lba: seq<nat>, stamp: seq<nat>, order: seq<nat>, hist: seq<nat>, e: nat, clock: nat)
    requires Recent(lba, stamp, order, Mru(hist)) && e < |lba| && stamp[e] != 0
    requires forall i :: 0 <= i < |lba| ==> stamp[i] < clock
    ensures Recent(lba, stamp[e := clock], HitOrder(order, e), Mru(hist + [lba[e]]))
  {
    hide Mru, Without;
    var mru := Mru(hist);
    MruStep(hist, lba[e]);
    MruOrder(hist);
    OrderDistinct(lba, stamp, order, mru);
    var k: nat :| k < |order| && order[k] == e;
    WithoutAt(order, k);
    WithoutAt(mru, k);
    HitFront(lba, stamp, order, mru, k, clock);
  }

  // Bring the element at position k to the front.
  function Fronted(s: seq<nat>, k: nat): (r: seq<nat>)
    requires k < |s|
    ensures |r| == |s| && r[0] == s[k] && forall i {:trigger r[i]} :: 0 < i < |s| ==> r[i] == s[Came(i, k)]
  {
    [s[k]] + (s[..k] + s[k + 1..])
  }

  function Came(i: nat, k: nat): nat
    requires i > 0
  {
    if i <= k then i - 1 else i
  }

  lemma HitFront(lba: seq<nat>, stamp: seq<nat>, order: seq<nat>, mru: seq<nat>, k: nat, clock: nat)
    requires Recent(lba, stamp, order, mru) && k < |order| && (forall i :: 0 <= i < |lba| ==> stamp[i] < clock)
      && order[k] < |lba|
    ensures Recent(lba, stamp[order[k] := clock], Fronted(order, k), Fronted(mru, k))
  {
    hide Fronted;
    var e := order[k];
    var order', mru', stamp' := Fronted(order, k), Fronted(mru, k), stamp[e := clock];
    forall i | 0 <= i < |order'| ensures order'[i] < |lba| && stamp'[order'[i]] != 0 && lba[order'[i]] == mru'[i] {
      if i > 0 { assert order[Came(i, k)] != e; }
    }
    forall i, j | 0 <= i < j < |order'| ensures stamp'[order'[i]] > stamp'[order'[j]] {
      assert order'[j] == order[Came(j, k)] != e;
      if i > 0 { assert order'[i] == order[Came(i, k)] != e; }
    }
    forall x | 0 <= x < |lba| && stamp'[x] != 0 ensures x in order' {
      if x != e {
        var j: nat :| j < |order| && order[j] == x;
        var i := if j < k then j + 1 else j;
        assert order'[i] == order[Came(i, k)];
      } else {
        assert order'[0] == e;
      }
    }
  }

  // ---- coherence ----------------------------------------------------------------------------------------------

  // Entry e now caches block b with contents x, which the device holds too.
  lemma Stored(lba: seq<nat>, stamp: seq<nat>, data: seq<Block>, disk: seq<Block>, disk': seq<Block>, e: nat, b: nat,
               x: Block, c: nat)
    requires Coherent(lba, stamp, data, disk) && e < |lba| && b < |disk| == |disk'| && disk'[b] == x
    requires (forall i :: 0 <= i < |disk| && i != b ==> disk'[i] == disk[i]) && forall i ::
      0 <= i < |lba| && i != e && stamp[i] != 0 ==> lba[i] != b
    ensures Coherent(lba[e := b], stamp[e := c], data[e := x], disk')
  {}

  // Entry e is empty; block b may have changed and is cached nowhere else.
  lemma Dropped(lba: seq<nat>, stamp: seq<nat>, data: seq<Block>, disk: seq<Block>, disk': seq<Block>, e: nat, b: nat,
                lba': seq<nat>, x: Block)
    requires Coherent(lba, stamp, data, disk) && e < |lba| && |disk| == |disk'| && (lba' == lba || lba' == lba[e := b])
    requires (forall i :: 0 <= i < |disk| && i != b ==> disk'[i] == disk[i]) && forall i ::
      0 <= i < |lba| && i != e && stamp[i] != 0 ==> lba[i] != b
    ensures Coherent(lba', stamp[e := 0], data[e := x], disk')
  {}

  // With no device errors, the cached blocks are exactly the n most recently used ones.
  lemma HoldsMostRecent(c: Cache, b: nat)
    requires c.Valid() && !c.failed
    ensures var mru := Mru(c.hist);
      var k := if |mru| < c.n then |mru| else c.n;
      && (b in mru[..k] <==> exists e :: 0 <= e < c.n && c.stamp[e] != 0 && c.lba[e] == b)
      && ByRecency(c.hist, mru)
  {
    MruOrder(c.hist);
    var mru := Mru(c.hist);
    var k := |c.order|;
    if b in mru[..k] {
      var i :| 0 <= i < k && mru[..k][i] == b;
      var e := c.order[i];
      assert c.stamp[e] != 0 && c.lba[e] == b;
    }
    if e :| 0 <= e < c.n && c.stamp[e] != 0 && c.lba[e] == b {
      var i :| 0 <= i < k && c.order[i] == e;
      assert mru[..k][i] == b;
    }
  }
}
