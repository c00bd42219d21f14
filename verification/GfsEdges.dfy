// Directory edges: lookup, add and remove over the chain of edge blocks.
module GfsEdges {
  import opened GfsTypes
  import opened Namespace
  import opened GfsDisk
  import opened GfsFrame
  import opened GfsUpdate
  import opened GfsEdgeMap
  import opened GfsCore

  // ---- walking a chain -------------------------------------------------------------------------

  lemma ChainFacts(g: Geo, crc: Crc, disk: Disk, mp: seq<Bp>, T: Tree, dirty: set<nat>, id: nat)
    requires TreeOk(g, crc, disk, mp, T, dirty) && id < MAX_NODES && T.nodes[id].typ == TNamespace
    ensures ChainOk(crc, disk, T.nodes[id].edgeHead, T.chains[id])
    ensures T.nodes[id].ext == [] && T.nodes[id].size == 0 && T.nodes[id].edgeCount == |Edges(disk, T.chains[id])|
      && NamesUnique(Edges(disk, T.chains[id]))
    ensures forall i :: 0 <= i < |T.chains[id]| ==>
      g.DataFirst() <= T.chains[id][i] < g.total && Owned(T, T.chains[id][i], ONode(id))
  {
    assert NodeOk(g, crc, disk, T, id);
    forall i | 0 <= i < |T.chains[id]|
      ensures g.DataFirst() <= T.chains[id][i] < g.total && Owned(T, T.chains[id][i], ONode(id)) {
      assert T.chains[id][i] in BlocksOf(T.nodes[id], T.chains[id]);
      assert Owned(T, T.chains[id][i], ONode(id));
      OwnedInRange(g, crc, disk, mp, T, dirty, T.chains[id][i]);
    }
  }

  // The first k blocks of the chain, counted from the tail, start at this block.
  lemma WalkStep(crc: Crc, disk: Disk, head: Bp, chain: seq<nat>, k: nat, cur: Bp)
    requires ChainOk(crc, disk, head, chain) && k <= |chain| && cur == HeadOf(crc, disk, chain[..k]) && cur.phys != 0
    ensures k > 0 && cur.phys == chain[k - 1] && cur == PtrTo(crc, disk, chain[k - 1]) && chain[k - 1] < |disk|
    ensures disk[chain[k - 1]].EdgeB? && 0 < |disk[chain[k - 1]].edges| <= EDGES_PER_BLOCK
    ensures disk[chain[k - 1]].next == HeadOf(crc, disk, chain[..k - 1])
    ensures Edges(disk, chain[..k]) == disk[chain[k - 1]].edges + Edges(disk, chain[..k - 1])
  {
    if k > 0 {
      assert EdgeBlockOk(crc, disk, chain, k - 1);
      assert chain[..k][..k - 1] == chain[..k - 1];
    }
  }

  lemma WalkEnd(crc: Crc, disk: Disk, head: Bp, chain: seq<nat>, k: nat)
    requires ChainOk(crc, disk, head, chain) && k <= |chain|
    ensures HeadOf(crc, disk, chain[..k]).phys == 0 ==> k == 0
  {
    if k > 0 { assert EdgeBlockOk(crc, disk, chain, k - 1); }
  }

  // A directory whose in-memory record agrees with the working tree.
  ghost predicate InHand(fs: Gfs, id: nat, d: DNode)
    reads fs
  {
    fs.Work() && 0 < id < fs.g.nodeCount && d == fs.T.nodes[id] && d.typ == TNamespace
  }

  // The same, for calls that only read.
  ghost predicate InView(fs: Gfs, id: nat, d: DNode)
    reads fs
  {
    fs.Loaded() && 0 < id < fs.g.nodeCount && d == fs.T.nodes[id] && d.typ == TNamespace
  }

  ghost function EntriesOf(fs: Gfs, id: nat): map<Name, nat>
    reads fs
    requires id < |fs.T.chains|
  {
    EntryMap(Edges(fs.disk, fs.T.chains[id]))
  }

  // First edge called name, in a walk from the head of a sound chain.
  method ChainLookup(fs: Gfs, ghost chain: seq<nat>, head: Bp, name: Name) returns (rc: Err, out: nat)
    requires fs.g.total <= |fs.disk| && ChainOk(fs.crc, fs.disk, head, chain)
    requires forall i :: 0 <= i < |chain| ==> chain[i] < fs.g.total
    modifies fs`faults
    ensures fs.Steady(old(fs.faults))
    ensures rc == OK ==> name in EntryMap(Edges(fs.disk, chain)) && out == EntryMap(Edges(fs.disk, chain))[name]
    ensures rc == ENOENT ==> name !in EntryMap(Edges(fs.disk, chain))
    ensures rc != OK && rc != ENOENT ==> rc == EIO && fs.faults > old(fs.faults)
  {
    hide ChainOk, Edges, EntryMap, HeadOf;
    assert chain[..|chain|] == chain;
    var cur := head;
    ghost var k: nat := |chain|;
    ghost var seen: seq<Edge> := [];
    HeadFacts(fs.crc, fs.disk, cur, chain);
    out := 0;
    while cur.phys != 0
      invariant k <= |chain| && cur == HeadOf(fs.crc, fs.disk, chain[..k])
      invariant Edges(fs.disk, chain) == seen + Edges(fs.disk, chain[..k])
      invariant forall j :: 0 <= j < |seen| ==> seen[j].name != name
      invariant fs.Steady(old(fs.faults))
      decreases k
    {
      WalkStep(fs.crc, fs.disk, head, chain, k, cur);
      var b;
      rc, b := fs.ReadMeta(cur);
      if rc != OK { return; }
      var i := 0;
      while i < |b.edges|
        invariant 0 <= i <= |b.edges|
        invariant forall j :: 0 <= j < i ==> b.edges[j].name != name
      {
        if b.edges[i].name == name {
          EntryMapFirst(Edges(fs.disk, chain), |seen| + i);
          return OK, b.edges[i].target;
        }
        i := i + 1;
      }
      seen := seen + b.edges;
      cur := b.next;
      k := k - 1;
    }
    WalkEnd(fs.crc, fs.disk, head, chain, k);
    NoEdges(fs.disk, chain[..k]);
    EntryMapAbsent(Edges(fs.disk, chain), name);
    rc := ENOENT;
  }

  method EdgeLookup(fs: Gfs, ghost id: nat, d: DNode, name: Name) returns (rc: Err, out: nat)
    requires InView(fs, id, d)
    modifies fs`faults
    ensures fs.Steady(old(fs.faults))
    ensures rc == OK ==> name in EntriesOf(fs, id) && out == EntriesOf(fs, id)[name]
    ensures rc == ENOENT ==> name !in EntriesOf(fs, id)
    ensures rc != OK && rc != ENOENT ==> rc == EIO && fs.faults > old(fs.faults)
  {
    hide Image, View, Replay, Traced, UsedOk, ChainOk, NodeWf, RecOk, TableOk, OwnerOk, NodeOk, Edges, EntryMap;
    ImageFacts(fs.crc, fs.disk, fs.live);
    ChainFacts(fs.g, fs.crc, fs.disk, fs.mp, fs.T, fs.dirty, id);
    rc, out := ChainLookup(fs, fs.T.chains[id], d.edgeHead, name);
  }

  lemma HeadFacts(crc: Crc, disk: Disk, head: Bp, chain: seq<nat>)
    requires ChainOk(crc, disk, head, chain)
    ensures head == HeadOf(crc, disk, chain)
  {}

  lemma NoEdges(disk: Disk, chain: seq<nat>)
    requires chain == []
    ensures Edges(disk, chain) == []
  {}

  // ---- adding an edge ---------------------------------------------------------------------------

  // The new head block holds the edges es and is chained to the kept part c of the old chain:
  // either the old head is rewritten with one more edge, or a fresh block goes in front.
  ghost predicate AddShape(disk: Disk, chain: seq<nat>, c: seq<nat>, es: seq<Edge>, e: Edge, gone: nat) {
    || (c == chain && es == [e] && gone == 0)
    || (chain != [] && c == chain[..|chain| - 1] && gone == chain[|chain| - 1]
        && es == EdgesIn(disk, gone) + [e] && |es| <= EDGES_PER_BLOCK)
  }

  lemma AddedChain(crc: Crc, disk: Disk, head: Bp, chain: seq<nat>, c: seq<nat>, es: seq<Edge>, e: Edge, gone: nat,
                   phys: nat)
    requires ChainOk(crc, disk, head, chain) && AddShape(disk, chain, c, es, e, gone)
    requires phys !in chain && 0 < phys < |disk|
    requires NamesUnique(Edges(disk, chain)) && e.name !in EntryMap(Edges(disk, chain))
    ensures
      var disk' := disk[phys := EdgeB(es, HeadOf(crc, disk, c))];
      && ChainOk(crc, disk', PtrTo(crc, disk', phys), c + [phys])
      && NamesUnique(Edges(disk', c + [phys]))
      && |Edges(disk', c + [phys])| == |Edges(disk, chain)| + 1
      && EntryMap(Edges(disk', c + [phys])) == EntryMap(Edges(disk, chain))[e.name := e.target]
  {
    var head' := head;
    if c != chain {
      ChainTail(crc, disk, head, chain);
      head' := disk[head.phys].next;
    }
    ChainPush(crc, disk, c, head', phys, es);
    var disk' := disk[phys := EdgeB(es, head')];
    var all := Edges(disk', c + [phys]);
    assert multiset(all) == multiset(Edges(disk, chain)) + multiset{e};
    EntryMapAdd(Edges(disk, chain), all, e);
  }

  lemma AddedBits(w: seq<bool>, chain: seq<nat>, c: seq<nat>, gone: nat, phys: nat)
    requires phys < |w| && !w[phys] && gone < |w|
    requires forall i :: 0 <= i < |chain| ==> chain[i] < |w| && w[chain[i]] && chain[i] != 0
    requires forall i, j :: 0 <= i < j < |chain| ==> chain[i] != chain[j]
    requires (c == chain && gone == 0) || (chain != [] && c == chain[..|chain| - 1] && gone == chain[|chain| - 1])
    ensures BitsMoved(w, BitCleared(w[phys := true], gone), ChainSet(chain), ChainSet(c + [phys]))
  {
    var w' := BitCleared(w[phys := true], gone);
    assert c == chain || chain == c + [gone];
    forall b | 0 <= b < |w| ensures w'[b] <==> (w[b] && b !in ChainSet(chain)) || b in ChainSet(c + [phys]) {
      assert b in c + [phys] <==> b in c || b == phys;
    }
  }

  lemma EdgeAdded(g: Geo, crc: Crc, disk: Disk, mp: seq<Bp>, T: Tree, dirty: set<nat>, w: seq<bool>, mapPhys: nat,
                  id: nat, c: seq<nat>, es: seq<Edge>, e: Edge, gone: nat, phys: nat)
    requires TreeOk(g, crc, disk, mp, T, dirty) && UsedOk(g, w, mapPhys, T.owner) && 0 < id < g.nodeCount <= MAX_NODES
    requires T.nodes[id].typ == TNamespace && AddShape(disk, T.chains[id], c, es, e, gone)
    requires g.DataFirst() <= phys < g.total && !w[phys]
    requires e.name !in EntryMap(Edges(disk, T.chains[id]))
    ensures gone < g.total
    ensures
      var n := T.nodes[id];
      var disk' := disk[phys := EdgeB(es, HeadOf(crc, disk, c))];
      var n' := n.(edgeHead := PtrTo(crc, disk', phys), edgeCount := n.edgeCount + 1);
      var T' := SetNode(T, id, n', c + [phys]);
      && TreeOk(g, crc, disk', mp, T', dirty + {id})
      && UsedOk(g, BitCleared(w[phys := true], gone), mapPhys, T'.owner)
      && EntryMap(Edges(disk', c + [phys])) == EntryMap(Edges(disk, T.chains[id]))[e.name := e.target]
      && View(g, disk', T') == View(g, disk, T)[id := ViewNode(disk', n', c + [phys])]
  {
    hide View, ChainOk, RecOk, TableOk, OwnerOk, NodeOk, Edges, EntryMap, SetNode, NamesUnique, PtrTo, HeadOf;
    var n := T.nodes[id];
    var chain := T.chains[id];
    var disk' := disk[phys := EdgeB(es, HeadOf(crc, disk, c))];
    var n' := n.(edgeHead := PtrTo(crc, disk', phys), edgeCount := n.edgeCount + 1);
    ChainFacts(g, crc, disk, mp, T, dirty, id);
    ChainDistinct(crc, disk, n.edgeHead, chain);
    AddedChain(crc, disk, n.edgeHead, chain, c, es, e, gone, phys);
    AddedBits(w, chain, c, gone, phys);
    assert DataSet([]) == {};
    assert BlocksOf(n, chain) == ChainSet(chain);
    assert BlocksOf(n', c + [phys]) == ChainSet(c + [phys]);
    forall b | b in ChainSet(c + [phys]) ensures g.DataFirst() <= b < g.total && b !in Others(T, id) && b != mapPhys {
      if b != phys {
        assert b in c && b in chain;
        var i: nat :| i < |chain| && chain[i] == b;
      }
    }
    NodeReplaced(g, crc, disk, disk', mp, T, dirty, w, BitCleared(w[phys := true], gone), mapPhys, id, n', c + [phys]);
  }

  lemma ChainDistinct(crc: Crc, disk: Disk, head: Bp, chain: seq<nat>)
    requires ChainOk(crc, disk, head, chain)
    ensures forall i, j :: 0 <= i < j < |chain| ==> chain[i] != chain[j]
  {}

  lemma NowIsDir(fs: Gfs, id: nat, d: DNode)
    requires InView(fs, id, d)
    ensures fs.Now()[id] == Dir(EntriesOf(fs, id), d.parent, d.nlink, d.mode)
  {
    hide Image, Replay, Traced, UsedOk, ChainOk, NodeWf, RecOk, TableOk, OwnerOk, NodeOk, Edges, EntryMap;
    ImageFacts(fs.crc, fs.disk, fs.live);
  }

  // Write the new head block of directory id and give the replaced one back.
  method PutHead(fs: Gfs, ghost id: nat, d: DNode, ghost c: seq<nat>, es: seq<Edge>, next: Bp, gone: nat, ghost e: Edge)
    returns (rc: Err, d': DNode)
    requires InHand(fs, id, d) && e.name !in EntriesOf(fs, id)
    requires AddShape(fs.disk, fs.T.chains[id], c, es, e, gone) && next == HeadOf(fs.crc, fs.disk, c)
    modifies fs`disk, fs`log, fs`faults, fs`working, fs`T, fs`dirty
    ensures fs.Steady(old(fs.faults))
    ensures fs.Safe()
    ensures rc == OK ==>
      && InHand(fs, id, d') && fs.dirty == old(fs.dirty) + {id} && fs.T.nodes == old(fs.T.nodes)[id := d']
      && d' == d.(edgeHead := d'.edgeHead, edgeCount := d.edgeCount + 1)
      && EntriesOf(fs, id) == old(EntriesOf(fs, id))[e.name := e.target]
      && fs.Now() == old(fs.Now())[id := Dir(EntriesOf(fs, id), d.parent, d.nlink, d.mode)]
      && |fs.Avail()| >= old(|fs.Avail()|) - 1
    ensures rc != OK ==> (rc == EIO && fs.faults > old(fs.faults)) || (rc == ENOSPC && old(fs.Avail()) == {})
  {
    hide Image, View, Replay, Traced, UsedOk, TreeOk, Edges, EntryMap, BitCleared, FreeSet, HeadOf, AddShape, PtrTo,
      Reown, BlocksOf;
    ImageFacts(fs.crc, fs.disk, fs.live);
    TreeLengths(fs.g, fs.crc, fs.disk, fs.mp, fs.T, fs.dirty);
    d' := d;
    var phys;
    rc, phys := fs.AllocBlock();
    if rc != OK { return; }
    EdgeAdded(fs.g, fs.crc, fs.disk, fs.mp, fs.T, fs.dirty, old(fs.working), fs.nodemap.phys, id, c, es, e, gone, phys);
    FreeSetSwap(fs.g, fs.committed, old(fs.working), phys, gone);
    var bp;
    rc, bp := fs.WriteMeta(phys, EdgeB(es, next));
    if rc != OK { return; }
    fs.FreeBlock(gone);
    d' := d.(edgeHead := bp, edgeCount := d.edgeCount + 1);
    fs.T := SetNode(fs.T, id, d', c + [phys]);
    fs.dirty := fs.dirty + {id};
  }

  method EdgeAdd(fs: Gfs, ghost id: nat, d: DNode, target: nat, name: Name) returns (rc: Err, d': DNode)
    requires InHand(fs, id, d) && name !in EntriesOf(fs, id)
    modifies fs`disk, fs`log, fs`faults, fs`working, fs`T, fs`dirty
    ensures fs.Steady(old(fs.faults))
    ensures fs.Safe()
    ensures rc == OK ==>
      && InHand(fs, id, d') && fs.dirty == old(fs.dirty) + {id} && fs.T.nodes == old(fs.T.nodes)[id := d']
      && d' == d.(edgeHead := d'.edgeHead, edgeCount := d.edgeCount + 1)
      && EntriesOf(fs, id) == old(EntriesOf(fs, id))[name := target]
      && fs.Now() == old(fs.Now())[id := Dir(EntriesOf(fs, id), d.parent, d.nlink, d.mode)]
      && |fs.Avail()| >= old(|fs.Avail()|) - 1
    ensures rc != OK ==> (rc == EIO && fs.faults > old(fs.faults)) || (rc == ENOSPC && old(fs.Avail()) == {})
  {
    hide Image, View, Replay, Traced, UsedOk, NodeWf, RecOk, TableOk, OwnerOk, NodeOk, Edges, EntryMap, FreeSet;
    ImageFacts(fs.crc, fs.disk, fs.live);
    ghost var chain := fs.T.chains[id];
    ChainFacts(fs.g, fs.crc, fs.disk, fs.mp, fs.T, fs.dirty, id);
    var e := Edge(name, target);
    var head := d.edgeHead;
    if head.phys != 0 {
      assert EdgeBlockOk(fs.crc, fs.disk, chain, |chain| - 1);
      var b;
      rc, b := fs.ReadMeta(head);
      if rc != OK { d' := d; return; }
      if |b.edges| < EDGES_PER_BLOCK {
        rc, d' := PutHead(fs, id, d, chain[..|chain| - 1], b.edges + [e], b.next, head.phys, e);
        return;
      }
    }
    rc, d' := PutHead(fs, id, d, chain, [e], head, 0, e);
  }

  // ---- removing an edge: the chain is rebuilt into fresh blocks ---------------------------------------

  // Blocks of the working tree that the rebuild of directory id has not given back yet; the last
  // k blocks of its old chain are still to be read.
  ghost function Kept(T: Tree, id: nat, k: nat): set<nat>
    requires id < |T.chains| && k <= |T.chains[id]|
  {
    T.owner.Keys - ChainSet(T.chains[id][k..])
  }

  // State of the rebuild: `out` is the new chain so far.
  ghost predicate Rebuild(g: Geo, crc: Crc, disk0: Disk, disk: Disk, w0: seq<bool>, w: seq<bool>, mapPhys: nat,
                          T: Tree, id: nat, k: nat, out: seq<nat>, outHead: Bp) {
    && id < |T.chains| && k <= |T.chains[id]|
    && Agree(disk0, disk, Kept(T, id, k))
    && BitsMoved(w0, w, ChainSet(T.chains[id][k..]), ChainSet(out))
    && (forall b :: b in out ==> g.DataFirst() <= b < g.total && b != mapPhys && b !in Kept(T, id, k))
    && ChainOk(crc, disk, outHead, out)
  }

  ghost predicate RebuildBase(g: Geo, crc: Crc, disk0: Disk, mp: seq<Bp>, T: Tree, dirty: set<nat>, w0: seq<bool>,
                              mapPhys: nat, id: nat) {
    && TreeOk(g, crc, disk0, mp, T, dirty) && UsedOk(g, w0, mapPhys, T.owner) && 0 < id < g.nodeCount <= MAX_NODES
    && T.nodes[id].typ == TNamespace
    && g.DataFirst() <= mapPhys < g.total
  }

  lemma RebuildStart(g: Geo, crc: Crc, disk0: Disk, mp: seq<Bp>, T: Tree, dirty: set<nat>, w0: seq<bool>, mapPhys: nat,
                     id: nat)
    requires RebuildBase(g, crc, disk0, mp, T, dirty, w0, mapPhys, id)
    ensures Rebuild(g, crc, disk0, disk0, w0, w0, mapPhys, T, id, |T.chains[id]|, [], NULL_BP)
    ensures Edges(disk0, []) == []
  {
    hide RecOk, TableOk, OwnerOk, NodeOk, Edges;
    assert T.chains[id][|T.chains[id]|..] == [];
    EmptyChain(crc, disk0);
  }

  lemma EmptyChain(crc: Crc, disk: Disk)
    ensures ChainOk(crc, disk, NULL_BP, []) && Edges(disk, []) == []
  {}

  // A block with the working bit clear belongs to nothing the rebuild still needs.
  lemma RebuildUnused(g: Geo, crc: Crc, disk0: Disk, disk: Disk, mp: seq<Bp>, dirty: set<nat>, w0: seq<bool>,
                      w: seq<bool>, mapPhys: nat, T: Tree, id: nat, k: nat, out: seq<nat>, outHead: Bp, phys: nat)
    requires RebuildBase(g, crc, disk0, mp, T, dirty, w0, mapPhys, id)
    requires Rebuild(g, crc, disk0, disk, w0, w, mapPhys, T, id, k, out, outHead)
    requires g.DataFirst() <= phys < g.total && !w[phys]
    ensures phys !in Kept(T, id, k) && phys !in out && phys != mapPhys
  {
    hide RecOk, TableOk, OwnerOk, NodeOk, ChainOk;
    MapNotInChain(g, crc, disk0, mp, T, dirty, w0, mapPhys, id, k);
  }

  lemma MapNotInChain(g: Geo, crc: Crc, disk0: Disk, mp: seq<Bp>, T: Tree, dirty: set<nat>, w0: seq<bool>, mapPhys: nat,
                      id: nat, k: nat)
    requires RebuildBase(g, crc, disk0, mp, T, dirty, w0, mapPhys, id) && k <= |T.chains[id]|
    ensures mapPhys !in ChainSet(T.chains[id][k..])
  {
    hide RecOk, TableOk, OwnerOk, NodeOk, ChainOk;
    ChainFacts(g, crc, disk0, mp, T, dirty, id);
  }

  lemma RebuildFlush(g: Geo, crc: Crc, disk0: Disk, disk: Disk, mp: seq<Bp>, dirty: set<nat>, w0: seq<bool>,
                     w: seq<bool>,
                     mapPhys: nat, T: Tree, id: nat, k: nat, out: seq<nat>, outHead: Bp, phys: nat, pend: seq<Edge>)
    requires RebuildBase(g, crc, disk0, mp, T, dirty, w0, mapPhys, id)
    requires Rebuild(g, crc, disk0, disk, w0, w, mapPhys, T, id, k, out, outHead)
    requires g.DataFirst() <= phys < g.total && !w[phys] && 0 < |pend| <= EDGES_PER_BLOCK
    ensures phys < |disk|
    ensures var disk' := disk[phys := EdgeB(pend, outHead)];
      && Rebuild(g, crc, disk0, disk', w0, w[phys := true], mapPhys, T, id, k, out + [phys], PtrTo(crc, disk', phys))
      && Edges(disk', out + [phys]) == pend + Edges(disk, out)
  {
    hide RecOk, TableOk, OwnerOk, NodeOk, ChainOk, Edges, UsedOk;
    RebuildUnused(g, crc, disk0, disk, mp, dirty, w0, w, mapPhys, T, id, k, out, outHead, phys);
    UsedLen(g, w0, mapPhys, T.owner);
    ChainPush(crc, disk, out, outHead, phys, pend);
    assert forall b :: b in out + [phys] <==> b in out || b == phys;
  }

  lemma RebuildFree(g: Geo, crc: Crc, disk0: Disk, disk: Disk, mp: seq<Bp>, dirty: set<nat>, w0: seq<bool>,
                    w: seq<bool>, mapPhys: nat, T: Tree, id: nat, k: nat, out: seq<nat>, outHead: Bp)
    requires RebuildBase(g, crc, disk0, mp, T, dirty, w0, mapPhys, id)
    requires Rebuild(g, crc, disk0, disk, w0, w, mapPhys, T, id, k, out, outHead) && k > 0
    ensures T.chains[id][k - 1] < |w| && T.chains[id][k - 1] in Kept(T, id, k) && T.chains[id][k - 1] < |disk0|
    ensures Rebuild(g, crc, disk0, disk, w0, BitCleared(w, T.chains[id][k - 1]), mapPhys, T, id, k - 1, out, outHead)
  {
    hide RecOk, TableOk, OwnerOk, NodeOk, ChainOk, Edges, UsedOk;
    var chain := T.chains[id];
    ChainFacts(g, crc, disk0, mp, T, dirty, id);
    ChainDistinct(crc, disk0, T.nodes[id].edgeHead, chain);
    UsedLen(g, w0, mapPhys, T.owner);
    var c := chain[k - 1];
    assert Owned(T, c, ONode(id));
    assert chain[k - 1..] == [c] + chain[k..];
    assert c !in chain[k..];
    assert Kept(T, id, k - 1) == Kept(T, id, k) - {c};
    assert c !in out;
  }

  // When the whole old chain is read, the new chain can take its place.
  lemma RebuildDone(g: Geo, crc: Crc, disk0: Disk, disk: Disk, mp: seq<Bp>, dirty: set<nat>, w0: seq<bool>,
                    w: seq<bool>, mapPhys: nat, T: Tree, id: nat, out: seq<nat>, outHead: Bp, n: DNode)
    requires RebuildBase(g, crc, disk0, mp, T, dirty, w0, mapPhys, id)
    requires Rebuild(g, crc, disk0, disk, w0, w, mapPhys, T, id, 0, out, outHead)
    requires n == T.nodes[id].(edgeHead := outHead, edgeCount := |Edges(disk, out)|) && NamesUnique(Edges(disk, out))
    ensures
      var T' := SetNode(T, id, n, out);
      && TreeOk(g, crc, disk, mp, T', dirty + {id}) && UsedOk(g, w, mapPhys, T'.owner)
      && View(g, disk, T') == View(g, disk0, T)[id := ViewNode(disk, n, out)]
  {
    hide RecOk, TableOk, OwnerOk, ChainOk, Edges, UsedOk, View, SetNode, EntryMap, NamesUnique, NodeOk;
    var chain := T.chains[id];
    ChainFacts(g, crc, disk0, mp, T, dirty, id);
    assert chain[0..] == chain;
    assert DataSet([]) == {};
    assert BlocksOf(T.nodes[id], chain) == ChainSet(chain);
    assert BlocksOf(n, out) == ChainSet(out);
    assert NodeOk(g, crc, disk0, T, id);
    OthersAreRest(g, crc, disk0, T, id);
    assert Others(T, id) == Kept(T, id, 0);
    NodeReplaced(g, crc, disk0, disk, mp, T, dirty, w0, w, mapPhys, id, n, out);
  }
}
