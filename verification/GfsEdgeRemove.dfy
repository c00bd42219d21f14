// edge_remove_name: rebuild a directory's chain without one edge.
module GfsEdgeRemove {
  import Counting
  import opened GfsTypes
  import opened Namespace
  import opened GfsDisk
  import opened GfsUpdate
  import opened GfsEdgeMap
  import opened GfsCore
  import opened GfsEdges

  // Where a rebuild started: the disk, the working bitmap and the directory.
  datatype Start = Start(disk0: Disk, w0: seq<bool>, id: nat)

  // What the loop carries: pointer to the blocks written so far, the edges waiting for the next
  // block, and whether the edge has been met.
  datatype Acc = Acc(head: Bp, pend: seq<Edge>, found: bool, removed: nat, total: nat)

  ghost predicate Running(fs: Gfs, s: Start, k: nat, out: seq<nat>, acc: Acc)
    reads fs
  {
    && fs.Safe() && fs.writable
    && RebuildBase(fs.g, fs.crc, s.disk0, fs.mp, fs.T, fs.dirty, s.w0, fs.nodemap.phys, s.id)
    && Rebuild(fs.g, fs.crc, s.disk0, fs.disk, s.w0, fs.working, fs.nodemap.phys, fs.T, s.id, k, out, acc.head)
    && |acc.pend| <= EDGES_PER_BLOCK
    && |Edges(fs.disk, out)| == EDGES_PER_BLOCK * |out|
    && acc.total == |Edges(fs.disk, out)| + |acc.pend|
  }

  // All edges taken so far, the removed one included.
  ghost function Taken(disk: Disk, out: seq<nat>, acc: Acc, name: Name): multiset<Edge> {
    multiset(Edges(disk, out)) + multiset(acc.pend) +
      (if acc.found then multiset{Edge(name, acc.removed)} else multiset{})
  }

  ghost predicate Avoids(m: multiset<Edge>, name: Name) { forall e :: e in m ==> e.name != name }

  // Write the waiting edges as one more block in front of the new chain.
  method Flush(fs: Gfs, ghost s: Start, ghost k: nat, ghost out: seq<nat>, head: Bp, pend: seq<Edge>)
    returns (rc: Err, bp: Bp, ghost out': seq<nat>)
    requires fs.Safe() && fs.writable && 0 < |pend| <= EDGES_PER_BLOCK
    requires RebuildBase(fs.g, fs.crc, s.disk0, fs.mp, fs.T, fs.dirty, s.w0, fs.nodemap.phys, s.id)
    requires Rebuild(fs.g, fs.crc, s.disk0, fs.disk, s.w0, fs.working, fs.nodemap.phys, fs.T, s.id, k, out, head)
    modifies fs`disk, fs`log, fs`faults, fs`working
    ensures fs.Steady(old(fs.faults)) && fs.Safe()
    ensures rc == OK ==>
      && Rebuild(fs.g, fs.crc, s.disk0, fs.disk, s.w0, fs.working, fs.nodemap.phys, fs.T, s.id, k, out', bp)
      && |out'| == |out| + 1 && Edges(fs.disk, out') == pend + Edges(old(fs.disk), out)
      && |fs.Avail()| == old(|fs.Avail()|) - 1
    ensures rc != OK ==> (rc == EIO && fs.faults > old(fs.faults)) || (rc == ENOSPC && old(fs.Avail()) == {})
  {
    hide Image, View, Replay, Traced, RebuildBase, Rebuild, Edges, FreeSet;
    ImageFacts(fs.crc, fs.disk, fs.live);
    bp, out' := NULL_BP, out;
    var phys;
    rc, phys := fs.AllocBlock();
    if rc != OK { return; }
    RebuildFlush(fs.g, fs.crc, s.disk0, fs.disk, fs.mp, fs.dirty, s.w0, old(fs.working), fs.nodemap.phys, fs.T, s.id, k,
      out, head, phys, pend);
    rc, bp := fs.WriteMeta(phys, EdgeB(pend, head));
    if rc != OK { return; }
    out' := out + [phys];
  }

  // Keep one edge.
  method Keep(fs: Gfs, ghost s: Start, ghost k: nat, ghost out: seq<nat>, acc: Acc, e: Edge, ghost name: Name)
    returns (rc: Err, acc': Acc, ghost out': seq<nat>)
    requires Running(fs, s, k, out, acc)
    modifies fs`disk, fs`log, fs`faults, fs`working
    ensures fs.Steady(old(fs.faults)) && fs.Safe()
    ensures rc == OK ==>
      && Running(fs, s, k, out', acc') && acc'.found == acc.found && acc'.removed == acc.removed
        && acc'.total == acc.total + 1
      && Taken(fs.disk, out', acc', name) == Taken(old(fs.disk), out, acc, name) + multiset{e}
      && |out'| >= |out| && |fs.Avail()| + |out'| >= old(|fs.Avail()|) + |out|
    ensures rc != OK ==>
      (rc == EIO && fs.faults > old(fs.faults))
      || (rc == ENOSPC && old(fs.Avail()) == {} && |acc.pend| == EDGES_PER_BLOCK)
  {
    hide Image, View, Replay, Traced, RebuildBase, Rebuild, Edges, FreeSet;
    rc, acc', out' := OK, acc, out;
    if |acc.pend| == EDGES_PER_BLOCK {
      var bp;
      rc, bp, out' := Flush(fs, s, k, out, acc.head, acc.pend);
      if rc != OK { return; }
      acc' := acc.(head := bp, pend := []);
    }
    acc' := acc'.(pend := acc'.pend + [e], total := acc.total + 1);
  }

  // Blocks needed for n edges.
  function EdgeBlocks(n: int): int { (n + EDGES_PER_BLOCK - 1) / EDGES_PER_BLOCK }

  lemma EdgeBlocksLeast(n: nat, k: nat)
    ensures n <= k * EDGES_PER_BLOCK <==> EdgeBlocks(n) <= k
  {}

  ghost predicate Progress(disk: Disk, out: seq<nat>, acc: Acc, name: Name, rest: multiset<Edge>, all: multiset<Edge>) {
    && all == Taken(disk, out, acc, name) + rest
    && (!acc.found ==> Avoids(Taken(disk, out, acc, name), name))
  }

  lemma ProgressFound(disk: Disk, out: seq<nat>, acc: Acc, name: Name, es: seq<Edge>, i: nat, rest: multiset<Edge>,
                      all: multiset<Edge>)
    requires i < |es| && es[i].name == name && !acc.found
    requires Progress(disk, out, acc, name, multiset(es[i..]) + rest, all)
    ensures Progress(disk, out, acc.(found := true, removed := es[i].target), name, multiset(es[i + 1..]) + rest, all)
  {
    assert es[i..] == [es[i]] + es[i + 1..];
    assert es[i] == Edge(name, es[i].target);
  }

  lemma ProgressKeep(disk: Disk, out: seq<nat>, acc: Acc, disk': Disk, out': seq<nat>, acc': Acc, name: Name,
                     es: seq<Edge>, i: nat, rest: multiset<Edge>, all: multiset<Edge>)
    requires i < |es| && (acc.found || es[i].name != name) && acc'.found == acc.found
    requires Taken(disk', out', acc', name) == Taken(disk, out, acc, name) + multiset{es[i]}
    requires Progress(disk, out, acc, name, multiset(es[i..]) + rest, all)
    ensures Progress(disk', out', acc', name, multiset(es[i + 1..]) + rest, all)
  {
    hide Taken;
    assert es[i..] == [es[i]] + es[i + 1..];
  }

  // No room for the next block means the rebuild needed more blocks than were free.
  lemma TooFew(disk: Disk, out: seq<nat>, acc: Acc, name: Name, rest: multiset<Edge>, all: multiset<Edge>)
    requires Progress(disk, out, acc, name, rest, all) && |Edges(disk, out)| == EDGES_PER_BLOCK * |out|
    requires |acc.pend| == EDGES_PER_BLOCK && |rest| > 0
    ensures |out| < EdgeBlocks(|all| - 1)
  {
    assert |all| >= EDGES_PER_BLOCK * |out| + EDGES_PER_BLOCK + 1;
  }

  // Process the edges of one old block.
  method TakeBlock(fs: Gfs, ghost s: Start, ghost k: nat, ghost out: seq<nat>, acc: Acc, es: seq<Edge>, name: Name,
                   ghost rest: multiset<Edge>, ghost all: multiset<Edge>)
    returns (rc: Err, acc': Acc, ghost out': seq<nat>)
    requires Running(fs, s, k, out, acc)
    requires Progress(fs.disk, out, acc, name, multiset(es) + rest, all)
    modifies fs`disk, fs`log, fs`faults, fs`working
    ensures fs.Steady(old(fs.faults)) && fs.Safe()
    ensures rc == OK ==>
      && Running(fs, s, k, out', acc') && Progress(fs.disk, out', acc', name, rest, all)
      && |out'| >= |out| && |fs.Avail()| + |out'| >= old(|fs.Avail()|) + |out|
    ensures rc != OK ==>
      || (rc == EIO && fs.faults > old(fs.faults))
      || (rc == ENOSPC && old(|fs.Avail()|) + |out| < EdgeBlocks(|all| - 1))
  {
    hide Image, View, Replay, Traced, RebuildBase, Rebuild, Edges, FreeSet, Progress, Taken, EdgeBlocks;
    rc, acc', out' := OK, acc, out;
    var i := 0;
    assert es[0..] == es;
    while i < |es|
      invariant 0 <= i <= |es|
      invariant Running(fs, s, k, out', acc') && fs.Steady(old(fs.faults))
      invariant Progress(fs.disk, out', acc', name, multiset(es[i..]) + rest, all)
      invariant |out'| >= |out| && |fs.Avail()| + |out'| >= old(|fs.Avail()|) + |out|
      invariant rc == OK
    {
      if !acc'.found && es[i].name == name {
        ProgressFound(fs.disk, out', acc', name, es, i, rest, all);
        acc' := acc'.(found := true, removed := es[i].target);
      } else {
        ghost var disk1, out1, acc1 := fs.disk, out', acc';
        rc, acc', out' := Keep(fs, s, k, out1, acc', es[i], name);
        if rc != OK {
          if rc == ENOSPC {
            assert es[i] in multiset(es[i..]);
            TooFew(disk1, out1, acc1, name, multiset(es[i..]) + rest, all);
          }
          return;
        }
        ProgressKeep(disk1, out1, acc1, fs.disk, out', acc', name, es, i, rest, all);
      }
      i := i + 1;
    }
    assert multiset(es[|es|..]) + rest == rest;
  }

  // The next old block to read is still intact.
  lemma NextBlock(fs: Gfs, s: Start, k: nat, out: seq<nat>, acc: Acc, cur: Bp)
    requires Running(fs, s, k, out, acc) && cur.phys != 0
    requires k <= |fs.T.chains[s.id]| && cur == HeadOf(fs.crc, s.disk0, fs.T.chains[s.id][..k])
    ensures
      var chain := fs.T.chains[s.id];
      && k > 0 && cur.phys == chain[k - 1] < fs.g.total <= |fs.disk| && cur == PtrTo(fs.crc, fs.disk, cur.phys)
      && fs.disk[cur.phys].EdgeB? && fs.disk[cur.phys].next == HeadOf(fs.crc, s.disk0, chain[..k - 1])
      && Edges(s.disk0, chain[..k]) == fs.disk[cur.phys].edges + Edges(s.disk0, chain[..k - 1])
  {
    hide Image, View, Replay, Traced, Edges, FreeSet, RecOk, TableOk, OwnerOk, NodeOk, ChainOk, UsedOk, HeadOf;
    ImageFacts(fs.crc, fs.disk, fs.live);
    var chain := fs.T.chains[s.id];
    ChainFacts(fs.g, fs.crc, s.disk0, fs.mp, fs.T, fs.dirty, s.id);
    WalkStep(fs.crc, s.disk0, fs.T.nodes[s.id].edgeHead, chain, k, cur);
    RebuildFree(fs.g, fs.crc, s.disk0, fs.disk, fs.mp, fs.dirty, s.w0, fs.working, fs.nodemap.phys, fs.T, s.id, k, out,
      acc.head);
  }

  // Give the block just read back.
  method DropOld(fs: Gfs, ghost s: Start, ghost k: nat, ghost out: seq<nat>, acc: Acc, phys: nat)
    requires Running(fs, s, k, out, acc) && 0 < k <= |fs.T.chains[s.id]| && phys == fs.T.chains[s.id][k - 1]
    modifies fs`working
    ensures Running(fs, s, k - 1, out, acc)
    ensures |fs.Avail()| >= old(|fs.Avail()|)
  {
    hide Image, View, Replay, Traced, Edges, RebuildBase, Rebuild, UsedOk;
    RebuildFree(fs.g, fs.crc, s.disk0, fs.disk, fs.mp, fs.dirty, s.w0, fs.working, fs.nodemap.phys, fs.T, s.id, k, out,
      acc.head);
    fs.FreeBlock(phys);
    assert old(fs.Avail()) <= fs.Avail();
    Counting.SubsetCount(old(fs.Avail()), fs.Avail());
  }

  // Read the next old block.
  method ReadOld(fs: Gfs, ghost s: Start, ghost k: nat, ghost out: seq<nat>, ghost acc: Acc, cur: Bp)
    returns (rc: Err, b: Block)
    requires Running(fs, s, k, out, acc) && cur.phys != 0
    requires k <= |fs.T.chains[s.id]| && cur == HeadOf(fs.crc, s.disk0, fs.T.chains[s.id][..k])
    modifies fs`faults
    ensures Running(fs, s, k, out, acc) && fs.Safe() && fs.Steady(old(fs.faults))
    ensures rc == OK ==>
      var chain := fs.T.chains[s.id];
      && k > 0 && b.EdgeB? && cur.phys == chain[k - 1] && b.next == HeadOf(fs.crc, s.disk0, chain[..k - 1])
      && Edges(s.disk0, chain[..k]) == b.edges + Edges(s.disk0, chain[..k - 1])
    ensures rc != OK ==> rc == EIO && fs.faults > old(fs.faults)
  {
    hide Image, View, Replay, Traced, Edges, RebuildBase, Rebuild, HeadOf;
    NextBlock(fs, s, k, out, acc, cur);
    rc, b := fs.ReadMeta(cur);
  }

  lemma HandFacts(fs: Gfs, id: nat, d: DNode)
    requires InHand(fs, id, d)
    ensures fs.g.Ok() && fs.g.total <= |fs.disk| && |fs.working| == fs.g.total && |fs.committed| == fs.g.total
    ensures fs.g.DataFirst() <= fs.nodemap.phys < fs.g.total
  {
    hide Image;
    ImageFacts(fs.crc, fs.disk, fs.live);
  }

  // Read the whole old chain.
  method RebuildAll(fs: Gfs, ghost s: Start, d: DNode, name: Name) returns (rc: Err, acc: Acc, ghost out: seq<nat>)
    requires InHand(fs, s.id, d) && s.disk0 == fs.disk && s.w0 == fs.working
    modifies fs`disk, fs`log, fs`faults, fs`working
    ensures fs.Steady(old(fs.faults)) && fs.Safe()
    ensures rc == OK ==>
      && Running(fs, s, 0, out, acc)
      && Progress(fs.disk, out, acc, name, multiset{}, multiset(Edges(s.disk0, fs.T.chains[s.id])))
      && |fs.Avail()| + |out| >= old(|fs.Avail()|)
    ensures rc != OK ==>
      || (rc == EIO && fs.faults > old(fs.faults))
      || (rc == ENOSPC && old(|fs.Avail()|) < EdgeBlocks(|Edges(s.disk0, fs.T.chains[s.id])| - 1))
  {
    hide Image, View, Replay, Traced, Edges, FreeSet, RecOk, TableOk, OwnerOk, NodeOk, ChainOk, UsedOk, HeadOf, Rebuild,
      Progress, EdgeBlocks, Gfs.Valid, Gfs.Safe;
    HandFacts(fs, s.id, d);
    ghost var chain := fs.T.chains[s.id];
    ghost var all := multiset(Edges(s.disk0, chain));
    ChainFacts(fs.g, fs.crc, fs.disk, fs.mp, fs.T, fs.dirty, s.id);
    HeadFacts(fs.crc, fs.disk, d.edgeHead, chain);
    RebuildStart(fs.g, fs.crc, fs.disk, fs.mp, fs.T, fs.dirty, fs.working, fs.nodemap.phys, s.id);
    rc, acc, out := OK, Acc(NULL_BP, [], false, 0, 0), [];
    var cur := d.edgeHead;
    ghost var k: nat := |chain|;
    assert chain[..k] == chain;
    ProgressStart(fs.disk, acc, name, multiset(Edges(s.disk0, chain[..k])));
    while cur.phys != 0
      invariant k <= |chain| && cur == HeadOf(fs.crc, s.disk0, chain[..k])
      invariant Running(fs, s, k, out, acc) && fs.Steady(old(fs.faults))
      invariant Progress(fs.disk, out, acc, name, multiset(Edges(s.disk0, chain[..k])), all)
      invariant |fs.Avail()| + |out| >= old(|fs.Avail()|)
      decreases k
    {
      var b;
      rc, b := ReadOld(fs, s, k, out, acc, cur);
      if rc != OK { return; }
      ghost var rest := multiset(Edges(s.disk0, chain[..k - 1]));
      assert multiset(Edges(s.disk0, chain[..k])) == multiset(b.edges) + rest;
      rc, acc, out := TakeBlock(fs, s, k, out, acc, b.edges, name, rest, all);
      if rc != OK { return; }
      DropOld(fs, s, k, out, acc, cur.phys);
      cur := b.next;
      k := k - 1;
    }
    WalkEnd(fs.crc, s.disk0, d.edgeHead, chain, k);
    NoEdges(s.disk0, chain[..k]);
    rc := OK;
  }

  lemma ProgressStart(disk: Disk, acc: Acc, name: Name, all: multiset<Edge>)
    requires acc.pend == [] && !acc.found
    ensures Progress(disk, [], acc, name, all, all)
  {}

  // What a complete rebuild without the named edge leaves behind.
  lemma RebuiltMap(disk: Disk, out: seq<nat>, name: Name, removed: nat, es: seq<Edge>)
    requires NamesUnique(es) && multiset(es) == multiset(Edges(disk, out)) + multiset{Edge(name, removed)}
    ensures NamesUnique(Edges(disk, out)) && |Edges(disk, out)| == |es| - 1
    ensures name in EntryMap(es) && EntryMap(es)[name] == removed
    ensures EntryMap(Edges(disk, out)) == EntryMap(es) - {name}
  {
    hide Edges;
    EntryMapRemove(es, Edges(disk, out), Edge(name, removed));
    assert Edge(name, removed) in multiset(es);
    EntryMapMember(es, name, removed);
  }

  lemma NeverFound(disk: Disk, out: seq<nat>, acc: Acc, name: Name, es: seq<Edge>)
    requires Progress(disk, out, acc, name, multiset{}, multiset(es)) && !acc.found
    ensures name !in EntryMap(es)
  {
    hide Edges, EntryMap;
    forall j | 0 <= j < |es| ensures es[j].name != name {
      assert es[j] in multiset(es);
    }
    EntryMapAbsent(es, name);
  }

  // The last, partial block.
  method FlushRest(fs: Gfs, ghost s: Start, ghost out: seq<nat>, acc: Acc, name: Name, ghost all: multiset<Edge>)
    returns (rc: Err, head: Bp, ghost out': seq<nat>)
    requires Running(fs, s, 0, out, acc) && Progress(fs.disk, out, acc, name, multiset{}, all) && acc.found
    modifies fs`disk, fs`log, fs`faults, fs`working
    ensures fs.Steady(old(fs.faults)) && fs.Safe()
    ensures rc == OK ==>
      && Rebuild(fs.g, fs.crc, s.disk0, fs.disk, s.w0, fs.working, fs.nodemap.phys, fs.T, s.id, 0, out', head)
      && all == multiset(Edges(fs.disk, out')) + multiset{Edge(name, acc.removed)}
      && acc.total == |all| - 1 && |out'| == EdgeBlocks(|all| - 1) && |fs.Avail()| + |out'| >= old(|fs.Avail()|) + |out|
    ensures rc != OK ==>
      || (rc == EIO && fs.faults > old(fs.faults))
      || (rc == ENOSPC && old(|fs.Avail()|) + |out| < EdgeBlocks(|all| - 1))
  {
    hide Image, View, Replay, Traced, Edges, FreeSet, RebuildBase, Rebuild;
    rc, head, out' := OK, acc.head, out;
    assert |all| - 1 == EDGES_PER_BLOCK * |out| + |acc.pend|;
    if |acc.pend| > 0 {
      rc, head, out' := Flush(fs, s, 0, out, acc.head, acc.pend);
    }
  }

  method EdgeRemove(fs: Gfs, ghost id: nat, d: DNode, name: Name) returns (rc: Err, d': DNode, removed: nat)
    requires InHand(fs, id, d)
    modifies fs`disk, fs`log, fs`faults, fs`working, fs`T, fs`dirty
    ensures fs.Steady(old(fs.faults)) && fs.Safe()
    ensures rc == OK ==>
      && name in old(EntriesOf(fs, id)) && removed == old(EntriesOf(fs, id))[name]
      && InHand(fs, id, d') && fs.dirty == old(fs.dirty) + {id} && fs.T.nodes == old(fs.T.nodes)[id := d']
      && d.edgeCount > 0 && d' == d.(edgeHead := d'.edgeHead, edgeCount := d.edgeCount - 1)
      && EntriesOf(fs, id) == old(EntriesOf(fs, id)) - {name}
      && fs.Now() == old(fs.Now())[id := Dir(EntriesOf(fs, id), d.parent, d.nlink, d.mode)]
      && |fs.Avail()| >= old(|fs.Avail()|) - EdgeBlocks(d.edgeCount - 1)
    ensures rc == ENOENT ==> name !in old(EntriesOf(fs, id))
    ensures rc != OK && rc != ENOENT ==>
      || (rc == EIO && fs.faults > old(fs.faults))
      || (rc == ENOSPC && old(|fs.Avail()|) < EdgeBlocks(d.edgeCount - 1))
  {
    hide Image, View, Replay, Traced, Edges, FreeSet, RecOk, TableOk, OwnerOk, NodeOk, ChainOk, UsedOk, HeadOf, Rebuild,
      Progress, EdgeBlocks, EntryMap, NamesUnique, Reown, BlocksOf;
    ImageFacts(fs.crc, fs.disk, fs.live);
    ghost var s := Start(fs.disk, fs.working, id);
    ghost var es := Edges(fs.disk, fs.T.chains[id]);
    ChainFacts(fs.g, fs.crc, fs.disk, fs.mp, fs.T, fs.dirty, id);
    d', removed := d, 0;
    var acc;
    ghost var out;
    rc, acc, out := RebuildAll(fs, s, d, name);
    if rc != OK { return; }
    if !acc.found {
      NeverFound(fs.disk, out, acc, name, es);
      return ENOENT, d', removed;
    }
    var head;
    rc, head, out := FlushRest(fs, s, out, acc, name, multiset(es));
    if rc != OK { return; }
    RebuiltMap(fs.disk, out, name, acc.removed, es);
    d' := d.(edgeHead := head, edgeCount := acc.total);
    removed := acc.removed;
    RebuildDone(fs.g, fs.crc, s.disk0, fs.disk, fs.mp, fs.dirty, s.w0, fs.working, fs.nodemap.phys, fs.T, id, out, head,
      d');
    fs.T := SetNode(fs.T, id, d', out);
    fs.dirty := fs.dirty + {id};
  }
}
