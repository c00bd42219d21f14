// Steps shared by the mutating calls: staging node records, finding a free id, freeing a node's
// blocks, and the bookkeeping of free counters.
module GfsStage {
  import Counting
  import opened GfsTypes
  import opened Namespace
  import opened GfsDisk
  import opened GfsFrame
  import opened GfsUpdate
  import opened GfsCore
  import opened GfsEdges
  import opened GfsExtents

  // ---- staging a record ----------------------------------------------------------------------

  // Change scalar fields of an allocated node in memory.
  ghost method Touch(fs: Gfs, id: nat, n: DNode)
    requires fs.Work() && 0 < id < fs.g.nodeCount && fs.T.nodes[id].typ != TFree
    requires n == fs.T.nodes[id].(nlink := n.nlink, parent := n.parent, mode := n.mode)
      && (n.typ == TData ==> n.parent == 0)
    modifies fs`T, fs`dirty
    ensures fs.Work() && fs.dirty == old(fs.dirty) + {id}
    ensures fs.T.nodes == old(fs.T.nodes)[id := n] && fs.T.chains == old(fs.T.chains)
    ensures fs.Now() == old(fs.Now())[id := ViewNode(fs.disk, n, fs.T.chains[id])]
  {
    hide Image, View, Replay, Traced, RecOk, TableOk, OwnerOk, NodeOk, UsedOk, ViewNode, Reown, BlocksOf;
    ImageFacts(fs.crc, fs.disk, fs.live);
    NodeTouched(fs.g, fs.crc, fs.disk, fs.mp, fs.T, fs.dirty, fs.working, fs.nodemap.phys, id, n);
    fs.T := SetNode(fs.T, id, n, fs.T.chains[id]);
    fs.dirty := fs.dirty + {id};
  }

  lemma NoBlocks(n: DNode)
    requires n.ext == []
    ensures BlocksOf(n, []) == {}
  {
    assert DataSet([]) == {};
  }

  // A record without blocks: a new-born node, or the zero record of a freed one.
  ghost predicate Bare(n: DNode) {
    n == ZERO_NODE || (n.typ != TFree
      && n == ZERO_NODE.(typ := n.typ, mode := n.mode, nlink := n.nlink, parent := n.parent)
                       && (n.typ == TData ==> n.parent == 0))
  }

  lemma BareWf(g: Geo, crc: Crc, disk: Disk, n: DNode)
    requires Bare(n)
    ensures NodeWf(g, crc, disk, n, [])
    ensures ViewNode(disk, n, []) == match n.typ case TFree => Free case TNamespace => Dir(map[], n.parent, n.nlink,
      n.mode) case TData => File([], n.nlink, n.mode)
  {}

  // The node's old blocks have all been given back; it now holds none.
  lemma NodeBared(g: Geo, crc: Crc, disk: Disk, mp: seq<Bp>, T: Tree, dirty: set<nat>, w: seq<bool>, w': seq<bool>,
                  mapPhys: nat, id: nat, n: DNode)
    requires TreeOk(g, crc, disk, mp, T, dirty) && UsedOk(g, w, mapPhys, T.owner) && 0 < id < g.nodeCount <= MAX_NODES
      && Bare(n)
    requires BitsMoved(w, w', BlocksOf(T.nodes[id], T.chains[id]), {})
    ensures
      var T' := SetNode(T, id, n, []);
      && TreeOk(g, crc, disk, mp, T', dirty + {id}) && UsedOk(g, w', mapPhys, T'.owner)
      && View(g, disk, T') == View(g, disk, T)[id := ViewNode(disk, n, [])]
  {
    hide View, RecOk, TableOk, OwnerOk, NodeOk, UsedOk, SetNode, ViewNode, TreeOk, NodeWf;
    NoBlocks(n);
    BareWf(g, crc, disk, n);
    assert NodeChange(g, crc, disk, disk, T, id, n, []);
    TreeLengths(g, crc, disk, mp, T, dirty);
    NodeReplaced(g, crc, disk, disk, mp, T, dirty, w, w', mapPhys, id, n, []);
  }

  // Fill a free record.
  ghost method Born(fs: Gfs, id: nat, n: DNode)
    requires fs.Work() && 0 < id < fs.g.nodeCount && fs.T.nodes[id].typ == TFree && Bare(n) && n.typ != TFree
    modifies fs`T, fs`dirty
    ensures fs.Work() && fs.dirty == old(fs.dirty) + {id}
    ensures fs.T.nodes == old(fs.T.nodes)[id := n] && fs.T.chains == old(fs.T.chains)[id := []]
    ensures fs.Now() == old(fs.Now())[id := ViewNode(fs.disk, n, [])]
  {
    hide Image, View, Replay, Traced, RecOk, TableOk, OwnerOk, UsedOk, ViewNode, Reown, BlocksOf;
    ImageFacts(fs.crc, fs.disk, fs.live);
    assert NodeOk(fs.g, fs.crc, fs.disk, fs.T, id);
    NoBlocks(fs.T.nodes[id]);
    NodeBared(fs.g, fs.crc, fs.disk, fs.mp, fs.T, fs.dirty, fs.working, fs.working, fs.nodemap.phys, id, n);
    fs.T := SetNode(fs.T, id, n, []);
    fs.dirty := fs.dirty + {id};
  }

  // ---- node_find_free ----------------------------------------------------------------------------

  lemma ViewFree(g: Geo, disk: Disk, T: Tree, id: nat)
    requires id < g.nodeCount <= |T.nodes| && |T.chains| == |T.nodes|
    ensures View(g, disk, T)[id] == ViewNode(disk, T.nodes[id], T.chains[id])
    ensures View(g, disk, T)[id].Free? <==> T.nodes[id].typ == TFree
    ensures View(g, disk, T)[id].Dir? <==> T.nodes[id].typ == TNamespace
    ensures View(g, disk, T)[id].File? <==> T.nodes[id].typ == TData
  {
    hide EntryMap, Edges, Content;
  }

  lemma {:induction false} FirstFreeIs(fs: Fs, from: nat, id: nat)
    requires from <= id <= |fs| && (id < |fs| ==> fs[id].Free?) && forall j :: from <= j < id ==> !fs[j].Free?
    ensures FirstFree(fs, from) == id
    decreases id - from
  {
    if from < id { FirstFreeIs(fs, from + 1, id); }
  }

  method FindFree(fs: Gfs) returns (rc: Err, id: nat)
    requires fs.Work() && fs.dirty == {}
    modifies fs`faults
    ensures fs.Steady(old(fs.faults))
    ensures rc == OK ==> 0 < id < fs.g.nodeCount && id == FirstFree(fs.Now(), 1) && fs.T.nodes[id].typ == TFree
    ensures rc == ENOSPC ==> FirstFree(fs.Now(), 1) == fs.g.nodeCount
    ensures rc != OK && rc != ENOSPC ==> rc == EIO && fs.faults > old(fs.faults)
  {
    hide Image, View, Replay, Traced, OwnerOk, NodeOk, UsedOk, FirstFree;
    ImageFacts(fs.crc, fs.disk, fs.live);
    id := 0;
    var bi := 0;
    while bi * NODES_PER_BLOCK < fs.g.nodeCount && id == 0
      invariant bi <= MAP_SLOTS && fs.Steady(old(fs.faults))
      invariant forall j: nat :: 0 < j < bi * NODES_PER_BLOCK && j < fs.g.nodeCount && (id == 0 || j < id) ==>
        fs.T.nodes[j].typ != TFree
      invariant id != 0 ==> id < fs.g.nodeCount && id < bi * NODES_PER_BLOCK && fs.T.nodes[id].typ == TFree
      decreases MAP_SLOTS - bi
    {
      var bp := fs.mp[bi];
      assert TableOk(fs.crc, fs.disk, fs.mp, fs.T, bi);
      assert forall j: nat :: j < MAX_NODES ==> RecOk(fs.disk, fs.mp, fs.T, fs.dirty, j);
      if bp.phys == 0 {
        var first := bi * NODES_PER_BLOCK;
        id := if first == 0 then 1 else first;
        assert RecordAt(fs.disk, fs.mp, id) == ZERO_NODE;
        assert RecOk(fs.disk, fs.mp, fs.T, fs.dirty, id);
      } else {
        OwnedInRange(fs.g, fs.crc, fs.disk, fs.mp, fs.T, fs.dirty, bp.phys);
        var b;
        rc, b := fs.ReadMeta(bp);
        if rc != OK { return; }
        var k := 0;
        while k < NODES_PER_BLOCK && id == 0
          invariant 0 <= k <= NODES_PER_BLOCK
          invariant forall j: nat ::
            bi * NODES_PER_BLOCK <= j < bi * NODES_PER_BLOCK + k && 0 < j < fs.g.nodeCount && (id == 0 || j < id) ==>
            fs.T.nodes[j].typ != TFree
          invariant id != 0 ==>
            bi * NODES_PER_BLOCK <= id < bi * NODES_PER_BLOCK + k && id < fs.g.nodeCount && fs.T.nodes[id].typ == TFree
        {
          var cand := bi * NODES_PER_BLOCK + k;
          if cand != 0 && cand < fs.g.nodeCount {
            assert RecOk(fs.disk, fs.mp, fs.T, fs.dirty, cand);
            if b.recs[k].typ == TFree { id := cand; }
          }
          k := k + 1;
        }
      }
      bi := bi + 1;
    }
    forall j: nat | j < fs.g.nodeCount ensures fs.Now()[j].Free? <==> fs.T.nodes[j].typ == TFree {
      ViewFree(fs.g, fs.disk, fs.T, j);
    }
    if id == 0 {
      FirstFreeIs(fs.Now(), 1, fs.g.nodeCount);
      return ENOSPC, id;
    }
    FirstFreeIs(fs.Now(), 1, id);
    rc := OK;
  }

  // ---- freeing a node's blocks -----------------------------------------------------------------------

  // Give back every block of an edge chain.
  method ChainFree(fs: Gfs, ghost chain: seq<nat>, start: Bp) returns (rc: Err)
    requires fs.g.total <= |fs.disk| && ChainOk(fs.crc, fs.disk, start, chain) && |fs.working| == fs.g.total
    requires forall i :: 0 <= i < |chain| ==> chain[i] < fs.g.total
    modifies fs`working, fs`faults
    ensures fs.Steady(old(fs.faults)) && |fs.working| == old(|fs.working|)
    ensures rc == OK ==> BitsMoved(old(fs.working), fs.working, ChainSet(chain), {})
    ensures rc != OK ==> rc == EIO && fs.faults > old(fs.faults)
  {
    hide ChainOk, HeadOf, Edges;
    var head := start;
    ghost var k: nat := |chain|;
    assert chain[..k] == chain;
    HeadFacts(fs.crc, fs.disk, head, chain);
    ChainDistinct(fs.crc, fs.disk, head, chain);
    while head.phys != 0
      invariant k <= |chain| && head == HeadOf(fs.crc, fs.disk, chain[..k])
      invariant fs.Steady(old(fs.faults))
      invariant BitsMoved(old(fs.working), fs.working, ChainSet(chain[k..]), {})
      decreases k
    {
      WalkStep(fs.crc, fs.disk, start, chain, k, head);
      var b;
      rc, b := fs.ReadMeta(head);
      if rc != OK { return; }
      assert chain[k - 1..] == [chain[k - 1]] + chain[k..];
      fs.FreeBlock(head.phys);
      head := b.next;
      k := k - 1;
    }
    WalkEnd(fs.crc, fs.disk, start, chain, k);
    assert chain[0..] == chain;
    rc := OK;
  }

  lemma NodeBlocksInRange(g: Geo, crc: Crc, disk: Disk, mp: seq<Bp>, T: Tree, dirty: set<nat>, id: nat)
    requires TreeOk(g, crc, disk, mp, T, dirty) && id < MAX_NODES
    ensures forall b :: b in BlocksOf(T.nodes[id], T.chains[id]) ==> g.DataFirst() <= b < g.total
    ensures NodeWf(g, crc, disk, T.nodes[id], T.chains[id]) && ChainOk(crc, disk, T.nodes[id].edgeHead, T.chains[id])
    ensures forall i :: 0 <= i < |T.chains[id]| ==> T.chains[id][i] < g.total
    ensures forall k :: 0 <= k < |T.nodes[id].ext| ==>
      0 < T.nodes[id].ext[k].phys && T.nodes[id].ext[k].phys + T.nodes[id].ext[k].len <= g.total
    ensures forall b: nat :: Listed(T.nodes[id].ext, |T.nodes[id].ext|, b) <==> b in DataSet(T.nodes[id].ext)
  {
    hide RecOk, TableOk, OwnerOk, Edges, EntryMap, Bmap;
    var n := T.nodes[id];
    assert NodeOk(g, crc, disk, T, id);
    forall b | b in BlocksOf(n, T.chains[id]) ensures g.DataFirst() <= b < g.total {
      assert Owned(T, b, ONode(id));
      OwnedInRange(g, crc, disk, mp, T, dirty, b);
    }
    assert forall i :: 0 <= i < |T.chains[id]| ==> T.chains[id][i] in BlocksOf(n, T.chains[id]);
    if n.typ == TData {
      forall b: nat ensures Listed(n.ext, |n.ext|, b) <==> b in DataSet(n.ext) { ExtBlocks(g, n.ext, n.size, b); }
      forall k | 0 <= k < |n.ext| ensures 0 < n.ext[k].phys && n.ext[k].phys + n.ext[k].len <= g.total {
        var last := n.ext[k].phys + n.ext[k].len - 1;
        assert InRun(n.ext[k], last);
        assert Listed(n.ext, |n.ext|, last);
        assert last in BlocksOf(n, T.chains[id]);
      }
    } else {
      NoData(n.ext);
    }
  }

  lemma NoData(ext: seq<Extent>)
    requires ext == []
    ensures DataSet(ext) == {}
  {}

  // Reclaim a node whose last name has gone: its data extents and any edge blocks.
  method FreeNode(fs: Gfs, ghost id: nat, t: DNode) returns (rc: Err)
    requires fs.Work() && 0 < id < fs.g.nodeCount && fs.T.nodes[id] == t && t.typ != TFree
    modifies fs`working, fs`faults, fs`T, fs`dirty
    ensures fs.Steady(old(fs.faults)) && fs.Safe()
    ensures rc == OK ==>
      && fs.Work() && fs.T.nodes == old(fs.T.nodes)[id := ZERO_NODE] && fs.T.chains == old(fs.T.chains)[id := []]
      && fs.dirty == old(fs.dirty) + {id} && fs.Now() == old(fs.Now())[id := Free]
      && |fs.Avail()| >= old(|fs.Avail()|)
    ensures rc != OK ==> rc == EIO && fs.faults > old(fs.faults)
  {
    hide Image, View, Replay, Traced, RecOk, TableOk, OwnerOk, NodeOk, UsedOk, Reown, Edges, EntryMap, NodeWf, ChainOk,
      Listed,
      DataSet, BlocksOf, ChainSet, BitsMoved, FreeSet;
    ImageFacts(fs.crc, fs.disk, fs.live);
    NodeBlocksInRange(fs.g, fs.crc, fs.disk, fs.mp, fs.T, fs.dirty, id);
    FreeExtents(fs, t.ext);
    ghost var w1 := fs.working;
    rc := ChainFree(fs, fs.T.chains[id], t.edgeHead);
    if rc != OK { return; }
    FreedBits(old(fs.working), w1, fs.working, t, fs.T.chains[id]);
    BareWf(fs.g, fs.crc, fs.disk, ZERO_NODE);
    NodeBared(fs.g, fs.crc, fs.disk, fs.mp, fs.T, fs.dirty, old(fs.working), fs.working, fs.nodemap.phys, id,
      ZERO_NODE);
    fs.T := SetNode(fs.T, id, ZERO_NODE, []);
    fs.dirty := fs.dirty + {id};
    FreedMore(fs.g, fs.committed, old(fs.working), fs.working, BlocksOf(t, old(fs.T.chains[id])));
  }

  lemma FreedBits(w0: seq<bool>, w1: seq<bool>, w2: seq<bool>, n: DNode, chain: seq<nat>)
    requires |w1| == |w0| && forall b: nat :: b < |w0| ==> (w1[b] <==> w0[b] && !Listed(n.ext, |n.ext|, b))
    requires forall b: nat :: Listed(n.ext, |n.ext|, b) <==> b in DataSet(n.ext)
    requires BitsMoved(w1, w2, ChainSet(chain), {})
    ensures BitsMoved(w0, w2, BlocksOf(n, chain), {})
  {
    hide Listed, DataSet, ChainSet;
  }

  lemma FreedMore(g: Geo, committed: seq<bool>, w: seq<bool>, w': seq<bool>, gone: set<nat>)
    requires BitsMoved(w, w', gone, {})
    ensures |FreeSet(g, committed, w')| >= |FreeSet(g, committed, w)|
  {
    Counting.SubsetCount(FreeSet(g, committed, w), FreeSet(g, committed, w'));
  }
}
