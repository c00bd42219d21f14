// Frame lemmas: a tree, and the filesystem read off it, depend only on the blocks it owns.
module GfsFrame {
  import opened GfsTypes
  import opened GfsDisk

  ghost predicate Agree(disk: Disk, disk': Disk, s: set<nat>) {
    |disk'| == |disk| && forall b :: b in s && b < |disk| ==> disk'[b] == disk[b]
  }

  lemma {:induction false} EdgesFrame(disk: Disk, disk': Disk, chain: seq<nat>)
    requires Agree(disk, disk', ChainSet(chain))
    ensures Edges(disk', chain) == Edges(disk, chain)
    decreases |chain|
  {
    if chain != [] {
      var rest := chain[..|chain| - 1];
      assert ChainSet(rest) <= ChainSet(chain);
      assert chain[|chain| - 1] in ChainSet(chain);
      EdgesFrame(disk, disk', rest);
    }
  }

  lemma ChainFrame(crc: Crc, disk: Disk, disk': Disk, head: Bp, chain: seq<nat>)
    requires ChainOk(crc, disk, head, chain) && Agree(disk, disk', ChainSet(chain))
    ensures ChainOk(crc, disk', head, chain)
  {
    assert forall i :: 0 <= i < |chain| ==> chain[i] in ChainSet(chain);
    forall i: nat | i < |chain| ensures EdgeBlockOk(crc, disk', chain, i) {
      assert EdgeBlockOk(crc, disk, chain, i);
      if i > 0 { assert EdgeBlockOk(crc, disk, chain, i - 1); }
    }
    if chain != [] { assert EdgeBlockOk(crc, disk, chain, |chain| - 1); }
  }

  // Dropping the head block leaves a chain.
  lemma ChainTail(crc: Crc, disk: Disk, head: Bp, c: seq<nat>)
    requires ChainOk(crc, disk, head, c) && c != []
    ensures c[|c| - 1] == head.phys && head.phys < |disk| && disk[head.phys].EdgeB?
    ensures ChainOk(crc, disk, disk[head.phys].next, c[..|c| - 1])
  {
    var k := |c| - 1;
    assert EdgeBlockOk(crc, disk, c, k);
    forall i: nat | i < k ensures EdgeBlockOk(crc, disk, c[..k], i) {
      assert EdgeBlockOk(crc, disk, c, i);
      assert c[..k][..i] == c[..i];
    }
  }

  // Putting a block in front of a chain makes a longer chain.
  lemma ChainPush(crc: Crc, disk: Disk, c: seq<nat>, head: Bp, phys: nat, es: seq<Edge>)
    requires ChainOk(crc, disk, head, c) && phys !in c && 0 < phys < |disk| && 0 < |es| <= EDGES_PER_BLOCK
    ensures var disk' := disk[phys := EdgeB(es, head)];
      && ChainOk(crc, disk', PtrTo(crc, disk', phys), c + [phys])
      && Edges(disk', c + [phys]) == es + Edges(disk, c)
  {
    var disk' := disk[phys := EdgeB(es, head)];
    var c' := c + [phys];
    ChainFrame(crc, disk, disk', head, c);
    EdgesFrame(disk, disk', c);
    assert c'[..|c|] == c;
    forall i: nat | i < |c'| ensures EdgeBlockOk(crc, disk', c', i) {
      if i < |c| {
        assert EdgeBlockOk(crc, disk', c, i);
        assert c'[..i] == c[..i];
      }
    }
  }

  lemma {:induction false} BmapInside(ext: seq<Extent>, n: nat, l: nat)
    requires forall i :: 0 <= i < |ext| ==> ext[i].logical + ext[i].len <= n
    ensures Bmap(ext, l) != 0 ==> l < n
  {
    if |ext| != 0 { BmapInside(ext[1..], n, l); }
  }

  lemma BmapInSet(g: Geo, ext: seq<Extent>, size: nat, l: nat)
    requires ExtOk(g, ext, size)
    ensures Bmap(ext, l) != 0 ==> l < Nblocks(size) <= MAX_FILE_BLOCKS && Bmap(ext, l) in DataSet(ext)
  {
    BmapInside(ext, Nblocks(size), l);
  }

  lemma ContentFrame(disk: Disk, disk': Disk, ext: seq<Extent>, size: nat)
    requires |disk'| == |disk|
    requires forall l: nat :: Bmap(ext, l) != 0 && Bmap(ext, l) < |disk| ==> disk'[Bmap(ext, l)] == disk[Bmap(ext, l)]
    ensures Content(disk', ext, size) == Content(disk, ext, size)
  {
    forall i: nat | i < size ensures ByteAt(disk', ext, i) == ByteAt(disk, ext, i) {
      var p := Bmap(ext, i / BLOCK);
    }
  }

  lemma NodeFrame(g: Geo, crc: Crc, disk: Disk, disk': Disk, n: DNode, chain: seq<nat>)
    requires NodeWf(g, crc, disk, n, chain) && Agree(disk, disk', BlocksOf(n, chain))
    ensures NodeWf(g, crc, disk', n, chain)
    ensures ViewNode(disk', n, chain) == ViewNode(disk, n, chain)
  {
    assert Agree(disk, disk', ChainSet(chain));
    match n.typ
    case TFree =>
    case TNamespace =>
      ChainFrame(crc, disk, disk', n.edgeHead, chain);
      EdgesFrame(disk, disk', chain);
    case TData =>
      forall l: nat | Bmap(n.ext, l) != 0 ensures Bmap(n.ext, l) in BlocksOf(n, chain) {
        BmapInSet(g, n.ext, n.size, l);
      }
      ContentFrame(disk, disk', n.ext, n.size);
  }

  lemma TreeFrame(g: Geo, crc: Crc, disk: Disk, disk': Disk, mp: seq<Bp>, T: Tree, dirty: set<nat>)
    requires TreeOk(g, crc, disk, mp, T, dirty) && Agree(disk, disk', T.owner.Keys)
    ensures TreeOk(g, crc, disk', mp, T, dirty)
    ensures View(g, disk', T) == View(g, disk, T)
  {
    forall bi: nat | bi < MAP_SLOTS ensures TableOk(crc, disk', mp, T, bi) {
      assert TableOk(crc, disk, mp, T, bi);
    }
    forall id: nat | id < MAX_NODES ensures RecOk(disk', mp, T, dirty, id) {
      assert TableOk(crc, disk, mp, T, id / NODES_PER_BLOCK);
      assert RecOk(disk, mp, T, dirty, id);
    }
    forall id: nat | id < MAX_NODES
      ensures NodeOk(g, crc, disk', T, id)
      ensures ViewNode(disk', T.nodes[id], T.chains[id]) == ViewNode(disk, T.nodes[id], T.chains[id])
    {
      assert NodeOk(g, crc, disk, T, id);
      assert forall b :: b in BlocksOf(T.nodes[id], T.chains[id]) ==> Owned(T, b, ONode(id));
      NodeFrame(g, crc, disk, disk', T.nodes[id], T.chains[id]);
    }
  }

  // Every owned block is a real, allocatable block.
  lemma OwnedInRange(g: Geo, crc: Crc, disk: Disk, mp: seq<Bp>, T: Tree, dirty: set<nat>, b: nat)
    requires TreeOk(g, crc, disk, mp, T, dirty) && b in T.owner
    ensures g.DataFirst() <= b < g.total <= |disk|
  {
    assert OwnerOk(g, mp, T, b);
  }

  // ---- writes that cannot disturb a committed image --------------------------------------------

  ghost predicate Harmless(L: Live, lba: nat) {
    || (L.g.DataFirst() <= lba < |L.bm| && !L.bm[lba])
    || (BmAddr(L.g, 1 - L.gen % 2, 0) <= lba < BmAddr(L.g, 1 - L.gen % 2, L.g.bmBlocks))
  }

  lemma ImageFrame(crc: Crc, disk: Disk, L: Live, lba: nat, b: Block)
    requires Image(crc, disk, L) && Harmless(L, lba) && lba < |disk|
    ensures Image(crc, disk[lba := b], L)
    ensures View(L.g, disk[lba := b], L.T) == View(L.g, disk, L.T)
  {
    var disk' := disk[lba := b];
    forall k: nat | k in L.T.owner ensures k != lba {
      OwnedInRange(L.g, crc, disk, L.mp, L.T, {}, k);
    }
    TreeFrame(L.g, crc, disk, disk', L.mp, L.T, {});
    BitmapFrame(L, disk, disk', lba);
  }

  lemma BitmapFrame(L: Live, disk: Disk, disk': Disk, lba: nat)
    requires L.g.Ok() && BitmapAt(L.g, disk, L.gen % 2, L.bm) && Harmless(L, lba) && lba < |disk|
    requires |disk'| == |disk| && forall k :: 0 <= k < |disk| && k != lba ==> disk'[k] == disk[k]
    ensures BitmapAt(L.g, disk', L.gen % 2, L.bm) && lba >= 2
    ensures UsedOk(L.g, L.bm, L.nodemap.phys, L.T.owner) ==> lba != L.nodemap.phys || lba < L.g.DataFirst()
  {
    forall j: nat | j < L.g.bmBlocks
      ensures BmAddr(L.g, L.gen % 2, j) < |disk'| && disk'[BmAddr(L.g, L.gen % 2, j)] == BitmapB(Chunk(L.bm, j))
    {
      assert BmAddr(L.g, L.gen % 2, j) != lba;
    }
  }

  // A superblock write that tears, or never becomes the newest, leaves the image as it was.
  lemma TornPublish(crc: Crc, disk: Disk, L: Live, b: Block)
    requires Image(crc, disk, L) && !SbValid(crc, b)
    ensures Image(crc, disk[1 - L.gen % 2 := b], L)
    ensures View(L.g, disk[1 - L.gen % 2 := b], L.T) == View(L.g, disk, L.T)
  {
    var disk' := disk[1 - L.gen % 2 := b];
    forall k: nat | k in L.T.owner ensures k >= 2 {
      OwnedInRange(L.g, crc, disk, L.mp, L.T, {}, k);
    }
    TreeFrame(L.g, crc, disk, disk', L.mp, L.T, {});
    forall j: nat | j < L.g.bmBlocks ensures disk'[BmAddr(L.g, L.gen % 2, j)] == BitmapB(Chunk(L.bm, j)) {
      assert BmAddr(L.g, L.gen % 2, j) >= 2;
    }
  }
}
