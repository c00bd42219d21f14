// A disk on which the checker finds nothing although its namespace is no tree: directories 2 and 3 name each other and
// nothing leads to them.
module GfsFsckLimit {
  import opened GfsTypes
  import opened Namespace
  import opened GfsDisk
  import opened GfsCore
  import opened GfsMount
  import opened GfsFsck

  // A directory whose only name sits in its only edge block.
  function OnePage(name: Name, target: nat): Block { EdgeB([Edge(name, target)], NULL_BP) }

  function CycleNode(crc: Crc, parent: nat, at: nat, name: Name): DNode {
    DNode(TNamespace, 0, 0, 1, 1, parent, Bp(at, crc(OnePage(name, parent))), [])
  }

  function CycleRecord(crc: Crc, at: nat, id: nat): DNode {
    if id == ROOT then RootNode(0)
    else if id == 2 then CycleNode(crc, 3, at + 2, "b")
    else if id == 3 then CycleNode(crc, 2, at + 3, "a")
    else ZERO_NODE
  }

  function CycleTable(crc: Crc, at: nat): (t: seq<DNode>)
    ensures |t| == NODES_PER_BLOCK
  {
    seq(NODES_PER_BLOCK, i requires 0 <= i => CycleRecord(crc, at, i))
  }

  function CycleTree(crc: Crc, at: nat): Tree {
    Tree(seq(MAX_NODES, i requires 0 <= i => CycleRecord(crc, at, i)),
         seq(MAX_NODES, i => if i == 2 then [at + 2] else if i == 3 then [at + 3] else []),
         map[at + 1 := OTable(0), at + 2 := ONode(2), at + 3 := ONode(3)])
  }

  function CycleLive(crc: Crc, g: Geo): Live {
    var at := g.DataFirst();
    var mp := FirstMap(Bp(at + 1, crc(TableB(CycleTable(crc, at)))));
    Live(g, 1, Bp(at, crc(MapB(mp))), FirstBits(g.total, at + 2, at + 2),
         if g.total < at + 4 then 0 else g.total - (at + 4), 0, mp, CycleTree(crc, at))
  }

  ghost predicate Room(g: Geo) { g.Ok() && g.nodeCount == 4 && g.DataFirst() + 4 <= g.total }

  ghost function CycleDisk(crc: Crc, g: Geo): (d: Disk)
    requires Room(g)
    ensures |d| == g.total
  {
    var at, L := g.DataFirst(), CycleLive(crc, g);
    seq(g.total, b requires 0 <= b < g.total =>
      if b == 1 then SbBlock(crc, L)
      else if BM_START + g.bmBlocks <= b < at then BitmapB(Chunk(L.bm, b - BM_START - g.bmBlocks))
      else if b == at then MapB(L.mp) else if b == at + 1 then TableB(CycleTable(crc, at))
      else if b == at + 2 then OnePage("b", 3) else if b == at + 3 then OnePage("a", 2) else Junk)
  }

  lemma OnePageChain(crc: Crc, disk: Disk, b: nat, name: Name, target: nat)
    requires 0 < b < |disk| && disk[b] == OnePage(name, target)
    ensures ChainOk(crc, disk, Bp(b, crc(OnePage(name, target))), [b]) && Edges(disk, [b]) == [Edge(name, target)]
    ensures EntryMap(Edges(disk, [b])) == map[name := target]
  {
    var c := [b];
    assert c[..0] == [];
    assert Edges(disk, c[..0]) == [];
    forall i: nat | i < |c| ensures EdgeBlockOk(crc, disk, c, i) {}
    assert EntryMap([]) == map[];
    assert [Edge(name, target)][1..] == [];
  }

  lemma CycleNodeOk(crc: Crc, g: Geo, id: nat)
    requires Room(g) && id < MAX_NODES
    ensures NodeOk(g, crc, CycleDisk(crc, g), CycleTree(crc, g.DataFirst()), id)
  {
    hide ChainOk, Edges, CycleTable, FirstMap, FirstBits, SbBlock, Chunk;
    var d, at := CycleDisk(crc, g), g.DataFirst();
    var T := CycleTree(crc, at);
    if id == 2 { OnePageChain(crc, d, at + 2, "b", 3); }
    if id == 3 { OnePageChain(crc, d, at + 3, "a", 2); }
    NoChain(crc, d);
    assert BlocksOf(T.nodes[id], T.chains[id]) == ChainSet(T.chains[id]) by {
      assert T.nodes[id].ext == [];
      assert forall l: nat :: Bmap([], l) == 0;
    }
    forall b: nat ensures Owned(T, b, ONode(id)) <==> b in BlocksOf(T.nodes[id], T.chains[id]) {}
  }

  lemma NoChain(crc: Crc, disk: Disk)
    ensures ChainOk(crc, disk, NULL_BP, []) && Edges(disk, []) == [] && EntryMap([]) == map[]
  {}

  lemma CycleTreeOk(crc: Crc, g: Geo)
    requires Room(g)
    ensures var L := CycleLive(crc, g); TreeOk(g, crc, CycleDisk(crc, g), L.mp, L.T, {})
  {
    hide NodeOk, FirstBits, SbBlock, Chunk, CycleNode;
    var d, L := CycleDisk(crc, g), CycleLive(crc, g);
    forall bi: nat | bi < MAP_SLOTS ensures TableOk(crc, d, L.mp, L.T, bi) {}
    forall id: nat | id < MAX_NODES ensures RecOk(d, L.mp, L.T, {}, id) {}
    forall id: nat | id < MAX_NODES ensures NodeOk(g, crc, d, L.T, id) { CycleNodeOk(crc, g, id); }
    forall b: nat | b in L.T.owner ensures OwnerOk(g, L.mp, L.T, b) {}
  }

  lemma CycleView(crc: Crc, g: Geo)
    requires Room(g)
    ensures View(g, CycleDisk(crc, g), CycleTree(crc, g.DataFirst())) == CYCLE
  {
    hide Edges, EntryMap, CycleTable, FirstMap, FirstBits, SbBlock, Chunk;
    var d, at := CycleDisk(crc, g), g.DataFirst();
    OnePageChain(crc, d, at + 2, "b", 3);
    OnePageChain(crc, d, at + 3, "a", 2);
    NoChain(crc, d);
    var v := View(g, d, CycleTree(crc, at));
    assert v[0] == Free && v[1] == Dir(map[], ROOT, 0, 0);
    assert v[2] == Dir(map["b" := 3], 3, 1, 0) && v[3] == Dir(map["a" := 2], 2, 1, 0);
  }

  lemma NoneFree(nodes: seq<DNode>)
    requires |nodes| >= 4 && nodes[1].typ != TFree && nodes[2].typ != TFree && nodes[3].typ != TFree
    ensures CountFreeNodes(nodes, 4) == 0
  {
    assert CountFreeNodes(nodes, 2) == 0 && CountFreeNodes(nodes, 3) == 0;
  }

  lemma CycleUsed(crc: Crc, g: Geo)
    requires Room(g)
    ensures var L := CycleLive(crc, g); UsedOk(g, L.bm, L.nodemap.phys, L.T.owner)
  {}

  lemma CycleBits(crc: Crc, g: Geo)
    requires Room(g)
    ensures BitmapAt(g, CycleDisk(crc, g), 1, CycleLive(crc, g).bm)
  {
    hide Chunk, CycleTable, FirstMap, FirstBits, SbBlock;
  }

  lemma CycleImage(crc: Crc, g: Geo)
    requires Room(g)
    ensures Image(crc, CycleDisk(crc, g), CycleLive(crc, g))
  {
    hide TreeOk, UsedOk, BitmapAt, Chunk, CycleTable, FirstMap, FirstBits, CountFree, CountFreeNodes, SbSum;
    var d, at, L := CycleDisk(crc, g), g.DataFirst(), CycleLive(crc, g);
    CycleTreeOk(crc, g);
    PrefixFree(g.total, at + 2, at + 2);
    CycleUsed(crc, g);
    CycleBits(crc, g);
    NoneFree(L.T.nodes);
  }

  // Mounted, checked and found clean, with directories that nothing leads to.
  method CleanWithoutTree(sound: bool, crc: Crc, disk: Disk, ghost g: Geo)
    returns (rc: Err, fs: Gfs?, errors: nat)
    requires Room(g) && disk == CycleDisk(crc, g)
    ensures sound ==> rc == OK && errors == 0 && fs != null && fs.Stored() == CYCLE && !TreeInv(fs.Stored())
  {
    hide Image, View, Gfs.Valid, TreeInv, Consistent;
    CycleImage(crc, g);
    CycleView(crc, g);
    DetachedCyclePasses();
    ghost var sb, seen, bad;
    errors := 0;
    rc, fs, sb, seen, bad := Mount(sound, crc, disk, false, false);
    if rc != OK || fs.generation != 1 { return; }
    rc, errors := Fsck(fs);
  }
}
