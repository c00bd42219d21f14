// How the working tree of a transaction changes.
module GfsUpdate {
  import opened GfsTypes
  import opened GfsDisk
  import opened GfsFrame

  // ---- node_write: a table block is rewritten elsewhere -------------------------------------

  // Table contents after storing the in-memory record of node id.
  function NewTable(disk: Disk, mp: seq<Bp>, id: nat, n: DNode): (t: seq<DNode>)
    requires id < MAX_NODES && |mp| == MAP_SLOTS
    ensures |t| == NODES_PER_BLOCK
  {
    var p := mp[id / NODES_PER_BLOCK].phys;
    var former := if p != 0 && p < |disk| && disk[p].TableB? && |disk[p].recs| == NODES_PER_BLOCK
                then disk[p].recs else seq(NODES_PER_BLOCK, i => ZERO_NODE);
    former[id % NODES_PER_BLOCK := n]
  }

  ghost function MoveTable(owner: map<nat, Owner>, former: nat, latter: nat, bi: nat): map<nat, Owner> {
    (owner - {former})[latter := OTable(bi)]
  }

  ghost predicate Ownerless(g: Geo, T: Tree, b: nat) {
    g.DataFirst() <= b < g.total && b !in T.owner
  }

  // The record just stored is clean exactly when it is the record the tree holds.
  ghost function WrittenBack(T: Tree, dirty: set<nat>, id: nat, n: DNode): set<nat> {
    if id < |T.nodes| && n == T.nodes[id] then dirty - {id} else dirty + {id}
  }

  lemma TableMoved(g: Geo, crc: Crc, disk: Disk, mp: seq<Bp>, T: Tree, dirty: set<nat>, id: nat, n: DNode, phys: nat)
    requires TreeOk(g, crc, disk, mp, T, dirty) && id < g.nodeCount <= MAX_NODES && Ownerless(g, T, phys)
    ensures
      var bi := id / NODES_PER_BLOCK;
      var disk' := disk[phys := TableB(NewTable(disk, mp, id, n))];
      var mp' := mp[bi := PtrTo(crc, disk', phys)];
      var T' := T.(owner := MoveTable(T.owner, mp[bi].phys, phys, bi));
      && TreeOk(g, crc, disk', mp', T', WrittenBack(T, dirty, id, n))
      && View(g, disk', T') == View(g, disk, T)
  {
    var bi := id / NODES_PER_BLOCK;
    var disk' := disk[phys := TableB(NewTable(disk, mp, id, n))];
    var mp' := mp[bi := PtrTo(crc, disk', phys)];
    var T' := T.(owner := MoveTable(T.owner, mp[bi].phys, phys, bi));
    var former := mp[bi].phys;
    assert TableOk(crc, disk, mp, T, bi);
    TreeFrame(g, crc, disk, disk', mp, T, dirty);
    assert phys > 0;
    forall bj: nat | bj < MAP_SLOTS ensures TableOk(crc, disk', mp', T', bj) {
      assert TableOk(crc, disk', mp, T, bj);
    }
    forall i: nat | i < MAX_NODES ensures RecOk(disk', mp', T', WrittenBack(T, dirty, id, n), i) {
      assert RecOk(disk', mp, T, dirty, i);
      assert RecOk(disk, mp, T, dirty, i);
      assert TableOk(crc, disk, mp, T, i / NODES_PER_BLOCK);
    }
    forall i: nat | i < MAX_NODES ensures NodeOk(g, crc, disk', T', i) {
      assert NodeOk(g, crc, disk', T, i);
      forall b: nat ensures Owned(T', b, ONode(i)) <==> Owned(T, b, ONode(i)) {
        assert former == 0 && b == 0 && b in T.owner ==> OwnerOk(g, mp, T, b);
      }
    }
    forall b: nat | b in T'.owner ensures OwnerOk(g, mp', T', b) {
      if b != phys {
        assert OwnerOk(g, mp, T, b);
      }
    }
  }

  // ---- a node changes in memory ------------------------------------------------------------------

  ghost function Reown(owner: map<nat, Owner>, id: nat, s: set<nat>): map<nat, Owner> {
    map b | b in owner.Keys + s && (b in s || owner[b] != ONode(id)) :: if b in s then ONode(id) else owner[b]
  }

  ghost function SetNode(T: Tree, id: nat, n: DNode, chain: seq<nat>): Tree
    requires id < |T.nodes| && id < |T.chains|
  {
    Tree(T.nodes[id := n], T.chains[id := chain], Reown(T.owner, id, BlocksOf(n, chain)))
  }

  // Blocks owned by anything but node id.
  ghost function Others(T: Tree, id: nat): set<nat> {
    set b | b in T.owner && T.owner[b] != ONode(id)
  }

  // What a change of node id must respect: the blocks of everything else stay, and the new
  // record's blocks are nobody else's.
  ghost predicate NodeChange(g: Geo, crc: Crc, disk: Disk, disk': Disk, T: Tree, id: nat, n: DNode, chain: seq<nat>) {
    && 0 < id < g.nodeCount <= MAX_NODES
    && Agree(disk, disk', Others(T, id))
    && NodeWf(g, crc, disk', n, chain)
    && forall b :: b in BlocksOf(n, chain) ==> g.DataFirst() <= b < g.total && b !in Others(T, id)
  }

  lemma OtherNodeKept(g: Geo, crc: Crc, disk: Disk, disk': Disk, T: Tree, id: nat, n: DNode, chain: seq<nat>, i: nat)
    requires NodeChange(g, crc, disk, disk', T, id, n, chain) && NodeOk(g, crc, disk, T, i) && i != id
    requires id < |T.nodes| && id < |T.chains|
    ensures NodeOk(g, crc, disk', SetNode(T, id, n, chain), i)
    ensures ViewNode(disk', T.nodes[i], T.chains[i]) == ViewNode(disk, T.nodes[i], T.chains[i])
  {
    var T' := SetNode(T, id, n, chain);
    forall b: nat ensures Owned(T', b, ONode(i)) <==> Owned(T, b, ONode(i)) {
      assert Owned(T, b, ONode(i)) ==> b in Others(T, id);
    }
    assert forall b :: b in BlocksOf(T.nodes[i], T.chains[i]) ==> Owned(T, b, ONode(i));
    NodeFrame(g, crc, disk, disk', T.nodes[i], T.chains[i]);
  }

  lemma ChangedNodeOk(g: Geo, crc: Crc, disk: Disk, disk': Disk, T: Tree, id: nat, n: DNode, chain: seq<nat>)
    requires NodeChange(g, crc, disk, disk', T, id, n, chain) && id < |T.nodes| && id < |T.chains|
    ensures NodeOk(g, crc, disk', SetNode(T, id, n, chain), id)
    ensures SetNode(T, id, n, chain).owner.Keys == Others(T, id) + BlocksOf(n, chain)
  {}

  lemma TablesKept(g: Geo, crc: Crc, disk: Disk, disk': Disk, mp: seq<Bp>, T: Tree, dirty: set<nat>,
                   id: nat, n: DNode, chain: seq<nat>)
    requires TreeOk(g, crc, disk, mp, T, dirty) && NodeChange(g, crc, disk, disk', T, id, n, chain)
    ensures var T' := SetNode(T, id, n, chain);
      && (forall bj: nat :: bj < MAP_SLOTS ==> TableOk(crc, disk', mp, T', bj))
      && (forall i: nat :: i < MAX_NODES ==> RecOk(disk', mp, T', dirty + {id}, i))
      && (forall b: nat :: b in T'.owner ==> OwnerOk(g, mp, T', b))
  {
    var T' := SetNode(T, id, n, chain);
    forall bj: nat | bj < MAP_SLOTS ensures TableOk(crc, disk', mp, T', bj) {
      assert TableOk(crc, disk, mp, T, bj);
      assert mp[bj].phys != 0 ==> mp[bj].phys in Others(T, id);
    }
    forall i: nat | i < MAX_NODES ensures RecOk(disk', mp, T', dirty + {id}, i) {
      assert RecOk(disk, mp, T, dirty, i);
      var bj := i / NODES_PER_BLOCK;
      assert TableOk(crc, disk, mp, T, bj);
      assert mp[bj].phys != 0 ==> mp[bj].phys in Others(T, id);
    }
    forall b: nat | b in T'.owner ensures OwnerOk(g, mp, T', b) {
      if b !in BlocksOf(n, chain) { assert OwnerOk(g, mp, T, b); }
    }
  }

  lemma NodeChanged(g: Geo, crc: Crc, disk: Disk, disk': Disk, mp: seq<Bp>, T: Tree, dirty: set<nat>,
                    id: nat, n: DNode, chain: seq<nat>)
    requires TreeOk(g, crc, disk, mp, T, dirty) && NodeChange(g, crc, disk, disk', T, id, n, chain)
    ensures
      var T' := SetNode(T, id, n, chain);
      && TreeOk(g, crc, disk', mp, T', dirty + {id})
      && View(g, disk', T') == View(g, disk, T)[id := ViewNode(disk', n, chain)]
      && T'.owner.Keys == Others(T, id) + BlocksOf(n, chain)
  {
    var T' := SetNode(T, id, n, chain);
    TablesKept(g, crc, disk, disk', mp, T, dirty, id, n, chain);
    ChangedNodeOk(g, crc, disk, disk', T, id, n, chain);
    forall i: nat | i < MAX_NODES
      ensures NodeOk(g, crc, disk', T', i)
      ensures i != id ==> ViewNode(disk', T'.nodes[i], T'.chains[i]) == ViewNode(disk, T.nodes[i], T.chains[i])
    {
      assert NodeOk(g, crc, disk, T, i);
      if i != id { OtherNodeKept(g, crc, disk, disk', T, id, n, chain, i); }
    }
  }

  // ---- the working bitmap follows ------------------------------------------------------------------

  ghost predicate BitsMoved(w: seq<bool>, w': seq<bool>, gone: set<nat>, come: set<nat>) {
    |w'| == |w| && forall b :: 0 <= b < |w| ==> (w'[b] <==> (w[b] && b !in gone) || b in come)
  }

  lemma OthersAreRest(g: Geo, crc: Crc, disk: Disk, T: Tree, id: nat)
    requires NodeOk(g, crc, disk, T, id)
    ensures Others(T, id) == T.owner.Keys - BlocksOf(T.nodes[id], T.chains[id])
  {
    forall b: nat ensures b in Others(T, id) <==> b in T.owner.Keys - BlocksOf(T.nodes[id], T.chains[id]) {
      assert Owned(T, b, ONode(id)) <==> b in BlocksOf(T.nodes[id], T.chains[id]);
    }
  }

  // Replacing a node's record, its blocks and the bitmap together keeps the working state sound.
  lemma NodeReplaced(g: Geo, crc: Crc, disk: Disk, disk': Disk, mp: seq<Bp>, T: Tree, dirty: set<nat>,
                     w: seq<bool>, w': seq<bool>, mapPhys: nat, id: nat, n: DNode, chain: seq<nat>)
    requires TreeOk(g, crc, disk, mp, T, dirty) && UsedOk(g, w, mapPhys, T.owner)
    requires NodeChange(g, crc, disk, disk', T, id, n, chain) && mapPhys !in BlocksOf(n, chain)
    requires BitsMoved(w, w', BlocksOf(T.nodes[id], T.chains[id]), BlocksOf(n, chain))
    ensures
      var T' := SetNode(T, id, n, chain);
      && TreeOk(g, crc, disk', mp, T', dirty + {id})
      && UsedOk(g, w', mapPhys, T'.owner)
      && View(g, disk', T') == View(g, disk, T)[id := ViewNode(disk', n, chain)]
  {
    hide View, NodeWf, SetNode, TableOk, RecOk, OwnerOk;
    NodeChanged(g, crc, disk, disk', mp, T, dirty, id, n, chain);
    assert NodeOk(g, crc, disk, T, id);
    OthersAreRest(g, crc, disk, T, id);
    forall b: nat | b in BlocksOf(T.nodes[id], T.chains[id]) ensures g.DataFirst() <= b && b in T.owner {
      assert Owned(T, b, ONode(id));
      OwnedInRange(g, crc, disk, mp, T, dirty, b);
    }
  }

  // Changing only scalar fields of a record moves no block.
  lemma NodeTouched(g: Geo, crc: Crc, disk: Disk, mp: seq<Bp>, T: Tree, dirty: set<nat>, w: seq<bool>, mapPhys: nat,
                    id: nat, n: DNode)
    requires TreeOk(g, crc, disk, mp, T, dirty) && UsedOk(g, w, mapPhys, T.owner) && 0 < id < g.nodeCount <= MAX_NODES
    requires n.typ == T.nodes[id].typ && n.typ != TFree && n.edgeHead == T.nodes[id].edgeHead
      && n.ext == T.nodes[id].ext
    requires n.edgeCount == T.nodes[id].edgeCount && n.size == T.nodes[id].size && (n.typ == TData ==> n.parent == 0)
    ensures
      var T' := SetNode(T, id, n, T.chains[id]);
      && TreeOk(g, crc, disk, mp, T', dirty + {id})
      && UsedOk(g, w, mapPhys, T'.owner)
      && View(g, disk, T') == View(g, disk, T)[id := ViewNode(disk, n, T.chains[id])]
  {
    hide View, SetNode, TableOk, RecOk, OwnerOk;
    assert NodeOk(g, crc, disk, T, id);
    forall b: nat | b in BlocksOf(n, T.chains[id])
      ensures g.DataFirst() <= b < g.total && b !in Others(T, id) && b in T.owner && w[b]
    {
      assert Owned(T, b, ONode(id));
      OwnedInRange(g, crc, disk, mp, T, dirty, b);
    }
    NodeReplaced(g, crc, disk, disk, mp, T, dirty, w, w, mapPhys, id, n, T.chains[id]);
  }
}
