// The mutating namespace calls: gfs_create_at, gfs_link and gfs_unlink.
module GfsOps {
  import opened GfsTypes
  import opened Namespace
  import opened GfsDisk
  import opened GfsEdgeMap
  import opened GfsCore
  import opened GfsCrash
  import opened GfsEdges
  import opened GfsEdgeRemove
  import opened GfsStage

  // ---- counters --------------------------------------------------------------------------------

  lemma {:induction false} FreeNodesChange(nodes: seq<DNode>, id: nat, n: DNode, cnt: nat)
    requires 0 < id < |nodes| && cnt <= |nodes|
    ensures CountFreeNodes(nodes[id := n], cnt) - CountFreeNodes(nodes, cnt)
         == if id >= cnt then 0 else (if n.typ == TFree then 1 else 0) - (if nodes[id].typ == TFree then 1 else 0)
    decreases cnt
  {
    if cnt > 1 { FreeNodesChange(nodes, id, n, cnt - 1); }
  }

  lemma {:induction false} CountIsSet(bm: seq<bool>)
    ensures CountFree(bm) == |set b: nat | b < |bm| && !bm[b]|
  {
    var s := set b: nat | b < |bm| && !bm[b];
    if |bm| > 0 {
      var k := |bm| - 1;
      var t := set b: nat | b < |bm[..k]| && !bm[..k][b];
      CountIsSet(bm[..k]);
      assert s == t + (if bm[k] then {} else {k});
    } else {
      assert s == {};
    }
  }

  // Between calls the free counter is the number of blocks an allocation can draw from.
  lemma FreeIsAvail(crc: Crc, disk: Disk, L: Live)
    requires Image(crc, disk, L)
    ensures |FreeSet(L.g, L.bm, L.bm)| == L.freeBlocks
  {
    CountIsSet(L.bm);
    assert FreeSet(L.g, L.bm, L.bm) == set b: nat | b < |L.bm| && !L.bm[b];
  }

  // Why a call was refused: the device failed, the mount is read-only, space ran short, or the
  // specification refuses it too, with the same code.
  ghost predicate Refused<T>(rc: Err, spec: Res<T>, faulted: bool, readOnly: bool, short: bool) {
    || (rc == EIO && faulted)
    || (rc == EROFS && readOnly)
    || (rc == ENOSPC && short)
    || (spec.Fail? && rc == spec.e)
  }

  // Start a call: note where the device stands.
  ghost method StartCall(fs: Gfs)
    requires fs.Valid()
    modifies fs`base, fs`log
    ensures fs.Safe() && fs.base == fs.disk && fs.log == []
  {
    hide Image, View;
    fs.base, fs.log := fs.disk, [];
  }

  // A call that issued only harmless writes left the committed tree alone.
  lemma CallUndone(fs: Gfs)
    requires fs.Safe()
    ensures fs.Valid() && Atomic(fs.crc, fs.base, fs.log, fs.live, fs.live) && fs.disk == Replay(fs.base, fs.log)
    ensures fs.Stored() == View(fs.g, fs.base, fs.live.T)
  {
    hide Image, View, Replay, Traced, Published;
  }

  method OpenDir(fs: Gfs, dir: nat) returns (rc: Err, d: DNode)
    requires fs.Loaded() && fs.dirty == {}
    modifies fs`faults
    ensures fs.Steady(old(fs.faults))
    ensures rc == OK ==> InView(fs, dir, d) && fs.Now()[dir] == Dir(EntriesOf(fs, dir), d.parent, d.nlink, d.mode)
    ensures rc == OK || rc == EIO || rc == DirCheck(fs.Now(), dir)
    ensures rc == OK ==> DirCheck(fs.Now(), dir) == OK
    ensures rc == EIO ==> fs.faults > old(fs.faults)
  {
    hide Image, View, Replay, Traced, RecOk, TableOk, OwnerOk, NodeOk, UsedOk, Edges, EntryMap;
    ImageFacts(fs.crc, fs.disk, fs.live);
    rc, d := fs.NodeRead(dir);
    if rc != OK { return; }
    ViewFree(fs.g, fs.disk, fs.T, dir);
    if d.typ != TNamespace { return ENOTDIR, d; }
    NowIsDir(fs, dir, d);
  }

  // ---- create ---------------------------------------------------------------------------------------

  function Record(kind: Kind, mode: nat, dir: nat): DNode {
    match kind
    case KDir => ZERO_NODE.(typ := TNamespace, mode := mode, nlink := 1, parent := dir)
    case KFile => ZERO_NODE.(typ := TData, mode := mode, nlink := 1)
  }

  lemma RecordIsNew(g: Geo, crc: Crc, disk: Disk, kind: Kind, mode: nat, dir: nat)
    ensures Bare(Record(kind, mode, dir)) && ViewNode(disk, Record(kind, mode, dir), []) == NewNode(kind, mode, dir)
  {
    BareWf(g, crc, disk, Record(kind, mode, dir));
  }

  // The node is born linked: record first, then the edge, then the directory.
  method CreateBody(fs: Gfs, dir: nat, d: DNode, name: Name, kind: Kind, mode: nat, id: nat) returns (rc: Err)
    requires InHand(fs, dir, d) && fs.dirty == {} && name !in EntriesOf(fs, dir)
    requires 0 < id < fs.g.nodeCount && fs.T.nodes[id].typ == TFree
    modifies fs`disk, fs`log, fs`faults, fs`working, fs`mp, fs`T, fs`dirty
    ensures fs.Steady(old(fs.faults)) && fs.Safe()
    ensures rc == OK ==>
      && fs.Work() && fs.dirty == {} && |fs.Avail()| >= old(|fs.Avail()|) - 3
      && CountFreeNodes(fs.T.nodes, fs.g.nodeCount) == old(CountFreeNodes(fs.T.nodes, fs.g.nodeCount)) - 1
      && old(fs.Now())[dir].Dir? && dir != id
      && fs.Now() == AddEntry(old(fs.Now())[id := NewNode(kind, mode, dir)], dir, name, id)
    ensures rc != OK ==> (rc == EIO && fs.faults > old(fs.faults)) || (rc == ENOSPC && old(|fs.Avail()|) < 3)
  {
    hide Image, View, Replay, Traced, RecOk, TableOk, OwnerOk, NodeOk, UsedOk, Edges, EntryMap, FreeSet, CountFreeNodes,
      ViewNode, Record, NewNode;
    ImageFacts(fs.crc, fs.disk, fs.live);
    NowIsDir(fs, dir, d);
    var n := Record(kind, mode, dir);
    RecordIsNew(fs.g, fs.crc, fs.disk, kind, mode, dir);
    RecordType(kind, mode, dir);
    FreeNodesChange(fs.T.nodes, id, n, fs.g.nodeCount);
    Born(fs, id, n);
    ghost var nodes1 := fs.T.nodes;
    rc := fs.NodeWrite(id, n);
    if rc != OK { return; }
    NowIsDir(fs, dir, d);
    var d';
    rc, d' := EdgeAdd(fs, dir, d, id, name);
    if rc != OK { return; }
    FreeNodesChange(nodes1, dir, d', fs.g.nodeCount);
    rc := fs.NodeWrite(dir, d');
  }

  lemma RecordType(kind: Kind, mode: nat, dir: nat)
    ensures Record(kind, mode, dir).typ != TFree
  {}

  // gfs_create_at inside its transaction.
  method CreateTxn(fs: Gfs, dir: nat, name: Name, kind: Kind, mode: nat) returns (rc: Err, id: nat)
    requires fs.Work() && fs.dirty == {} && NameCheck(name) == OK
    modifies fs`disk, fs`log, fs`faults, fs`working, fs`mp, fs`T, fs`dirty
    ensures fs.Steady(old(fs.faults)) && fs.Safe() && fs.g.nodeCount >= 2
    ensures rc == OK ==>
      && fs.Work() && fs.dirty == {} && |fs.Avail()| >= old(|fs.Avail()|) - 3
      && CountFreeNodes(fs.T.nodes, fs.g.nodeCount) == old(CountFreeNodes(fs.T.nodes, fs.g.nodeCount)) - 1
      && Create(old(fs.Now()), dir, name, kind, mode) == Ok(Created(fs.Now(), id))
    ensures rc != OK ==>
      Refused(rc, Create(old(fs.Now()), dir, name, kind, mode), fs.faults > old(fs.faults), false,
      old(|fs.Avail()|) < 3)
  {
    hide Image, View, Replay, Traced, RecOk, TableOk, OwnerOk, NodeOk, UsedOk, Edges, EntryMap, FreeSet, CountFreeNodes,
      ViewNode, Record, NewNode, FirstFree, NameCheck, TreeOk;
    ImageFacts(fs.crc, fs.disk, fs.live);
    id := 0;
    var d;
    rc, d := OpenDir(fs, dir);
    if rc != OK { return; }
    var dummy;
    rc, dummy := EdgeLookup(fs, dir, d, name);
    if rc == OK { return EEXIST, id; }
    if rc != ENOENT { return; }
    rc, id := FindFree(fs);
    if rc != OK { return; }
    rc := CreateBody(fs, dir, d, name, kind, mode, id);
  }

  method CreateAt(fs: Gfs, dir: nat, name: Name, kind: Kind, mode: nat) returns (rc: Err, id: nat)
    requires fs.Valid()
    modifies fs
    ensures fs.Valid() && fs.disk == Replay(old(fs.disk), fs.log) && fs.Steady(old(fs.faults))
    ensures Atomic(fs.crc, old(fs.disk), fs.log, old(fs.live), fs.live)
    ensures rc == OK ==> Create(old(fs.Stored()), dir, name, kind, mode) == Ok(Created(fs.Stored(), id))
    ensures rc != OK ==>
      && fs.live == old(fs.live) && fs.Stored() == old(fs.Stored())
      && Refused(rc, Create(old(fs.Stored()), dir, name, kind, mode), fs.faults > old(fs.faults), !fs.writable,
        old(fs.freeBlocks) < 4)
  {
    hide Image, View, Replay, Traced, TreeOk, UsedOk, FreeSet, CountFreeNodes, Published, NameCheck, Create, Atomic;
    ImageFacts(fs.crc, fs.disk, fs.live);
    ImageCounts(fs.crc, fs.disk, fs.live);
    id := 0;
    StartCall(fs);
    CallUndone(fs);
    rc := NameCheck(name);
    if rc != OK {
      CreateBadName(fs.Stored(), dir, name, kind, mode);
      return;
    }
    rc := fs.TxnBegin();
    if rc == OK {
      rc, id := CreateTxn(fs, dir, name, kind, mode);
    }
    if rc == OK {
      rc := fs.TxnCommit(-1);
    }
    if rc != OK { CallUndone(fs); } else { CallDone(fs.crc, fs.base, fs.log, old(fs.live), fs.live); }
  }

  lemma CreateBadName(fs: Fs, dir: nat, name: Name, kind: Kind, mode: nat)
    requires |fs| >= 2 && NameCheck(name) != OK
    ensures Create(fs, dir, name, kind, mode) == Fail(NameCheck(name))
  {}

  lemma CallDone(crc: Crc, base: Disk, log: seq<Write>, L: Live, L': Live)
    requires Published(crc, base, log, L, L')
    ensures Atomic(crc, base, log, L, L')
  {
    hide Published;
  }

  lemma ImageCounts(crc: Crc, disk: Disk, L: Live)
    requires Image(crc, disk, L)
    ensures |FreeSet(L.g, L.bm, L.bm)| == L.freeBlocks && |L.T.nodes| == MAX_NODES
    ensures L.freeNodes == CountFreeNodes(L.T.nodes, L.g.nodeCount) && L.freeBlocks == CountFree(L.bm)
  {
    hide FreeSet, CountFreeNodes, CountFree;
    FreeIsAvail(crc, disk, L);
  }

  // ---- link -------------------------------------------------------------------------------------------

  // The view of a record follows its scalar fields.
  lemma ViewTouched(disk: Disk, n: DNode, chain: seq<nat>, nlink: nat, parent: nat)
    requires n.typ != TFree
    ensures ViewNode(disk, n.(nlink := nlink, parent := parent), chain) ==
      match ViewNode(disk, n, chain)
      case Free => Free
      case Dir(en, p, k, m) => Dir(en, parent, nlink, m)
      case File(c, k, m) => File(c, nlink, m)
  {
    hide Edges, EntryMap, Content;
  }

  function Adopted(t: DNode, dir: nat): DNode {
    t.(nlink := t.nlink + 1, parent := if t.typ == TNamespace then dir else t.parent)
  }

  // Count the new name in the target's record.
  ghost method StageAdopt(fs: Gfs, dir: nat, target: nat, t: DNode)
    requires fs.Work() && 0 < target < fs.g.nodeCount && fs.T.nodes[target] == t && t.typ != TFree
    modifies fs`T, fs`dirty
    ensures fs.Work() && fs.dirty == old(fs.dirty) + {target}
    ensures fs.T.nodes == old(fs.T.nodes)[target := Adopted(t, dir)] && fs.T.chains == old(fs.T.chains)
    ensures !old(fs.Now())[target].Free? && fs.Now() == Adopt(old(fs.Now()), target, dir)
  {
    hide Image, View, Replay, Traced, RecOk, TableOk, OwnerOk, UsedOk, Edges, EntryMap, FreeSet, ViewNode, NodeOk;
    ImageFacts(fs.crc, fs.disk, fs.live);
    assert NodeOk(fs.g, fs.crc, fs.disk, fs.T, target);
    DataHasNoParent(fs.g, fs.crc, fs.disk, fs.T, target);
    ViewFree(fs.g, fs.disk, fs.T, target);
    ViewTouched(fs.disk, t, fs.T.chains[target], Adopted(t, dir).nlink, Adopted(t, dir).parent);
    ViewNlink(fs.disk, t, fs.T.chains[target]);
    Touch(fs, target, Adopted(t, dir));
  }

  lemma AdoptAdd(fs: Fs, dir: nat, name: Name, target: nat)
    requires dir < |fs| && fs[dir].Dir? && target < |fs| && !fs[target].Free? && target != dir
    ensures Adopt(AddEntry(fs, dir, name, target), target, dir) == AddEntry(Adopt(fs, target, dir), dir, name, target)
  {}

  // Add the edge, then write the target's record and the directory's record, in this order.
  method LinkBody(fs: Gfs, dir: nat, d: DNode, name: Name, target: nat, t: DNode) returns (rc: Err)
    requires InHand(fs, dir, d) && fs.dirty == {} && name !in EntriesOf(fs, dir)
    requires 0 < target < fs.g.nodeCount && fs.T.nodes[target] == t && t.typ != TFree
    modifies fs`disk, fs`log, fs`faults, fs`working, fs`mp, fs`T, fs`dirty
    ensures fs.Steady(old(fs.faults)) && fs.Safe()
    ensures rc == OK ==>
      && fs.Work() && fs.dirty == {} && |fs.Avail()| >= old(|fs.Avail()|) - 3
      && CountFreeNodes(fs.T.nodes, fs.g.nodeCount) == old(CountFreeNodes(fs.T.nodes, fs.g.nodeCount))
      && old(fs.Now())[dir].Dir? && !old(fs.Now())[target].Free?
      && fs.Now() == AddEntry(if target == dir then old(fs.Now())
        else Adopt(old(fs.Now()), target, dir), dir, name, target)
    ensures rc != OK ==> (rc == EIO && fs.faults > old(fs.faults)) || (rc == ENOSPC && old(|fs.Avail()|) < 3)
  {
    hide Image, View, Replay, Traced, TreeOk, UsedOk, Edges, EntryMap, FreeSet, CountFreeNodes, ViewNode, Adopt;
    ImageFacts(fs.crc, fs.disk, fs.live);
    TreeLengths(fs.g, fs.crc, fs.disk, fs.mp, fs.T, fs.dirty);
    NowIsDir(fs, dir, d);
    ViewFree(fs.g, fs.disk, fs.T, target);
    var d';
    rc, d' := EdgeAdd(fs, dir, d, target, name);
    if rc != OK { return; }
    FreeNodesChange(old(fs.T.nodes), dir, d', fs.g.nodeCount);
    assert fs.Now() == AddEntry(old(fs.Now()), dir, name, target);
    if target != dir {
      FreeNodesChange(fs.T.nodes, target, Adopted(t, dir), fs.g.nodeCount);
      StageAdopt(fs, dir, target, t);
      AdoptAdd(old(fs.Now()), dir, name, target);
    }
    rc := fs.NodeWrite(target, Adopted(t, dir));
    if rc != OK { return; }
    rc := fs.NodeWrite(dir, d');
  }

  lemma DataHasNoParent(g: Geo, crc: Crc, disk: Disk, T: Tree, id: nat)
    requires NodeOk(g, crc, disk, T, id)
    ensures T.nodes[id].typ == TData ==> T.nodes[id].parent == 0
  {}

  lemma ViewNlink(disk: Disk, n: DNode, chain: seq<nat>)
    requires n.typ != TFree
    ensures ViewNode(disk, n, chain).nlink == n.nlink
  {
    hide Edges, EntryMap, Content;
  }

  // The checks of gfs_link.
  method LinkCheck(fs: Gfs, dir: nat, name: Name, target: nat) returns (rc: Err, d: DNode, t: DNode)
    requires fs.Work() && fs.dirty == {} && NameCheck(name) == OK
    modifies fs`faults
    ensures fs.Steady(old(fs.faults))
    ensures rc == OK ==>
      && InHand(fs, dir, d) && name !in EntriesOf(fs, dir)
      && 0 < target < fs.g.nodeCount && fs.T.nodes[target] == t && t.typ != TFree
      && LinkAt(fs.Now(), dir, name, target).Ok?
    ensures rc != OK ==> (rc == EIO && fs.faults > old(fs.faults)) || LinkAt(fs.Now(), dir, name, target) == Fail(rc)
  {
    hide Image, View, Replay, Traced, TreeOk, UsedOk, Edges, EntryMap, NameCheck, ViewNode, Adopt;
    ImageFacts(fs.crc, fs.disk, fs.live);
    TreeLengths(fs.g, fs.crc, fs.disk, fs.mp, fs.T, fs.dirty);
    t := ZERO_NODE;
    rc, d := fs.NodeRead(dir);
    if rc != OK { return; }
    rc, t := fs.NodeRead(target);
    if rc != OK { return; }
    ViewFree(fs.g, fs.disk, fs.T, dir);
    ViewFree(fs.g, fs.disk, fs.T, target);
    if t.typ == TFree { return ENOENT, d, t; }
    if d.typ != TNamespace { return ENOTDIR, d, t; }
    NowIsDir(fs, dir, d);
    var dummy;
    rc, dummy := EdgeLookup(fs, dir, d, name);
    if rc == OK { return EEXIST, d, t; }
    if rc != ENOENT { return; }
    ViewNlink(fs.disk, t, fs.T.chains[target]);
    if t.typ == TNamespace && t.nlink >= 1 { return EMANYPARENTS, d, t; }
    rc := OK;
  }

  method LinkTxn(fs: Gfs, dir: nat, name: Name, target: nat) returns (rc: Err)
    requires fs.Work() && fs.dirty == {} && NameCheck(name) == OK
    modifies fs`disk, fs`log, fs`faults, fs`working, fs`mp, fs`T, fs`dirty
    ensures fs.Steady(old(fs.faults)) && fs.Safe()
    ensures rc == OK ==>
      && fs.Work() && fs.dirty == {} && |fs.Avail()| >= old(|fs.Avail()|) - 3
      && CountFreeNodes(fs.T.nodes, fs.g.nodeCount) == old(CountFreeNodes(fs.T.nodes, fs.g.nodeCount))
      && LinkAt(old(fs.Now()), dir, name, target) == Ok(fs.Now())
    ensures rc != OK ==>
      Refused(rc, LinkAt(old(fs.Now()), dir, name, target), fs.faults > old(fs.faults), false, old(|fs.Avail()|) < 3)
  {
    hide Image, View, Replay, Traced, TreeOk, UsedOk, Edges, EntryMap, FreeSet, CountFreeNodes, NameCheck;
    ImageFacts(fs.crc, fs.disk, fs.live);
    var d, t;
    rc, d, t := LinkCheck(fs, dir, name, target);
    if rc != OK { return; }
    rc := LinkBody(fs, dir, d, name, target, t);
  }

  // gfs_link with a NAME edge.
  method LinkName(fs: Gfs, dir: nat, name: Name, target: nat) returns (rc: Err)
    requires fs.Valid()
    modifies fs
    ensures fs.Valid() && fs.disk == Replay(old(fs.disk), fs.log) && fs.Steady(old(fs.faults))
    ensures Atomic(fs.crc, old(fs.disk), fs.log, old(fs.live), fs.live)
    ensures rc == OK ==> LinkAt(old(fs.Stored()), dir, name, target) == Ok(fs.Stored())
    ensures rc != OK ==>
      && fs.live == old(fs.live) && fs.Stored() == old(fs.Stored())
      && Refused(rc, LinkAt(old(fs.Stored()), dir, name, target), fs.faults > old(fs.faults), !fs.writable,
        old(fs.freeBlocks) < 4)
  {
    hide Image, View, Replay, Traced, TreeOk, UsedOk, FreeSet, CountFreeNodes, Published, NameCheck, Atomic;
    ImageFacts(fs.crc, fs.disk, fs.live);
    ImageCounts(fs.crc, fs.disk, fs.live);
    StartCall(fs);
    CallUndone(fs);
    rc := NameCheck(name);
    if rc != OK { return; }
    rc := fs.TxnBegin();
    if rc == OK {
      rc := LinkTxn(fs, dir, name, target);
    }
    if rc == OK {
      rc := fs.TxnCommit(0);
    }
    if rc != OK { CallUndone(fs); } else { CallDone(fs.crc, fs.base, fs.log, old(fs.live), fs.live); }
  }

  // ---- unlink ------------------------------------------------------------------------------------------------

  lemma EmptyMap(es: seq<Edge>)
    ensures EntryMap(es) == map[] <==> |es| == 0
  {
    if |es| > 0 { EntryMapFirst(es, 0); }
  }

  lemma EmptyDir(g: Geo, crc: Crc, disk: Disk, mp: seq<Bp>, T: Tree, dirty: set<nat>, id: nat)
    requires TreeOk(g, crc, disk, mp, T, dirty) && id < MAX_NODES && T.nodes[id].typ == TNamespace
    ensures ViewNode(disk, T.nodes[id], T.chains[id]).entries == map[] <==> T.nodes[id].edgeCount == 0
  {
    hide Edges, EntryMap, NodeOk, RecOk, TableOk, OwnerOk;
    ChainFacts(g, crc, disk, mp, T, dirty, id);
    EmptyMap(Edges(disk, T.chains[id]));
  }

  // One name of the target has gone; write its record back, or reclaim the node.
  method DropRecord(fs: Gfs, target: nat, t: DNode) returns (rc: Err, delta: int)
    requires fs.Work() && 0 < target < fs.g.nodeCount && fs.T.nodes[target] == t && t.typ != TFree && t.nlink > 0
    modifies fs`disk, fs`log, fs`faults, fs`working, fs`mp, fs`T, fs`dirty
    ensures fs.Steady(old(fs.faults)) && fs.Safe()
    ensures rc == OK ==>
      && fs.Work() && fs.dirty == old(fs.dirty) - {target} && |fs.Avail()| >= old(|fs.Avail()|) - 1
      && CountFreeNodes(fs.T.nodes, fs.g.nodeCount) == old(CountFreeNodes(fs.T.nodes, fs.g.nodeCount)) + delta
      && !old(fs.Now())[target].Free? && old(fs.Now())[target].nlink > 0 && fs.Now() == DropLink(old(fs.Now()), target)
      && (forall i :: 0 <= i < |fs.T.nodes| && i != target ==> fs.T.nodes[i] == old(fs.T.nodes[i]))
    ensures rc != OK ==> (rc == EIO && fs.faults > old(fs.faults)) || (rc == ENOSPC && old(|fs.Avail()|) < 1)
  {
    hide Image, View, Replay, Traced, TreeOk, UsedOk, Edges, EntryMap, FreeSet, CountFreeNodes, ViewNode;
    ImageFacts(fs.crc, fs.disk, fs.live);
    TreeLengths(fs.g, fs.crc, fs.disk, fs.mp, fs.T, fs.dirty);
    ViewFree(fs.g, fs.disk, fs.T, target);
    ViewNlink(fs.disk, t, fs.T.chains[target]);
    delta := 0;
    if t.nlink == 1 {
      FreeNodesChange(fs.T.nodes, target, ZERO_NODE, fs.g.nodeCount);
      rc := FreeNode(fs, target, t);
      if rc != OK { return; }
      delta := 1;
      rc := fs.NodeWrite(target, ZERO_NODE);
    } else {
      var t' := t.(nlink := t.nlink - 1);
      FreeNodesChange(fs.T.nodes, target, t', fs.g.nodeCount);
      StageNlink(fs, target, t);
      rc := fs.NodeWrite(target, t');
    }
  }

  ghost method StageNlink(fs: Gfs, target: nat, t: DNode)
    requires fs.Work() && 0 < target < fs.g.nodeCount && fs.T.nodes[target] == t && t.typ != TFree && t.nlink > 1
    modifies fs`T, fs`dirty
    ensures fs.Work() && fs.dirty == old(fs.dirty) + {target}
    ensures fs.T.nodes == old(fs.T.nodes)[target := t.(nlink := t.nlink - 1)] && fs.T.chains == old(fs.T.chains)
    ensures !old(fs.Now())[target].Free? && old(fs.Now())[target].nlink > 1
      && fs.Now() == DropLink(old(fs.Now()), target)
  {
    hide Image, View, Replay, Traced, RecOk, TableOk, OwnerOk, UsedOk, Edges, EntryMap, FreeSet, ViewNode, NodeOk;
    ImageFacts(fs.crc, fs.disk, fs.live);
    assert NodeOk(fs.g, fs.crc, fs.disk, fs.T, target);
    DataHasNoParent(fs.g, fs.crc, fs.disk, fs.T, target);
    ViewFree(fs.g, fs.disk, fs.T, target);
    ViewTouched(fs.disk, t, fs.T.chains[target], t.nlink - 1, t.parent);
    ViewNlink(fs.disk, t, fs.T.chains[target]);
    ViewParent(fs.disk, t, fs.T.chains[target]);
    Touch(fs, target, t.(nlink := t.nlink - 1));
  }

  lemma ViewParent(disk: Disk, n: DNode, chain: seq<nat>)
    ensures ViewNode(disk, n, chain).Dir? ==> ViewNode(disk, n, chain).parent == n.parent
  {
    hide Edges, EntryMap, Content;
  }

  method UnlinkBody(fs: Gfs, dir: nat, d: DNode, name: Name, target: nat, t: DNode) returns (rc: Err, delta: int)
    requires InHand(fs, dir, d) && fs.dirty == {} && name in EntriesOf(fs, dir)
    requires 0 < target < fs.g.nodeCount && fs.T.nodes[target] == t && t.typ != TFree && t.nlink > 0 && target != dir
    modifies fs`disk, fs`log, fs`faults, fs`working, fs`mp, fs`T, fs`dirty
    ensures fs.Steady(old(fs.faults)) && fs.Safe()
    ensures rc == OK ==>
      && fs.Work() && fs.dirty == {} && |fs.Avail()| >= old(|fs.Avail()|) - (EdgeBlocks(d.edgeCount - 1) + 2)
      && CountFreeNodes(fs.T.nodes, fs.g.nodeCount) == old(CountFreeNodes(fs.T.nodes, fs.g.nodeCount)) + delta
      && old(fs.Now())[dir].Dir? && !old(fs.Now())[target].Free? && old(fs.Now())[target].nlink > 0
      && fs.Now() == DropLink(DropEntry(old(fs.Now()), dir, name), target)
    ensures rc != OK ==>
      || (rc == EIO && fs.faults > old(fs.faults))
      || (rc == ENOSPC && old(|fs.Avail()|) < EdgeBlocks(d.edgeCount - 1) + 2)
  {
    hide Image, View, Replay, Traced, TreeOk, UsedOk, Edges, EntryMap, FreeSet, CountFreeNodes, ViewNode, EdgeBlocks;
    ImageFacts(fs.crc, fs.disk, fs.live);
    TreeLengths(fs.g, fs.crc, fs.disk, fs.mp, fs.T, fs.dirty);
    NowIsDir(fs, dir, d);
    ViewFree(fs.g, fs.disk, fs.T, target);
    ViewNlink(fs.disk, t, fs.T.chains[target]);
    delta := 0;
    var d', removed;
    rc, d', removed := EdgeRemove(fs, dir, d, name);
    if rc != OK { return; }
    FreeNodesChange(old(fs.T.nodes), dir, d', fs.g.nodeCount);
    assert fs.Now() == DropEntry(old(fs.Now()), dir, name);
    rc := fs.NodeWrite(dir, d');
    if rc != OK { return; }
    rc, delta := DropRecord(fs, target, t);
  }

  // The checks of gfs_unlink.
  method UnlinkCheck(fs: Gfs, dir: nat, name: Name) returns (rc: Err, d: DNode, target: nat, t: DNode)
    requires fs.Work() && fs.dirty == {} && NameCheck(name) == OK && TreeInv(fs.Now())
    modifies fs`faults
    ensures fs.Steady(old(fs.faults))
    ensures rc == OK ==>
      && InHand(fs, dir, d) && name in EntriesOf(fs, dir)
      && 0 < target < fs.g.nodeCount && fs.T.nodes[target] == t && t.typ != TFree && t.nlink > 0 && target != dir
      && IsLink(fs.Now(), dir, name, target)
      && !fs.Now()[target].Free? && fs.Now()[target].nlink > 0
      && Unlink(fs.Now(), dir, name) == Ok(DropLink(DropEntry(fs.Now(), dir, name), target))
    ensures rc != OK ==> (rc == EIO && fs.faults > old(fs.faults)) || Unlink(fs.Now(), dir, name) == Fail(rc)
  {
    hide Image, View, Replay, Traced, TreeOk, UsedOk, Edges, EntryMap, NameCheck, ViewNode, TreeInv;
    ImageFacts(fs.crc, fs.disk, fs.live);
    TreeLengths(fs.g, fs.crc, fs.disk, fs.mp, fs.T, fs.dirty);
    t, target := ZERO_NODE, 0;
    rc, d := OpenDir(fs, dir);
    if rc != OK { return; }
    rc, target := EdgeLookup(fs, dir, d, name);
    if rc != OK { return; }
    LinkFacts(fs.Now(), dir, name, target);
    rc, t := fs.NodeRead(target);
    if rc != OK { return; }
    ViewFree(fs.g, fs.disk, fs.T, target);
    if t.typ == TNamespace { EmptyDir(fs.g, fs.crc, fs.disk, fs.mp, fs.T, fs.dirty, target); }
    if t.typ == TNamespace && t.edgeCount > 0 { return ENOTEMPTY, d, target, t; }
    ViewNlink(fs.disk, t, fs.T.chains[target]);
  }

  lemma LinkFacts(fs: Fs, dir: nat, name: Name, target: nat)
    requires TreeInv(fs) && IsLink(fs, dir, name, target)
    ensures 0 < target < |fs| && !fs[target].Free? && fs[target].nlink > 0 && target != dir && target != ROOT
  {
    hide HasOneName, Rooted;
    LinkedHasNlink(fs, dir, name, target);
    NoSelfLink(fs, dir, name, target);
    LinksMember(fs, dir, name, target);
  }

  method UnlinkTxn(fs: Gfs, dir: nat, name: Name) returns (rc: Err, delta: int)
    requires fs.Work() && fs.dirty == {} && NameCheck(name) == OK && TreeInv(fs.Now())
    modifies fs`disk, fs`log, fs`faults, fs`working, fs`mp, fs`T, fs`dirty
    ensures fs.Steady(old(fs.faults)) && fs.Safe()
    ensures rc == OK ==>
      && fs.Work() && fs.dirty == {} && |fs.Avail()| >= old(|fs.Avail()|) - UnlinkSpace(old(fs.Now()), dir)
      && CountFreeNodes(fs.T.nodes, fs.g.nodeCount) == old(CountFreeNodes(fs.T.nodes, fs.g.nodeCount)) + delta
      && Unlink(old(fs.Now()), dir, name) == Ok(fs.Now())
    ensures rc != OK ==>
      Refused(rc, Unlink(old(fs.Now()), dir, name), fs.faults > old(fs.faults), false,
      old(|fs.Avail()|) < UnlinkSpace(old(fs.Now()), dir))
  {
    hide Image, View, Replay, Traced, TreeOk, UsedOk, Edges, EntryMap, FreeSet, CountFreeNodes, NameCheck, TreeInv,
      Unlink, EdgeBlocks;
    ImageFacts(fs.crc, fs.disk, fs.live);
    var d, target, t;
    delta := 0;
    rc, d, target, t := UnlinkCheck(fs, dir, name);
    if rc != OK { return; }
    DirSize(fs, dir, d);
    rc, delta := UnlinkBody(fs, dir, d, name, target, t);
  }

  // Blocks an unlink may take before its commit: the rebuilt chain and two table blocks.
  ghost function UnlinkSpace(fs: Fs, dir: nat): int {
    if dir < |fs| && fs[dir].Dir? then EdgeBlocks(|fs[dir].entries| - 1) + 2 else 0
  }

  lemma DirSize(fs: Gfs, dir: nat, d: DNode)
    requires InHand(fs, dir, d)
    ensures fs.Now()[dir].Dir? && |fs.Now()[dir].entries| == d.edgeCount
  {
    hide Image, View, Replay, Traced, UsedOk, Edges, EntryMap, NodeOk, RecOk, TableOk, OwnerOk;
    ImageFacts(fs.crc, fs.disk, fs.live);
    NowIsDir(fs, dir, d);
    ChainFacts(fs.g, fs.crc, fs.disk, fs.mp, fs.T, fs.dirty, dir);
    EntryMapSize(Edges(fs.disk, fs.T.chains[dir]));
  }

  // gfs_unlink.
  method UnlinkName(fs: Gfs, dir: nat, name: Name) returns (rc: Err)
    requires fs.Valid() && TreeInv(fs.Stored())
    modifies fs
    ensures fs.Valid() && fs.disk == Replay(old(fs.disk), fs.log) && fs.Steady(old(fs.faults))
    ensures Atomic(fs.crc, old(fs.disk), fs.log, old(fs.live), fs.live)
    ensures rc == OK ==> Unlink(old(fs.Stored()), dir, name) == Ok(fs.Stored())
    ensures rc != OK ==>
      && fs.live == old(fs.live) && fs.Stored() == old(fs.Stored())
      && Refused(rc, Unlink(old(fs.Stored()), dir, name), fs.faults > old(fs.faults), !fs.writable,
                 old(fs.freeBlocks) < UnlinkSpace(old(fs.Stored()), dir) + 1)
  {
    hide Image, View, Replay, Traced, TreeOk, UsedOk, FreeSet, CountFreeNodes, Published, NameCheck, Atomic, Unlink,
      TreeInv, UnlinkSpace;
    ImageFacts(fs.crc, fs.disk, fs.live);
    ImageCounts(fs.crc, fs.disk, fs.live);
    StartCall(fs);
    CallUndone(fs);
    rc := NameCheck(name);
    if rc != OK {
      UnlinkBadName(fs.Stored(), dir, name);
      return;
    }
    rc := fs.TxnBegin();
    var delta := 0;
    if rc == OK {
      rc, delta := UnlinkTxn(fs, dir, name);
    }
    if rc == OK {
      rc := fs.TxnCommit(delta);
    }
    if rc != OK { CallUndone(fs); } else { CallDone(fs.crc, fs.base, fs.log, old(fs.live), fs.live); }
  }

  lemma UnlinkBadName(fs: Fs, dir: nat, name: Name)
    requires TreeInv(fs) && NameCheck(name) != OK
    ensures Unlink(fs, dir, name) == Fail(NameCheck(name))
  {}
}
