// gfs_rename.
module GfsRename {
  import opened GfsTypes
  import opened Namespace
  import opened TreeTheory
  import opened GfsDisk
  import opened GfsCore
  import opened GfsCrash
  import opened GfsEdges
  import opened GfsEdgeRemove
  import opened GfsStage
  import opened GfsOps

  // ---- the ancestor walk -----------------------------------------------------------------------

  // Walk newdir's parent chain to the root looking for the source.  The walk's guard, which would
  // report ECORRUPT, never fires.
  method WalkUp(fs: Gfs, newdir: nat, src: nat) returns (rc: Err)
    requires fs.Work() && fs.dirty == {} && TreeInv(fs.Now())
    requires 0 < newdir < fs.g.nodeCount && fs.Now()[newdir].Dir? && src != ROOT
    modifies fs`faults
    ensures fs.Steady(old(fs.faults))
    ensures rc == OK ==> !Under(fs.Now(), newdir, src)
    ensures rc == EINVAL ==> Under(fs.Now(), newdir, src)
    ensures rc == OK || rc == EINVAL || (rc == EIO && fs.faults > old(fs.faults))
  {
    hide Image, View, Replay, Traced, TreeOk, UsedOk, ViewNode, TreeInv, Under, Anc;
    ImageFacts(fs.crc, fs.disk, fs.live);
    TreeLengths(fs.g, fs.crc, fs.disk, fs.mp, fs.T, fs.dirty);
    ghost var now := fs.Now();
    ghost var m := DepthBound(now, newdir);
    var cur := newdir;
    var guard := 0;
    AncZero(now, newdir);
    rc := OK;
    while cur != ROOT && rc == OK
      invariant 0 <= guard <= m && fs.Steady(old(fs.faults))
      invariant rc == OK ==> cur == Anc(now, newdir, guard) && forall j: nat :: j < guard ==> Anc(now, newdir, j) != src
      invariant rc == EINVAL ==> Under(now, newdir, src)
      invariant rc == OK || rc == EINVAL || (rc == EIO && fs.faults > old(fs.faults))
      decreases if rc == OK then m - guard + 1 else 0
    {
      if cur == src {
        AncUnder(now, newdir, src, guard);
        rc := EINVAL;
      } else if guard > fs.g.nodeCount {
        rc := ECORRUPT; // the parent chain never reached the root
      } else {
        var walk;
        ghost var prev := fs.faults;
        rc, walk := fs.NodeRead(cur);
        if rc == OK {
          AncNext(now, newdir, guard);
          ParentRead(fs, cur, walk);
          cur := walk.parent;
          guard := guard + 1;
        }
      }
    }
    if rc == OK { NotUnder(now, newdir, src, guard); }
  }

  lemma AncZero(fs: Fs, x: nat)
    ensures Anc(fs, x, 0) == x
  {}

  lemma AncUnder(fs: Fs, x: nat, top: nat, k: nat)
    requires Anc(fs, x, k) == top
    ensures Under(fs, x, top)
  {}

  lemma AncNext(fs: Fs, x: nat, k: nat)
    ensures Anc(fs, x, k + 1) == ParentOf(fs, Anc(fs, x, k))
  {
    AncAdd(fs, x, k, 1);
  }

  lemma ParentRead(fs: Gfs, id: nat, n: DNode)
    requires fs.Work() && id < fs.g.nodeCount && n == fs.T.nodes[id] && fs.Now()[id].Dir?
    ensures n.parent == ParentOf(fs.Now(), id)
  {
    hide Image, Replay, Traced, TreeOk, UsedOk, Edges, EntryMap, Content;
    ImageFacts(fs.crc, fs.disk, fs.live);
    TreeLengths(fs.g, fs.crc, fs.disk, fs.mp, fs.T, fs.dirty);
  }

  // Past the root the chain stays at the root.
  lemma NotUnder(fs: Fs, x: nat, top: nat, k: nat)
    requires TreeInv(fs) && top != ROOT && Anc(fs, x, k) == ROOT && forall j: nat :: j < k ==> Anc(fs, x, j) != top
    ensures !Under(fs, x, top)
  {
    forall j: nat ensures Anc(fs, x, j) != top {
      if j >= k {
        AncAdd(fs, x, k, j - k);
        AncStuck(fs, ROOT, j - k);
      }
    }
  }

  // ---- the checks --------------------------------------------------------------------------------

  // What the checks hand to the mutation.  When both names live in one directory, od plays both
  // roles and nd equals it.
  datatype Plan = Plan(od: DNode, nd: DNode, src: nat, sn: DNode, haveDst: bool, dst: nat, dn: DNode)

  ghost predicate IsNode(fs: Gfs, id: nat, n: DNode)
    reads fs
  {
    0 < id < fs.g.nodeCount && id < |fs.T.nodes| && fs.T.nodes[id] == n && n.typ != TFree && n.nlink > 0
  }

  ghost predicate PlanOk(fs: Gfs, olddir: nat, oldname: Name, newdir: nat, newname: Name, p: Plan)
    reads fs
  {
    && InHand(fs, olddir, p.od) && InHand(fs, newdir, p.nd)
    && oldname in EntriesOf(fs, olddir) && EntriesOf(fs, olddir)[oldname] == p.src
    && IsNode(fs, p.src, p.sn) && p.src != olddir && p.src != newdir
    && (olddir == newdir && p.sn.typ == TNamespace ==> p.sn.parent == newdir)
    && (if p.haveDst then
          && newname in EntriesOf(fs, newdir) && EntriesOf(fs, newdir)[newname] == p.dst
          && IsNode(fs, p.dst, p.dn) && p.dst != olddir && p.dst != newdir && p.dst != p.src
        else newname !in EntriesOf(fs, newdir))
  }

  ghost function Outcome(fs: Fs, od: nat, on: Name, nd: nat, nn: Name, p: Plan): Fs
    requires od < |fs| && fs[od].Dir? && nd < |fs| && fs[nd].Dir? && p.src < |fs|
    requires p.haveDst ==> p.dst < |fs| && !fs[p.dst].Free? && fs[p.dst].nlink > 0 && p.dst != od && p.dst != nd
  {
    Move(if p.haveDst then DropLink(DropEntry(fs, nd, nn), p.dst) else fs, od, on, nd, nn, p.src)
  }

  // Open both directories and find the source.
  method OpenDirs(fs: Gfs, olddir: nat, newdir: nat) returns (rc: Err, od: DNode, nd: DNode)
    requires fs.Work() && fs.dirty == {}
    modifies fs`faults
    ensures fs.Steady(old(fs.faults))
    ensures rc == OK ==> InHand(fs, olddir, od) && InHand(fs, newdir, nd)
    ensures rc == OK ==>
      fs.Now()[olddir] == Dir(EntriesOf(fs, olddir), od.parent, od.nlink, od.mode) && fs.Now()[newdir].Dir?
    ensures rc != OK ==>
      || (rc == EIO && fs.faults > old(fs.faults))
      || rc == DirCheck(fs.Now(), olddir)
      || (DirCheck(fs.Now(), olddir) == OK && rc == DirCheck(fs.Now(), newdir))
  {
    hide Image, View, Replay, Traced, TreeOk, UsedOk, ViewNode, Edges, EntryMap;
    nd := ZERO_NODE;
    rc, od := OpenDir(fs, olddir);
    if rc != OK { return; }
    if olddir == newdir {
      nd := od;
    } else {
      rc, nd := OpenDir(fs, newdir);
    }
  }

  method FindSource(fs: Gfs, olddir: nat, oldname: Name, newdir: nat)
    returns (rc: Err, od: DNode, nd: DNode, src: nat, sn: DNode)
    requires fs.Work() && fs.dirty == {} && TreeInv(fs.Now())
    modifies fs`faults
    ensures fs.Steady(old(fs.faults))
    ensures rc == OK ==>
      && InHand(fs, olddir, od) && InHand(fs, newdir, nd)
      && oldname in EntriesOf(fs, olddir) && EntriesOf(fs, olddir)[oldname] == src
      && IsNode(fs, src, sn) && src != olddir && src != ROOT && IsLink(fs.Now(), olddir, oldname, src)
      && (sn.typ == TNamespace && olddir != newdir ==> !Under(fs.Now(), newdir, src))
      && src != newdir && fs.Now()[newdir].Dir?
    ensures rc != OK ==>
      || (rc == EIO && fs.faults > old(fs.faults))
      || rc == DirCheck(fs.Now(), olddir)
      || (DirCheck(fs.Now(), olddir) == OK && rc == DirCheck(fs.Now(), newdir))
      || (DirCheck(fs.Now(), olddir) == OK && DirCheck(fs.Now(), newdir) == OK
          && if rc == ENOENT then oldname !in fs.Now()[olddir].entries
             else rc == EINVAL && oldname in fs.Now()[olddir].entries && olddir != newdir
                  && var s := fs.Now()[olddir].entries[oldname];
                    s < fs.g.nodeCount && fs.Now()[s].Dir? && Under(fs.Now(), newdir, s))
  {
    hide Image, View, Replay, Traced, TreeOk, UsedOk, ViewNode, TreeInv, Under, Edges, EntryMap;
    ImageFacts(fs.crc, fs.disk, fs.live);
    TreeLengths(fs.g, fs.crc, fs.disk, fs.mp, fs.T, fs.dirty);
    nd, src, sn := ZERO_NODE, 0, ZERO_NODE;
    rc, od, nd := OpenDirs(fs, olddir, newdir);
    if rc != OK { return; }
    rc, src := EdgeLookup(fs, olddir, od, oldname);
    if rc != OK { return; }
    LinkFacts(fs.Now(), olddir, oldname, src);
    rc, sn := fs.NodeRead(src);
    if rc != OK { return; }
    ViewFree(fs.g, fs.disk, fs.T, src);
    ViewFree(fs.g, fs.disk, fs.T, newdir);
    ViewNlink(fs.disk, sn, fs.T.chains[src]);
    if sn.typ == TNamespace && olddir != newdir {
      SelfUnder(fs.Now(), newdir);
      rc := WalkUp(fs, newdir, src);
    }
  }

  lemma SelfUnder(fs: Fs, x: nat)
    ensures Under(fs, x, x)
  {
    assert Anc(fs, x, 0) == x;
  }

  // The parts of gfs_rename's specification that follow from finding the source.
  lemma SourceOutcome(fs: Fs, od: nat, on: Name, nd: nat, nn: Name, src: nat)
    requires TreeInv(fs) && NameCheck(on) == OK && NameCheck(nn) == OK && DirCheck(fs, od) == OK
      && DirCheck(fs, nd) == OK
    requires IsLink(fs, od, on, src) && src < |fs| && (fs[src].Dir? && od != nd ==> !Under(fs, nd, src))
    ensures nn !in fs[nd].entries ==> Rename(fs, od, on, nd, nn) == Ok(Move(fs, od, on, nd, nn, src))
    ensures nn in fs[nd].entries && fs[nd].entries[nn] == src ==> Rename(fs, od, on, nd, nn) == Ok(fs)
    ensures nn in fs[nd].entries && fs[nd].entries[nn] != src ==>
      var dst := fs[nd].entries[nn];
      && dst < |fs| && !fs[dst].Free? && fs[dst].nlink > 0
      && (ReplaceCheck(fs[src], fs[dst]) != OK ==> Rename(fs, od, on, nd, nn) == Fail(ReplaceCheck(fs[src], fs[dst])))
      && (ReplaceCheck(fs[src], fs[dst]) == OK ==> dst != od && dst != nd)
      && (ReplaceCheck(fs[src], fs[dst]) == OK ==>
            Rename(fs, od, on, nd, nn) == Ok(Move(DropLink(DropEntry(fs, nd, nn), dst), od, on, nd, nn, src)))
  {
    hide HasOneName, Rooted, Under, Links;
    if nn in fs[nd].entries && fs[nd].entries[nn] != src {
      var dst := fs[nd].entries[nn];
      assert IsLink(fs, nd, nn, dst);
      LinkedHasNlink(fs, nd, nn, dst);
      if ReplaceCheck(fs[src], fs[dst]) == OK { Cleared(fs, od, on, nd, nn, src, dst); }
    }
  }

  // The checks on an existing destination.
  method FindDest(fs: Gfs, newdir: nat, nd: DNode, newname: Name, src: nat, sn: DNode)
    returns (rc: Err, noop: bool, haveDst: bool, dst: nat, dn: DNode)
    requires InHand(fs, newdir, nd) && fs.dirty == {} && TreeInv(fs.Now()) && IsNode(fs, src, sn)
    modifies fs`faults
    ensures fs.Steady(old(fs.faults))
    ensures fs.Now()[newdir].Dir? && src < |fs.Now()|
    ensures rc == OK ==> haveDst == (newname in EntriesOf(fs, newdir))
    ensures rc == OK && haveDst ==> EntriesOf(fs, newdir)[newname] == dst && noop == (dst == src)
    ensures rc == OK && !haveDst ==> !noop
    ensures rc == OK && haveDst && !noop ==>
      IsNode(fs, dst, dn) && dst != newdir && ReplaceCheck(fs.Now()[src], fs.Now()[dst]) == OK
    ensures rc != OK ==>
      || (rc == EIO && fs.faults > old(fs.faults))
      || (newname in EntriesOf(fs, newdir) && var t := EntriesOf(fs, newdir)[newname];
          t != src && t < fs.g.nodeCount && rc == ReplaceCheck(fs.Now()[src], fs.Now()[t]))
  {
    hide Image, View, Replay, Traced, TreeOk, UsedOk, ViewNode, TreeInv, Edges, EntryMap;
    ImageFacts(fs.crc, fs.disk, fs.live);
    TreeLengths(fs.g, fs.crc, fs.disk, fs.mp, fs.T, fs.dirty);
    NowIsDir(fs, newdir, nd);
    noop, haveDst, dst, dn := false, false, 0, ZERO_NODE;
    rc, dst := EdgeLookup(fs, newdir, nd, newname);
    if rc == ENOENT { return OK, false, false, dst, dn; }
    if rc != OK { return; }
    haveDst := true;
    if dst == src { noop := true; return; }
    LinkFacts(fs.Now(), newdir, newname, dst);
    rc, dn := fs.NodeRead(dst);
    if rc != OK { return; }
    ViewFree(fs.g, fs.disk, fs.T, dst);
    ViewFree(fs.g, fs.disk, fs.T, src);
    ViewNlink(fs.disk, dn, fs.T.chains[dst]);
    if dn.typ == TNamespace { EmptyDir(fs.g, fs.crc, fs.disk, fs.mp, fs.T, fs.dirty, dst); }
    if sn.typ == TNamespace {
      if dn.typ != TNamespace { rc := ENOTDIR; }
      else if dn.edgeCount > 0 { rc := ENOTEMPTY; }
    } else if dn.typ == TNamespace {
      rc := EISDIR;
    }
  }

  method RenameCheck(fs: Gfs, olddir: nat, oldname: Name, newdir: nat, newname: Name)
    returns (rc: Err, noop: bool, p: Plan)
    requires fs.Work() && fs.dirty == {} && NameCheck(oldname) == OK && NameCheck(newname) == OK && TreeInv(fs.Now())
    modifies fs`faults
    ensures fs.Steady(old(fs.faults))
    ensures rc == OK && noop ==> Rename(fs.Now(), olddir, oldname, newdir, newname) == Ok(fs.Now())
    ensures rc == OK && !noop ==>
      && PlanOk(fs, olddir, oldname, newdir, newname, p)
      && fs.Now()[olddir].Dir? && fs.Now()[newdir].Dir?
      && (p.haveDst ==> !fs.Now()[p.dst].Free? && fs.Now()[p.dst].nlink > 0)
      && Rename(fs.Now(), olddir, oldname, newdir, newname) ==
         Ok(Outcome(fs.Now(), olddir, oldname, newdir, newname, p))
    ensures rc != OK ==>
      (rc == EIO && fs.faults > old(fs.faults)) || Rename(fs.Now(), olddir, oldname, newdir, newname) == Fail(rc)
  {
    hide Image, View, Replay, Traced, TreeOk, UsedOk, ViewNode, TreeInv, Edges, EntryMap, Under, NameCheck, Move,
      DropLink, DropEntry,
      ReplaceCheck;
    ImageFacts(fs.crc, fs.disk, fs.live);
    TreeLengths(fs.g, fs.crc, fs.disk, fs.mp, fs.T, fs.dirty);
    noop := false;
    var od, nd, src, sn, haveDst, dst, dn;
    p := Plan(ZERO_NODE, ZERO_NODE, 0, ZERO_NODE, false, 0, ZERO_NODE);
    rc, od, nd, src, sn := FindSource(fs, olddir, oldname, newdir);
    if rc != OK { return; }
    NowIsDir(fs, olddir, od);
    NowIsDir(fs, newdir, nd);
    ViewFree(fs.g, fs.disk, fs.T, src);
    SourceOutcome(fs.Now(), olddir, oldname, newdir, newname, src);
    SameDirParent(fs, olddir, oldname, src, sn);
    rc, noop, haveDst, dst, dn := FindDest(fs, newdir, nd, newname, src, sn);
    if rc != OK { return; }
    p := Plan(od, nd, src, sn, haveDst, dst, dn);
  }

  lemma SameDirParent(fs: Gfs, dir: nat, name: Name, src: nat, sn: DNode)
    requires fs.Work() && TreeInv(fs.Now()) && IsLink(fs.Now(), dir, name, src) && IsNode(fs, src, sn)
    ensures sn.typ == TNamespace ==> sn.parent == dir
  {
    hide Image, View, Replay, Traced, TreeOk, UsedOk, ViewNode, HasOneName, Rooted, Links, Edges, EntryMap;
    ImageFacts(fs.crc, fs.disk, fs.live);
    TreeLengths(fs.g, fs.crc, fs.disk, fs.mp, fs.T, fs.dirty);
    ViewFree(fs.g, fs.disk, fs.T, src);
    if sn.typ == TNamespace {
      ParentIsLink(fs.Now(), dir, name, src);
      ParentRead(fs, src, sn);
    }
  }

  // ---- the mutation ---------------------------------------------------------------------------------

  // Blocks a rename may take before its commit.
  function RenameSpace(od: DNode, nd: DNode): int {
    EdgeBlocks(od.edgeCount - 1) + EdgeBlocks(nd.edgeCount - 1) + 5
  }

  lemma SwapDrops(fs: Fs, od: nat, on: Name, nd: nat, nn: Name, dst: nat)
    requires od < |fs| && fs[od].Dir? && nd < |fs| && fs[nd].Dir? && dst < |fs| && !fs[dst].Free? && fs[dst].nlink > 0
    requires dst != od && dst != nd
    ensures DropLink(DropEntry(DropEntry(fs, od, on), nd, nn), dst) == DropEntry(DropLink(DropEntry(fs, nd, nn), dst),
      od, on)
  {
    var a := DropLink(DropEntry(DropEntry(fs, od, on), nd, nn), dst);
    var b := DropEntry(DropLink(DropEntry(fs, nd, nn), dst), od, on);
    forall i | 0 <= i < |fs| ensures a[i] == b[i] {
      if i == od && i == nd {
        assert fs[od].entries - {on} - {nn} == fs[od].entries - {nn} - {on};
      }
    }
  }

  // The old name is gone, and so is the destination, if there was one.
  ghost predicate NamesTaken(before: Fs, after: Fs, od: nat, on: Name, nd: nat, nn: Name, p: Plan) {
    && od < |before| && before[od].Dir? && nd < |before| && before[nd].Dir?
    && (p.haveDst ==> p.dst < |before| && !before[p.dst].Free? && before[p.dst].nlink > 0 && p.dst != od && p.dst != nd)
    && after == DropEntry(if p.haveDst then DropLink(DropEntry(before, nd, nn), p.dst) else before, od, on)
  }

  lemma HandView(fs: Gfs, id: nat, d: DNode)
    requires InHand(fs, id, d)
    ensures fs.g.nodeCount <= |fs.T.nodes| && |fs.Now()| == fs.g.nodeCount
    ensures fs.Now()[id] == Dir(EntriesOf(fs, id), d.parent, d.nlink, d.mode)
  {
    hide Image, View, Replay, Traced, TreeOk, UsedOk, ViewNode, Edges, EntryMap;
    ImageFacts(fs.crc, fs.disk, fs.live);
    TreeLengths(fs.g, fs.crc, fs.disk, fs.mp, fs.T, fs.dirty);
    NowIsDir(fs, id, d);
  }

  // Take the old name out, and clear the destination if there is one.
  method TakeNames(fs: Gfs, olddir: nat, oldname: Name, newdir: nat, newname: Name, p: Plan)
    returns (rc: Err, od: DNode, nd: DNode, delta: int)
    requires PlanOk(fs, olddir, oldname, newdir, newname, p) && fs.dirty == {}
    modifies fs`disk, fs`log, fs`faults, fs`working, fs`mp, fs`T, fs`dirty
    ensures fs.Steady(old(fs.faults)) && fs.Safe()
    ensures rc == OK ==>
      && InHand(fs, olddir, od) && InHand(fs, newdir, nd) && newname !in EntriesOf(fs, newdir)
      && {olddir} <= fs.dirty <= {olddir, newdir} && IsNode(fs, p.src, p.sn)
      && CountFreeNodes(fs.T.nodes, fs.g.nodeCount) == old(CountFreeNodes(fs.T.nodes, fs.g.nodeCount)) + delta
      && |fs.Avail()| >= old(|fs.Avail()|) - (RenameSpace(p.od, p.nd) - 4)
      && NamesTaken(old(fs.Now()), fs.Now(), olddir, oldname, newdir, newname, p)
    ensures rc != OK ==>
      || (rc == EIO && fs.faults > old(fs.faults))
      || (rc == ENOSPC && old(|fs.Avail()|) < RenameSpace(p.od, p.nd))
  {
    hide Image, View, Replay, Traced, TreeOk, UsedOk, ViewNode, Edges, EntryMap, EdgeBlocks, FreeSet, CountFreeNodes,
      Gfs.Valid, Gfs.Safe, Gfs.Now;
    EdgeBlocksSteps(p.od.edgeCount, p.nd.edgeCount);
    HandView(fs, olddir, p.od);
    HandView(fs, newdir, p.nd);
    delta := 0;
    var removed;
    nd := p.nd;
    rc, od, removed := EdgeRemove(fs, olddir, p.od, oldname);
    if rc != OK { return; }
    FreeNodesChange(old(fs.T.nodes), olddir, od, fs.g.nodeCount);
    assert fs.Now() == DropEntry(old(fs.Now()), olddir, oldname);
    if olddir == newdir { nd := od; }
    HandView(fs, newdir, nd);
    if p.haveDst {
      rc, od, nd, delta := ClearDest(fs, olddir, od, newdir, nd, newname, p.dst, p.dn);
      if rc != OK { return; }
      SwapDrops(old(fs.Now()), olddir, oldname, newdir, newname, p.dst);
    }
  }

  lemma EdgeBlocksSteps(a: nat, b: nat)
    ensures EdgeBlocks(a - 1) >= 0 && EdgeBlocks(b - 1) >= 0 && EdgeBlocks(a - 2) <= EdgeBlocks(a - 1)
  {}

  ghost predicate LinkDropped(before: Fs, after: Fs, dir: nat, name: Name, t: nat) {
    && dir < |before| && before[dir].Dir? && t < |before| && !before[t].Free? && before[t].nlink > 0
    && after == DropLink(DropEntry(before, dir, name), t)
  }

  // Remove the destination's name and drop its link.
  method ClearDest(fs: Gfs, olddir: nat, od: DNode, newdir: nat, nd: DNode, newname: Name, dst: nat, dn: DNode)
    returns (rc: Err, od': DNode, nd': DNode, delta: int)
    requires InHand(fs, olddir, od) && InHand(fs, newdir, nd) && newname in EntriesOf(fs, newdir)
    requires IsNode(fs, dst, dn) && dst != olddir && dst != newdir && dst !in fs.dirty
    modifies fs`disk, fs`log, fs`faults, fs`working, fs`mp, fs`T, fs`dirty
    ensures fs.Steady(old(fs.faults)) && fs.Safe()
    ensures rc == OK ==>
      && InHand(fs, olddir, od') && InHand(fs, newdir, nd') && newname !in EntriesOf(fs, newdir)
      && fs.dirty == old(fs.dirty) + {newdir}
      && |fs.T.nodes| == old(|fs.T.nodes|) == MAX_NODES
      && (forall i :: 0 <= i < MAX_NODES && i != dst && i != newdir ==> fs.T.nodes[i] == old(fs.T.nodes)[i])
      && CountFreeNodes(fs.T.nodes, fs.g.nodeCount) == old(CountFreeNodes(fs.T.nodes, fs.g.nodeCount)) + delta
      && |fs.Avail()| >= old(|fs.Avail()|) - (EdgeBlocks(nd.edgeCount - 1) + 1)
      && LinkDropped(old(fs.Now()), fs.Now(), newdir, newname, dst)
    ensures rc != OK ==>
      || (rc == EIO && fs.faults > old(fs.faults))
      || (rc == ENOSPC && old(|fs.Avail()|) < EdgeBlocks(nd.edgeCount - 1) + 1)
  {
    hide Image, View, Replay, Traced, TreeOk, UsedOk, ViewNode, Edges, EntryMap, EdgeBlocks, FreeSet, CountFreeNodes;
    ImageFacts(fs.crc, fs.disk, fs.live);
    TreeLengths(fs.g, fs.crc, fs.disk, fs.mp, fs.T, fs.dirty);
    EdgeBlocksSteps(nd.edgeCount, nd.edgeCount);
    NowIsDir(fs, newdir, nd);
    delta, od' := 0, od;
    var removed;
    rc, nd', removed := EdgeRemove(fs, newdir, nd, newname);
    if rc != OK { return; }
    if olddir == newdir { od' := nd'; }
    FreeNodesChange(old(fs.T.nodes), newdir, nd', fs.g.nodeCount);
    assert fs.Now() == DropEntry(old(fs.Now()), newdir, newname);
    TreeLengths(fs.g, fs.crc, fs.disk, fs.mp, fs.T, fs.dirty);
    rc, delta := DropRecord(fs, dst, dn);
    if rc != OK { return; }
    TreeLengths(fs.g, fs.crc, fs.disk, fs.mp, fs.T, fs.dirty);
    NowIsDir(fs, newdir, nd');
  }

  // Repoint a moved directory's parent field.
  method MoveParent(fs: Gfs, newdir: nat, src: nat, sn: DNode) returns (rc: Err)
    requires fs.Work() && IsNode(fs, src, sn) && src !in fs.dirty
    modifies fs`disk, fs`log, fs`faults, fs`working, fs`mp, fs`T, fs`dirty
    ensures fs.Steady(old(fs.faults)) && fs.Safe()
    ensures rc == OK ==>
      && fs.Work() && fs.dirty == old(fs.dirty) && |fs.Avail()| >= old(|fs.Avail()|) - 1
      && |fs.T.nodes| == old(|fs.T.nodes|) == MAX_NODES && fs.T.chains == old(fs.T.chains)
      && (forall i :: 0 <= i < MAX_NODES && i != src ==> fs.T.nodes[i] == old(fs.T.nodes)[i])
      && CountFreeNodes(fs.T.nodes, fs.g.nodeCount) == old(CountFreeNodes(fs.T.nodes, fs.g.nodeCount))
      && src < |old(fs.Now())| && fs.Now() == SetParent(old(fs.Now()), src, newdir)
    ensures rc != OK ==> (rc == EIO && fs.faults > old(fs.faults)) || (rc == ENOSPC && old(|fs.Avail()|) < 1)
  {
    hide Image, View, Replay, Traced, TreeOk, UsedOk, ViewNode, Edges, EntryMap, FreeSet, CountFreeNodes;
    ImageFacts(fs.crc, fs.disk, fs.live);
    TreeLengths(fs.g, fs.crc, fs.disk, fs.mp, fs.T, fs.dirty);
    ViewFree(fs.g, fs.disk, fs.T, src);
    ViewParent(fs.disk, sn, fs.T.chains[src]);
    rc := OK;
    if sn.typ == TNamespace && sn.parent != newdir {
      var sn' := sn.(parent := newdir);
      ViewTouched(fs.disk, sn, fs.T.chains[src], sn.nlink, newdir);
      ViewNlink(fs.disk, sn, fs.T.chains[src]);
      FreeNodesChange(fs.T.nodes, src, sn', fs.g.nodeCount);
      Touch(fs, src, sn');
      assert fs.Now() == SetParent(old(fs.Now()), src, newdir);
      rc := fs.NodeWrite(src, sn');
    }
  }

  ghost predicate NamePut(before: Fs, after: Fs, nd: nat, nn: Name, src: nat) {
    && nd < |before| && before[nd].Dir? && src < |before|
    && after == SetParent(AddEntry(before, nd, nn, src), src, nd)
  }

  // Add the new name, repoint a moved directory and write the directories back.
  method PutName(fs: Gfs, olddir: nat, od: DNode, newdir: nat, nd: DNode, newname: Name, src: nat, sn: DNode)
    returns (rc: Err)
    requires InHand(fs, olddir, od) && InHand(fs, newdir, nd) && newname !in EntriesOf(fs, newdir)
    requires fs.dirty <= {olddir, newdir} && IsNode(fs, src, sn) && src != olddir && src != newdir
    modifies fs`disk, fs`log, fs`faults, fs`working, fs`mp, fs`T, fs`dirty
    ensures fs.Steady(old(fs.faults)) && fs.Safe()
    ensures rc == OK ==>
      && fs.Work() && fs.dirty == {} && |fs.Avail()| >= old(|fs.Avail()|) - 4
      && CountFreeNodes(fs.T.nodes, fs.g.nodeCount) == old(CountFreeNodes(fs.T.nodes, fs.g.nodeCount))
      && NamePut(old(fs.Now()), fs.Now(), newdir, newname, src)
    ensures rc != OK ==> (rc == EIO && fs.faults > old(fs.faults)) || (rc == ENOSPC && old(|fs.Avail()|) < 4)
  {
    hide Image, View, Replay, Traced, TreeOk, UsedOk, ViewNode, Edges, EntryMap, FreeSet, CountFreeNodes, Gfs.Valid,
      Gfs.Safe, Gfs.Now;
    HandView(fs, newdir, nd);
    var nd';
    rc, nd' := EdgeAdd(fs, newdir, nd, src, newname);
    if rc != OK { return; }
    FreeNodesChange(old(fs.T.nodes), newdir, nd', fs.g.nodeCount);
    assert fs.Now() == AddEntry(old(fs.Now()), newdir, newname, src);
    var od' := if olddir == newdir then nd' else od;
    rc := MoveParent(fs, newdir, src, sn);
    if rc != OK { return; }
    rc := fs.NodeWrite(olddir, od');
    if rc != OK { return; }
    if olddir != newdir {
      rc := fs.NodeWrite(newdir, nd');
    }
  }

  lemma OutcomeReached(before: Fs, mid: Fs, after: Fs, od: nat, on: Name, nd: nat, nn: Name, p: Plan)
    requires NamesTaken(before, mid, od, on, nd, nn, p) && NamePut(mid, after, nd, nn, p.src)
    ensures od < |before| && before[od].Dir? && nd < |before| && before[nd].Dir? && p.src < |before|
    ensures p.haveDst ==>
      p.dst < |before| && !before[p.dst].Free? && before[p.dst].nlink > 0 && p.dst != od && p.dst != nd
    ensures after == Outcome(before, od, on, nd, nn, p)
  {}

  method RenameTxn(fs: Gfs, olddir: nat, oldname: Name, newdir: nat, newname: Name)
    returns (rc: Err, noop: bool, delta: int)
    requires fs.Work() && fs.dirty == {} && NameCheck(oldname) == OK && NameCheck(newname) == OK && TreeInv(fs.Now())
    modifies fs`disk, fs`log, fs`faults, fs`working, fs`mp, fs`T, fs`dirty
    ensures fs.Steady(old(fs.faults)) && fs.Safe()
    ensures rc == OK && noop ==> Rename(old(fs.Now()), olddir, oldname, newdir, newname) == Ok(old(fs.Now()))
    ensures rc == OK && !noop ==>
      && fs.Work() && fs.dirty == {} && |fs.Avail()| >= old(|fs.Avail()|) - DirSpace(old(fs.Now()), olddir, newdir)
      && CountFreeNodes(fs.T.nodes, fs.g.nodeCount) == old(CountFreeNodes(fs.T.nodes, fs.g.nodeCount)) + delta
      && Rename(old(fs.Now()), olddir, oldname, newdir, newname) == Ok(fs.Now())
    ensures rc != OK ==>
      Refused(rc, Rename(old(fs.Now()), olddir, oldname, newdir, newname), fs.faults > old(fs.faults), false,
                                 old(|fs.Avail()|) < DirSpace(old(fs.Now()), olddir, newdir))
  {
    hide Image, View, Replay, Traced, TreeOk, UsedOk, ViewNode, TreeInv, Edges, EntryMap, FreeSet, CountFreeNodes,
      NameCheck, Rename, EdgeBlocks, NamesTaken, NamePut, Outcome;
    var p;
    delta := 0;
    rc, noop, p := RenameCheck(fs, olddir, oldname, newdir, newname);
    if rc != OK || noop { return; }
    DirSize(fs, olddir, p.od);
    DirSize(fs, newdir, p.nd);
    var od, nd;
    rc, od, nd, delta := TakeNames(fs, olddir, oldname, newdir, newname, p);
    if rc != OK { return; }
    EdgeBlocksSteps(p.od.edgeCount, p.nd.edgeCount);
    ghost var mid := fs.Now();
    rc := PutName(fs, olddir, od, newdir, nd, newname, p.src, p.sn);
    if rc != OK { return; }
    OutcomeReached(old(fs.Now()), mid, fs.Now(), olddir, oldname, newdir, newname, p);
  }

  // Blocks a rename may take before its commit, from the sizes of the two directories.
  ghost function DirSpace(fs: Fs, od: nat, nd: nat): int {
    if od < |fs| && fs[od].Dir? && nd < |fs| && fs[nd].Dir?
    then EdgeBlocks(|fs[od].entries| - 1) + EdgeBlocks(|fs[nd].entries| - 1) + 5 else 0
  }

  method RenameName(fs: Gfs, olddir: nat, oldname: Name, newdir: nat, newname: Name) returns (rc: Err)
    requires fs.Valid() && TreeInv(fs.Stored())
    modifies fs
    ensures fs.Valid() && fs.disk == Replay(old(fs.disk), fs.log) && fs.Steady(old(fs.faults))
    ensures Atomic(fs.crc, old(fs.disk), fs.log, old(fs.live), fs.live)
    ensures rc == OK ==> Rename(old(fs.Stored()), olddir, oldname, newdir, newname) == Ok(fs.Stored())
    ensures rc != OK ==>
      && fs.live == old(fs.live) && fs.Stored() == old(fs.Stored())
      && Refused(rc, Rename(old(fs.Stored()), olddir, oldname, newdir, newname), fs.faults > old(fs.faults),
        !fs.writable,
                 old(fs.freeBlocks) < DirSpace(old(fs.Stored()), olddir, newdir) + 1)
  {
    hide Image, View, Replay, Traced, TreeOk, UsedOk, FreeSet, CountFreeNodes, Published, NameCheck, Atomic, Rename,
      TreeInv, DirSpace;
    ImageFacts(fs.crc, fs.disk, fs.live);
    ImageCounts(fs.crc, fs.disk, fs.live);
    StartCall(fs);
    CallUndone(fs);
    RenameBadName(fs.Stored(), olddir, oldname, newdir, newname);
    rc := NameCheck(oldname);
    if rc != OK { return; }
    rc := NameCheck(newname);
    if rc != OK { return; }
    rc := fs.TxnBegin();
    var noop, delta := false, 0;
    if rc == OK {
      rc, noop, delta := RenameTxn(fs, olddir, oldname, newdir, newname);
      if rc == OK && noop { CallUndone(fs); return; }
    }
    if rc == OK {
      rc := fs.TxnCommit(delta);
    }
    if rc != OK { CallUndone(fs); } else { CallDone(fs.crc, fs.base, fs.log, old(fs.live), fs.live); }
  }

  lemma RenameBadName(fs: Fs, od: nat, on: Name, nd: nat, nn: Name)
    requires TreeInv(fs)
    ensures NameCheck(on) != OK ==> Rename(fs, od, on, nd, nn) == Fail(NameCheck(on))
    ensures NameCheck(on) == OK && NameCheck(nn) != OK ==> Rename(fs, od, on, nd, nn) == Fail(NameCheck(nn))
  {}
}
