// Reading the namespace of a mounted filesystem: lookup, path resolution, node attributes and
// directory listing.
module GfsRead {
  import opened GfsTypes
  import opened Namespace
  import opened TreeTheory
  import opened Paths
  import opened GfsDisk
  import opened GfsCore
  import opened GfsEdgeMap
  import opened GfsEdges
  import opened GfsStage
  import opened GfsOps

  // Look a checked name up in a directory of the loaded tree.
  method LookupIn(fs: Gfs, dir: nat, name: Name) returns (rc: Err, out: nat)
    requires fs.Loaded() && fs.dirty == {}
    modifies fs`faults
    ensures fs.Steady(old(fs.faults))
    ensures rc == OK ==> LookupDir(fs.Now(), dir, name) == Ok(out)
    ensures rc != OK ==> (rc == EIO && fs.faults > old(fs.faults)) || LookupDir(fs.Now(), dir, name) == Fail(rc)
  {
    hide Image, View, Replay, Traced, TreeOk, Edges, EntryMap;
    out := 0;
    var d;
    rc, d := OpenDir(fs, dir);
    if rc != OK { return; }
    rc, out := EdgeLookup(fs, dir, d, name);
  }

  method LookupName(fs: Gfs, dir: nat, name: Name) returns (rc: Err, out: nat)
    requires fs.Valid()
    modifies fs`faults, fs`mp, fs`T, fs`dirty
    ensures fs.Valid() && fs.Steady(old(fs.faults))
    ensures rc == OK ==> Lookup(fs.Stored(), dir, name) == Ok(out)
    ensures rc != OK ==> (rc == EIO && fs.faults > old(fs.faults)) || Lookup(fs.Stored(), dir, name) == Fail(rc)
  {
    hide Image, View, Replay, Traced, TreeOk;
    out := 0;
    rc := NameCheck(name);
    if rc != OK { return; }
    rc := fs.MapLoad();
    if rc != OK { return; }
    rc, out := LookupIn(fs, dir, name);
  }

  // The component that starts at i; it fails only when it outgrows a name.
  method TakeWord(path: string, i: nat) returns (rc: Err, n: nat)
    requires i < |path| && path[i] != '/'
    ensures rc == OK ==> 0 < n <= NAME_MAX && i + n == WordEnd(path, i)
    ensures rc != OK ==> rc == ENAMETOOLONG && WordEnd(path, i) - i > NAME_MAX
  {
    n := 0;
    while i + n < |path| && path[i + n] != '/'
      invariant i + n <= |path| && n <= NAME_MAX
      invariant WordEnd(path, i) == WordEnd(path, i + n)
    {
      if n >= NAME_MAX { return ENAMETOOLONG, n; }
      n := n + 1;
    }
    rc := OK;
  }

  // One step of the walk along a path.
  lemma DescendStep(t: Fs, cur: nat, path: string, i: nat)
    requires i < |path|
    ensures path[i] == '/' ==> WordsFrom(path, i) == WordsFrom(path, i + 1)
    ensures path[i] != '/' ==> i < WordEnd(path, i) <= |path|
    ensures path[i] != '/' && WordEnd(path, i) - i > NAME_MAX ==>
      Descend(t, cur, WordsFrom(path, i)) == Fail(ENAMETOOLONG)
    ensures path[i] != '/' && WordEnd(path, i) - i <= NAME_MAX ==>
      Descend(t, cur, WordsFrom(path, i)) ==
      var r := LookupDir(t, cur, path[i..WordEnd(path, i)]);
      if r.Fail? then Fail(r.e) else Descend(t, r.v, WordsFrom(path, WordEnd(path, i)))
  {
    hide LookupDir;
    if path[i] != '/' { assert WordsFrom(path, i)[1..] == WordsFrom(path, WordEnd(path, i)); }
  }

  method ResolvePath(fs: Gfs, path: string) returns (rc: Err, out: nat)
    requires fs.Valid()
    modifies fs`faults, fs`mp, fs`T, fs`dirty
    ensures fs.Valid() && fs.Steady(old(fs.faults))
    ensures rc == OK ==> Resolve(fs.Stored(), path) == Ok(out)
    ensures rc != OK ==> (rc == EIO && fs.faults > old(fs.faults)) || Resolve(fs.Stored(), path) == Fail(rc)
  {
    hide Image, View, Replay, Traced, TreeOk, LookupDir, Descend, WordsFrom, WordEnd;
    out := 0;
    if path == "" || path[0] != '/' { return EINVAL, out; }
    rc := fs.MapLoad();
    if rc != OK { return; }
    ghost var t := fs.Stored();
    var cur := ROOT;
    var i := 0;
    while i < |path|
      invariant i <= |path|
      invariant fs.Loaded() && fs.dirty == {} && fs.Now() == t == fs.Stored() && fs.Steady(old(fs.faults))
      invariant Descend(t, ROOT, Components(path)) == Descend(t, cur, WordsFrom(path, i))
      decreases |path| - i
    {
      DescendStep(t, cur, path, i);
      if path[i] == '/' {
        i := i + 1;
      } else {
        var n;
        rc, n := TakeWord(path, i);
        if rc != OK { return; }
        rc, cur := LookupIn(fs, cur, path[i..i + n]);
        if rc != OK { return; }
        i := i + n;
      }
    }
    assert Descend(t, cur, WordsFrom(path, i)) == Ok(cur) by { DescendDone(t, cur, path); }
    return OK, cur;
  }

  lemma DescendDone(t: Fs, cur: nat, path: string)
    ensures Descend(t, cur, WordsFrom(path, |path|)) == Ok(cur)
  {}

  // The attributes gfs_node_get reports.
  datatype Stat = Stat(dir: bool, mode: nat, size: nat, nlink: nat, edges: nat, parent: nat)

  function StatOf(n: Node): Stat
    requires !n.Free?
  {
    match n
    case Dir(es, p, l, m) => Stat(true, m, 0, l, |es|, p)
    case File(c, l, m) => Stat(false, m, |c|, l, 0, 0)
  }

  // Records and the abstract nodes they stand for have the same attributes.
  lemma StatFacts(fs: Gfs, id: nat, n: DNode)
    requires fs.Loaded() && 0 < id < fs.g.nodeCount && n == fs.T.nodes[id] && n.typ != TFree
    ensures !fs.Now()[id].Free?
    ensures StatOf(fs.Now()[id]) == Stat(n.typ == TNamespace, n.mode, n.size, n.nlink, n.edgeCount, n.parent)
  {
    hide Image, Replay, Traced, TableOk, RecOk, OwnerOk, UsedOk, Edges, EntryMap, DataOk, ChainOk;
    ImageFacts(fs.crc, fs.disk, fs.live);
    assert NodeOk(fs.g, fs.crc, fs.disk, fs.T, id);
    if n.typ == TNamespace { EntryMapSize(Edges(fs.disk, fs.T.chains[id])); }
  }

  method NodeGet(fs: Gfs, id: nat) returns (rc: Err, st: Stat)
    requires fs.Valid()
    modifies fs`faults, fs`mp, fs`T, fs`dirty
    ensures fs.Valid() && fs.Steady(old(fs.faults))
    ensures rc == OK ==> 0 < id < |fs.Stored()| && !fs.Stored()[id].Free? && st == StatOf(fs.Stored()[id])
    ensures rc == OK ==>
      var n := fs.Stored()[id];
      && st.mode == n.mode && st.nlink == n.nlink && (st.dir <==> n.Dir?)
      && (n.File? ==> st.size == |n.content|) && (n.Dir? ==> st.edges == |n.entries| && st.parent == n.parent)
    ensures rc == EINVAL ==> id == 0 || id >= |fs.Stored()|
    ensures rc == ENOENT ==> 0 < id < |fs.Stored()| && fs.Stored()[id].Free?
    ensures rc !in {OK, EINVAL, ENOENT} ==> rc == EIO && fs.faults > old(fs.faults)
  {
    hide Image, View, Replay, Traced, TreeOk;
    st := Stat(false, 0, 0, 0, 0, 0);
    rc := fs.MapLoad();
    if rc != OK { return; }
    ImageFacts(fs.crc, fs.disk, fs.live);
    TreeLengths(fs.g, fs.crc, fs.disk, fs.mp, fs.T, fs.dirty);
    var n;
    rc, n := fs.NodeRead(id);
    if rc != OK { return; }
    ViewFree(fs.g, fs.disk, fs.T, id);
    if n.typ == TFree { return ENOENT, st; }
    StatFacts(fs, id, n);
    st := Stat(n.typ == TNamespace, n.mode, n.size, n.nlink, n.edgeCount, n.parent);
  }

  // ---- listing --------------------------------------------------------------------------------------

  // The edges of a node in listing order.
  ghost function Listing(fs: Gfs, id: nat): seq<Edge>
    reads fs
  {
    if id < |fs.live.T.chains| then Edges(fs.disk, fs.live.T.chains[id]) else []
  }

  // A listing names every entry exactly once.
  lemma ListingIsEntries(fs: Gfs, id: nat)
    requires fs.Valid() && 0 < id < |fs.Stored()| && fs.Stored()[id].Dir?
    ensures NamesUnique(Listing(fs, id)) && |Listing(fs, id)| == |fs.Stored()[id].entries|
    ensures forall nm, t :: Edge(nm, t) in Listing(fs, id) <==> IsLink(fs.Stored(), id, nm, t)
  {
    hide Image, Replay, Traced, TableOk, RecOk, OwnerOk, UsedOk, Edges, EntryMap, ChainOk;
    ImageFacts(fs.crc, fs.disk, fs.live);
    ViewFree(fs.g, fs.disk, fs.live.T, id);
    ChainFacts(fs.g, fs.crc, fs.disk, fs.live.mp, fs.live.T, {}, id);
    var es := Listing(fs, id);
    EntryMapSize(es);
    forall nm, t ensures Edge(nm, t) in es <==> IsLink(fs.Stored(), id, nm, t) {
      if t >= 0 { EntryMapMember(es, nm, t); }
    }
  }

  // The edge at position index of a sound chain.
  method EdgeAt(fs: Gfs, ghost chain: seq<nat>, head: Bp, index: nat) returns (rc: Err, e: Edge)
    requires fs.g.total <= |fs.disk| && ChainOk(fs.crc, fs.disk, head, chain)
    requires forall i :: 0 <= i < |chain| ==> chain[i] < fs.g.total
    requires index < |Edges(fs.disk, chain)|
    modifies fs`faults
    ensures fs.Steady(old(fs.faults))
    ensures rc == OK ==> e == Edges(fs.disk, chain)[index]
    ensures rc != OK ==> rc == EIO && fs.faults > old(fs.faults)
  {
    hide ChainOk, Edges, HeadOf;
    assert chain[..|chain|] == chain;
    var cur := head;
    ghost var k: nat := |chain|;
    ghost var seen: seq<Edge> := [];
    HeadFacts(fs.crc, fs.disk, cur, chain);
    e := Edge("", 0);
    rc := ECORRUPT;
    var running := 0;
    while cur.phys != 0 && rc == ECORRUPT
      invariant k <= |chain| && cur == HeadOf(fs.crc, fs.disk, chain[..k])
      invariant Edges(fs.disk, chain) == seen + Edges(fs.disk, chain[..k]) && running == |seen|
      invariant rc == ECORRUPT ==> running <= index
      invariant rc != ECORRUPT ==> rc == OK && e == Edges(fs.disk, chain)[index]
      invariant fs.Steady(old(fs.faults))
      decreases k, rc == ECORRUPT
    {
      WalkStep(fs.crc, fs.disk, head, chain, k, cur);
      var b, rc';
      rc', b := fs.ReadMeta(cur);
      if rc' != OK { return rc', e; }
      if index < running + |b.edges| {
        e := b.edges[index - running];
        rc := OK;
      } else {
        running := running + |b.edges|;
        seen := seen + b.edges;
        cur := b.next;
        k := k - 1;
      }
    }
    MoreToWalk(fs.crc, fs.disk, head, chain, k);
  }

  lemma MoreToWalk(crc: Crc, disk: Disk, head: Bp, chain: seq<nat>, k: nat)
    requires ChainOk(crc, disk, head, chain) && k <= |chain|
    ensures Edges(disk, chain[..k]) != [] ==> HeadOf(crc, disk, chain[..k]).phys != 0
  {
    WalkEnd(crc, disk, head, chain, k);
  }

  method EdgeGet(fs: Gfs, id: nat, index: nat) returns (rc: Err, e: Edge)
    requires fs.Valid()
    modifies fs`faults, fs`mp, fs`T, fs`dirty
    ensures fs.Valid() && fs.Steady(old(fs.faults))
    ensures rc == OK ==>
      0 < id < |fs.Stored()| && fs.Stored()[id].Dir? && index < |Listing(fs, id)| && e == Listing(fs, id)[index]
    ensures rc == ENOENT ==> 0 < id < |fs.Stored()| && fs.Stored()[id].Free?
    ensures rc == EINVAL ==> id == 0 || id >= |fs.Stored()| || index >= |Listing(fs, id)|
    ensures rc !in {OK, EINVAL, ENOENT} ==> rc == EIO && fs.faults > old(fs.faults)
  {
    hide Image, View, Replay, Traced, TreeOk, Edges, EntryMap, StatOf;
    e := Edge("", 0);
    rc := fs.MapLoad();
    if rc != OK { return; }
    ImageFacts(fs.crc, fs.disk, fs.live);
    TreeLengths(fs.g, fs.crc, fs.disk, fs.mp, fs.T, fs.dirty);
    var n;
    rc, n := fs.NodeRead(id);
    if rc != OK { return; }
    ViewFree(fs.g, fs.disk, fs.T, id);
    if n.typ == TFree { return ENOENT, e; }
    EdgeCountFacts(fs, id, n);
    if index >= n.edgeCount { return EINVAL, e; }
    ChainFacts(fs.g, fs.crc, fs.disk, fs.mp, fs.T, fs.dirty, id);
    rc, e := EdgeAt(fs, fs.T.chains[id], n.edgeHead, index);
  }

  lemma EdgeCountFacts(fs: Gfs, id: nat, n: DNode)
    requires fs.Loaded() && fs.T == fs.live.T && 0 < id < fs.g.nodeCount && n == fs.T.nodes[id] && n.typ != TFree
    ensures n.edgeCount == |Listing(fs, id)| && (n.edgeCount > 0 ==> n.typ == TNamespace)
  {
    hide Image, Replay, Traced, TableOk, RecOk, OwnerOk, UsedOk, EntryMap, DataOk, ChainOk;
    ImageFacts(fs.crc, fs.disk, fs.live);
    assert NodeOk(fs.g, fs.crc, fs.disk, fs.T, id);
  }
}
