// The checker: a census of every block and every NAME edge. On an image whose blocks are intact, whatever its namespace
// looks like, and with a device that answers, it is silent exactly when names, link counts and parents agree.
module GfsFsck {
  import opened GfsTypes
  import opened Namespace
  import opened TreeTheory
  import opened GfsDisk
  import opened GfsFrame
  import opened GfsCore
  import opened GfsEdgeMap
  import opened GfsEdges
  import opened GfsExtents
  import opened GfsStage
  import opened GfsFile

  // struct fsck_ctx
  class Census {
    var shadow: seq<bool>   // blocks met so far
    var nlink: seq<nat>     // NAME edges met, by target
    var parent: seq<nat>    // the last node met that names the target
    var present: seq<bool>  // nodes in use
    var errors: nat

    constructor (total: nat, nodes: nat)
      ensures errors == 0 && |shadow| == total && |nlink| == |parent| == |present| == nodes
      ensures (forall b :: 0 <= b < total ==> !shadow[b]) && forall i :: 0 <= i < nodes ==> nlink[i] == 0 && !present[i]
    {
      shadow, present := seq(total, i => false), seq(nodes, i => false);
      nlink, parent, errors := seq(nodes, i => 0), seq(nodes, i => 0), 0;
    }

    ghost predicate Shaped(g: Geo)
      reads this
    {
      |shadow| == g.total && |nlink| == |parent| == |present| == g.nodeCount
    }

    // fsck_err, when the finding holds.
    method Note(bad: bool)
      modifies this`errors
      ensures errors == old(errors) + (if bad then 1 else 0)
    {
      if bad { errors := errors + 1; }
    }

    method Mark(blk: nat)
      modifies this`shadow, this`errors
      ensures |shadow| == old(|shadow|)
      ensures blk < |shadow| && !old(shadow)[blk] ==> shadow == old(shadow)[blk := true] && errors == old(errors)
      ensures !(blk < |shadow| && !old(shadow)[blk]) ==> shadow == old(shadow) && errors == old(errors) + 1
    {
      if blk >= |shadow| || shadow[blk] {
        errors := errors + 1;
      } else {
        shadow := shadow[blk := true];
      }
    }
  }

  // ---- counting NAME edges -------------------------------------------------------------------------------

  function CountTo(es: seq<Edge>, t: nat): nat {
    if es == [] then 0 else CountTo(es[..|es| - 1], t) + (if es[|es| - 1].target == t then 1 else 0)
  }

  lemma {:induction false} CountToAppend(a: seq<Edge>, b: seq<Edge>, t: nat)
    ensures CountTo(a + b, t) == CountTo(a, t) + CountTo(b, t)
    decreases |b|
  {
    if b == [] {
      assert a + b == a;
    } else {
      assert (a + b)[..|a + b| - 1] == a + b[..|b| - 1];
      CountToAppend(a, b[..|b| - 1], t);
    }
  }

  ghost function LinkSet(d: nat, es: seq<Edge>, t: nat): set<Link> {
    set e | e in es && e.target == t :: Link(d, e.name)
  }

  lemma {:induction false} CountIsLinks(d: nat, es: seq<Edge>, t: nat)
    requires NamesUnique(es)
    ensures CountTo(es, t) == |LinkSet(d, es, t)|
    decreases |es|
  {
    if es != [] {
      var rest, e := es[..|es| - 1], es[|es| - 1];
      CountIsLinks(d, rest, t);
      assert es == rest + [e];
      if e.target == t {
        assert LinkSet(d, es, t) == LinkSet(d, rest, t) + {Link(d, e.name)};
        assert Link(d, e.name) !in LinkSet(d, rest, t);
      } else {
        assert LinkSet(d, es, t) == LinkSet(d, rest, t);
      }
    }
  }

  function EdgesOf(disk: Disk, T: Tree, d: nat): seq<Edge> {
    if d < |T.chains| then Edges(disk, T.chains[d]) else []
  }

  // NAME edges to t from the nodes below n.
  function EdgesTo(disk: Disk, T: Tree, n: nat, t: nat): nat {
    if n == 0 then 0 else EdgesTo(disk, T, n - 1, t) + CountTo(EdgesOf(disk, T, n - 1), t)
  }

  ghost function LinksBelow(fs: Fs, n: nat, t: nat): set<Link> {
    set d, nm | 0 <= d < n && d < |fs| && nm in Entries(fs[d]) && Entries(fs[d])[nm] == t :: Link(d, nm)
  }

  // The edges of every node are the entries of the node it stands for.
  ghost predicate Faithful(disk: Disk, T: Tree, fs: Fs) {
    forall d: nat :: d < |fs| ==> NamesUnique(EdgesOf(disk, T, d)) && EntryMap(EdgesOf(disk, T, d)) == Entries(fs[d])
  }

  lemma LinkSetMember(d: nat, es: seq<Edge>, t: nat, l: Link)
    requires NamesUnique(es)
    ensures l in LinkSet(d, es, t) <==> l.d == d && l.nm in EntryMap(es) && EntryMap(es)[l.nm] == t
  {
    hide EntryMap;
    EntryMapMember(es, l.nm, t);
    assert Edge(l.nm, t) in es && l.d == d ==> l == Link(d, Edge(l.nm, t).name);
  }

  lemma LinksBelowMember(fs: Fs, n: nat, t: nat, l: Link)
    ensures l in LinksBelow(fs, n, t) <==> l.d < n && IsLink(fs, l.d, l.nm, t)
  {}

  lemma {:induction false} EdgesAreLinks(disk: Disk, T: Tree, fs: Fs, n: nat, t: nat)
    requires Faithful(disk, T, fs) && n <= |fs|
    ensures EdgesTo(disk, T, n, t) == |LinksBelow(fs, n, t)|
    decreases n
  {
    hide EntryMap, Edges, EdgesOf, LinksBelow, LinkSet, NamesUnique, CountTo;
    if n == 0 {
      forall l: Link ensures l !in LinksBelow(fs, 0, t) { LinksBelowMember(fs, 0, t, l); }
      assert LinksBelow(fs, 0, t) == {};
    } else {
      var d := n - 1;
      var es := EdgesOf(disk, T, d);
      assert NamesUnique(es) && EntryMap(es) == Entries(fs[d]);
      EdgesAreLinks(disk, T, fs, d, t);
      CountIsLinks(d, es, t);
      var below, here := LinksBelow(fs, d, t), LinkSet(d, es, t);
      forall l: Link
        ensures l in LinksBelow(fs, n, t) <==> l in below || l in here
        ensures !(l in below && l in here)
      {
        LinksBelowMember(fs, n, t, l);
        LinksBelowMember(fs, d, t, l);
        LinkSetMember(d, es, t, l);
      }
      assert LinksBelow(fs, n, t) == below + here;
      assert |below + here| == |below| + |here|;
    }
  }

  lemma TreeIsFaithful(g: Geo, crc: Crc, disk: Disk, mp: seq<Bp>, T: Tree)
    requires g.Ok() && TreeOk(g, crc, disk, mp, T, {})
    ensures Faithful(disk, T, View(g, disk, T))
  {
    hide TableOk, RecOk, OwnerOk, ChainOk, DataOk;
    var fs := View(g, disk, T);
    forall d: nat | d < |fs|
      ensures NamesUnique(EdgesOf(disk, T, d)) && EntryMap(EdgesOf(disk, T, d)) == Entries(fs[d]) {
      assert NodeOk(g, crc, disk, T, d);
    }
  }

  // ---- what has been met -----------------------------------------------------------------------------------

  // What the checker reads: geometry, node map block, device and tree.
  datatype Src = Src(g: Geo, mapPhys: nat, disk: Disk, T: Tree)

  ghost function SrcOf(fs: Gfs): Src
    reads fs
  {
    Src(fs.g, fs.nodemap.phys, fs.disk, fs.T)
  }

  // Block b is reserved, the node map, one of the first bi table blocks or a block of one of the
  // first id nodes.
  ghost predicate Reached(s: Src, bi: nat, id: nat, b: nat) {
    || b < s.g.DataFirst()
    || b == s.mapPhys
    || (b in s.T.owner && match s.T.owner[b] case OTable(i) => i < bi case ONode(i) => i < id)
  }

  // The checker runs on a mounted filesystem whose blocks are intact; its namespace may be anything.
  ghost predicate Checking(fs: Gfs)
    reads fs
  {
    fs.Loaded() && fs.dirty == {} && fs.T == fs.live.T
  }

  // Whatever the device did, nothing beyond (bi, id) has been met.
  ghost predicate Within(s: Src, shadow: seq<bool>, bi: nat, id: nat) {
    |shadow| == s.g.total && forall b: nat :: b < s.g.total && shadow[b] ==> Reached(s, bi, id, b)
  }

  // All blocks below (bi, id) have been met.
  ghost predicate Blocks(s: Src, shadow: seq<bool>, bi: nat, id: nat) {
    |shadow| == s.g.total && forall b: nat :: b < s.g.total && Reached(s, bi, id, b) ==> shadow[b]
  }

  ghost predicate Names(s: Src, d: nat, t: nat) {
    exists e :: e in EdgesOf(s.disk, s.T, d) && e.target == t
  }

  // All edges and records of the first id nodes have been met.
  ghost predicate Nodes(s: Src, nlink: seq<nat>, parent: seq<nat>, present: seq<bool>, id: nat) {
    && |nlink| == |parent| == |present| == s.g.nodeCount <= |s.T.nodes|
    && (forall t: nat :: 0 < t < s.g.nodeCount ==> nlink[t] == EdgesTo(s.disk, s.T, id, t))
    && (forall t: nat :: 0 < t < s.g.nodeCount && nlink[t] > 0 ==> Names(s, parent[t], t))
    && (forall i: nat :: i < s.g.nodeCount ==> (present[i] <==> i < id && s.T.nodes[i].typ != TFree))
  }

  ghost predicate Met(s: Src, c: Census, bi: nat, id: nat)
    reads c
  {
    c.errors == 0 && Blocks(s, c.shadow, bi, id) && Nodes(s, c.nlink, c.parent, c.present, id)
  }

  // ---- pass 1 ------------------------------------------------------------------------------------------------

  method MarkRange(c: Census, lo: nat, len: nat)
    requires lo + len <= |c.shadow| && forall b :: lo <= b < lo + len ==> !c.shadow[b]
    modifies c`shadow, c`errors
    ensures c.errors == old(c.errors) && |c.shadow| == old(|c.shadow|)
    ensures forall b :: 0 <= b < |c.shadow| ==> (c.shadow[b] <==> old(c.shadow)[b] || lo <= b < lo + len)
  {
    var j := 0;
    while j < len
      invariant j <= len && c.errors == old(c.errors) && |c.shadow| == old(|c.shadow|)
      invariant forall b :: 0 <= b < |c.shadow| ==> (c.shadow[b] <==> old(c.shadow)[b] || lo <= b < lo + j)
    {
      c.Mark(lo + j);
      j := j + 1;
    }
  }

  // Two superblocks, two bitmap copies and the node map.
  method MarkReserved(c: Census, g: Geo, mapPhys: nat)
    requires g.Ok() && |c.shadow| == g.total && g.DataFirst() <= mapPhys < g.total && forall b :: 0 <= b < g.total ==>
      !c.shadow[b]
    modifies c`shadow, c`errors
    ensures c.errors == old(c.errors) && |c.shadow| == g.total
    ensures forall b :: 0 <= b < g.total ==> (c.shadow[b] <==> b < g.DataFirst() || b == mapPhys)
  {
    c.Mark(0);
    c.Mark(1);
    MarkRange(c, BM_START, g.bmBlocks);
    MarkRange(c, BM_START + g.bmBlocks, g.bmBlocks);
    c.Mark(mapPhys);
  }

  // No block lies in two extents.
  ghost predicate Apart(ext: seq<Extent>) {
    forall i, j, b: nat :: 0 <= i < j < |ext| ==> !(InRun(ext[i], b) && InRun(ext[j], b))
  }

  lemma ExtentsApart(g: Geo, ext: seq<Extent>, size: nat)
    requires ExtOk(g, ext, size) && DataInj(ext)
    ensures Apart(ext)
  {
    forall i, j, b: nat | 0 <= i < j < |ext| ensures !(InRun(ext[i], b) && InRun(ext[j], b)) {
      if InRun(ext[i], b) && InRun(ext[j], b) {
        var l, m := ext[i].logical + (b - ext[i].phys), ext[j].logical + (b - ext[j].phys);
        BmapAt(ext, i, l);
        BmapAt(ext, j, m);
      }
    }
  }

  method MarkExtents(c: Census, ext: seq<Extent>)
    requires Apart(ext) && forall e :: e in ext ==> e.len > 0
    requires forall b: nat :: Listed(ext, |ext|, b) ==> b < |c.shadow| && !c.shadow[b]
    modifies c`shadow, c`errors
    ensures c.errors == old(c.errors) && |c.shadow| == old(|c.shadow|)
    ensures forall b: nat :: b < |c.shadow| ==> (c.shadow[b] <==> old(c.shadow)[b] || Listed(ext, |ext|, b))
  {
    var e := 0;
    while e < |ext|
      invariant e <= |ext| && c.errors == old(c.errors) && |c.shadow| == old(|c.shadow|)
      invariant forall b: nat :: b < |c.shadow| ==> (c.shadow[b] <==> old(c.shadow)[b] || Listed(ext, e, b))
    {
      ghost var before := c.shadow;
      forall b: nat | InRun(ext[e], b) ensures b < |c.shadow| && !c.shadow[b] {
        assert Listed(ext, |ext|, b);
      }
      RunInside(ext[e], |c.shadow|);
      MarkRange(c, ext[e].phys, ext[e].len);
      forall b: nat | b < |c.shadow| ensures c.shadow[b] <==> old(c.shadow)[b] || Listed(ext, e + 1, b) {
        ListedNext(ext, e, b);
        assert c.shadow[b] <==> before[b] || InRun(ext[e], b);
      }
      e := e + 1;
    }
  }

  lemma RunInside(e: Extent, n: nat)
    requires e.len > 0 && forall b: nat :: InRun(e, b) ==> b < n
    ensures e.phys + e.len <= n
  {
    assert InRun(e, e.phys + e.len - 1);
  }

  lemma ListedNext(ext: seq<Extent>, e: nat, b: nat)
    requires e < |ext|
    ensures Listed(ext, e + 1, b) <==> Listed(ext, e, b) || InRun(ext[e], b)
  {
    if Listed(ext, e, b) {
      var k: nat :| k < e && k < |ext| && InRun(ext[k], b);
      assert k < e + 1;
    }
  }

  // The records of one edge block; a target out of range is passed over.
  method CountBlock(c: Census, es: seq<Edge>, id: nat)
    requires |c.nlink| == |c.parent|
    modifies c`nlink, c`parent
    ensures |c.nlink| == |c.parent| == old(|c.nlink|)
    ensures forall t: nat :: 0 < t < |c.nlink| ==> c.nlink[t] == old(c.nlink)[t] + CountTo(es, t)
    ensures forall t: nat :: 0 < t < |c.nlink| ==> c.parent[t] == if CountTo(es, t) > 0 then id else old(c.parent)[t]
  {
    var r := 0;
    while r < |es|
      invariant r <= |es| && |c.nlink| == |c.parent| == old(|c.nlink|)
      invariant forall t: nat :: 0 < t < |c.nlink| ==> c.nlink[t] == old(c.nlink)[t] + CountTo(es[..r], t)
      invariant forall t: nat :: 0 < t < |c.nlink| ==> c.parent[t] == if CountTo(es[..r], t) > 0 then id
        else old(c.parent)[t]
    {
      var tgt := es[r].target;
      assert es[..r + 1][..r] == es[..r];
      if 0 < tgt < |c.nlink| {
        c.nlink := c.nlink[tgt := c.nlink[tgt] + 1];
        c.parent := c.parent[tgt := id];
      }
      r := r + 1;
    }
    assert es[..r] == es;
  }

  lemma ChainShort(chain: seq<nat>, n: nat)
    requires (forall i :: 0 <= i < |chain| ==> 0 < chain[i] < n) && forall i, j :: 0 <= i < j < |chain| ==>
      chain[i] != chain[j]
    ensures |chain| <= n
  {
    DistinctSize(chain);
    BoundedSet(ChainSet(chain), n);
  }

  lemma {:induction false} DistinctSize(chain: seq<nat>)
    requires forall i, j :: 0 <= i < j < |chain| ==> chain[i] != chain[j]
    ensures |ChainSet(chain)| == |chain|
  {
    if chain != [] {
      var rest, b := chain[..|chain| - 1], chain[|chain| - 1];
      DistinctSize(rest);
      assert chain == rest + [b];
      assert ChainSet(chain) == ChainSet(rest) + {b};
      assert b !in ChainSet(rest);
    }
  }

  // The part of the census an edge walk changes.
  datatype Tally = Tally(shadow: seq<bool>, nlink: seq<nat>, parent: seq<nat>, errors: nat)

  ghost function TallyOf(c: Census): Tally
    reads c
  {
    Tally(c.shadow, c.nlink, c.parent, c.errors)
  }

  // From a to b: the blocks of chain[k..] were met, and their edges es counted for node id.
  ghost predicate Walked(a: Tally, b: Tally, chain: seq<nat>, k: nat, es: seq<Edge>, id: nat)
    requires k <= |chain|
  {
    && |b.shadow| == |a.shadow| && |b.nlink| == |b.parent| == |a.nlink| == |a.parent| && b.errors == a.errors
    && (forall x: nat :: x < |b.shadow| ==> (b.shadow[x] <==> a.shadow[x] || x in chain[k..]))
    && (forall t: nat :: 0 < t < |b.nlink| ==> b.nlink[t] == a.nlink[t] + CountTo(es, t))
    && (forall t: nat :: 0 < t < |b.nlink| ==> b.parent[t] == if CountTo(es, t) > 0 then id else a.parent[t])
  }

  lemma WalkedNext(a: Tally, b: Tally, b': Tally, chain: seq<nat>, k: nat, es: seq<Edge>, more: seq<Edge>, id: nat)
    requires 0 < k <= |chain| && Walked(a, b, chain, k, es, id) && chain[k - 1] < |b.shadow|
    requires b'.shadow == b.shadow[chain[k - 1] := true] && b'.errors == b.errors
      && |b'.nlink| == |b'.parent| == |b.nlink|
    requires forall t: nat :: 0 < t < |b.nlink| ==> b'.nlink[t] == b.nlink[t] + CountTo(more, t)
    requires forall t: nat :: 0 < t < |b.nlink| ==> b'.parent[t] == if CountTo(more, t) > 0 then id else b.parent[t]
    ensures Walked(a, b', chain, k - 1, es + more, id)
  {
    assert chain[k - 1..] == [chain[k - 1]] + chain[k..];
    forall t: nat | t < |b.nlink|
      ensures CountTo(es + more, t) == CountTo(es, t) + CountTo(more, t)
    {
      CountToAppend(es, more, t);
    }
  }

  method WalkEdges(fs: Gfs, c: Census, id: nat, head: Bp, ghost chain: seq<nat>) returns (seen: nat)
    requires fs.g.total <= |fs.disk| && ChainOk(fs.crc, fs.disk, head, chain)
    requires forall i :: 0 <= i < |chain| ==> chain[i] < fs.g.total == |c.shadow| && !c.shadow[chain[i]]
    requires |c.nlink| == |c.parent|
    modifies fs`faults, c`shadow, c`errors, c`nlink, c`parent
    ensures fs.Steady(old(fs.faults))
    ensures |c.shadow| == old(|c.shadow|) && |c.nlink| == |c.parent| == old(|c.nlink|)
    ensures forall b: nat :: b < |c.shadow| && c.shadow[b] ==> old(c.shadow)[b] || b in chain
    ensures fs.faults == old(fs.faults) ==>
      Walked(old(TallyOf(c)), TallyOf(c), chain, 0, Edges(fs.disk, chain), id) && seen == |Edges(fs.disk, chain)|
  {
    hide ChainOk, Edges, HeadOf, CountTo;
    assert chain[..|chain|] == chain && chain[|chain|..] == [];
    ghost var t0 := TallyOf(c);
    ghost var k: nat := |chain|;
    ghost var es: seq<Edge> := [];
    var cur := head;
    HeadFacts(fs.crc, fs.disk, cur, chain);
    GfsEdges.ChainDistinct(fs.crc, fs.disk, head, chain);
    ChainPositive(fs.crc, fs.disk, head, chain);
    ChainShort(chain, fs.g.total);
    seen := 0;
    var guard := 0;
    NothingWalked(t0, chain, id);
    while cur.phys != 0 && guard < fs.g.total
      invariant k <= |chain| && cur == HeadOf(fs.crc, fs.disk, chain[..k]) && guard == |chain| - k
      invariant Edges(fs.disk, chain) == es + Edges(fs.disk, chain[..k]) && seen == |es|
      invariant fs.faults == old(fs.faults) && Walked(t0, TallyOf(c), chain, k, es, id)
      decreases k
    {
      WalkStep(fs.crc, fs.disk, head, chain, k, cur);
      guard := guard + 1;
      ghost var before := TallyOf(c);
      c.Mark(cur.phys);
      var rc, b := fs.ReadMeta(cur);
      c.Note(rc != OK);
      if rc != OK { return; }
      c.Note(|b.edges| > EDGES_PER_BLOCK);
      CountBlock(c, b.edges, id);
      WalkedNext(t0, before, TallyOf(c), chain, k, es, b.edges, id);
      seen := seen + |b.edges|;
      es := es + b.edges;
      cur := b.next;
      k := k - 1;
    }
    WalkEnd(fs.crc, fs.disk, head, chain, k);
    NoEdges(fs.disk, chain[..k]);
    assert Edges(fs.disk, chain) == es;
  }

  lemma NothingWalked(a: Tally, chain: seq<nat>, id: nat)
    requires |a.nlink| == |a.parent|
    ensures Walked(a, a, chain, |chain|, [], id)
  {}

  lemma ChainPositive(crc: Crc, disk: Disk, head: Bp, chain: seq<nat>)
    requires ChainOk(crc, disk, head, chain)
    ensures forall i: nat :: i < |chain| ==> 0 < chain[i]
  {
    forall i: nat | i < |chain| ensures 0 < chain[i] { assert EdgeBlockOk(crc, disk, chain, i); }
  }

  // No extent passes the end of file, and the bytes past it in the last block are zero.
  ghost predicate EndIsClean(disk: Disk, n: DNode) {
    && (forall e :: 0 <= e < |n.ext| ==> n.ext[e].logical + n.ext[e].len <= Nblocks(n.size))
    && (n.size % BLOCK != 0 ==> TailZero(disk, n.ext, n.size))
  }

  ghost predicate LastReadable(g: Geo, disk: Disk, n: DNode) {
    g.total <= |disk| && (Bmap(n.ext, n.size / BLOCK) != 0 ==>
      Bmap(n.ext, n.size / BLOCK) < g.total && IsData(disk, Bmap(n.ext, n.size / BLOCK)))
  }

  // The checks on a DATA node: with a healthy device, silent exactly when its end is clean.
  method CheckTail(fs: Gfs, c: Census, n: DNode)
    requires LastReadable(fs.g, fs.disk, n)
    modifies fs`faults, c`errors
    ensures fs.Steady(old(fs.faults)) && c.errors >= old(c.errors)
    ensures EndIsClean(fs.disk, n) ==> c.errors == old(c.errors)
    ensures fs.faults == old(fs.faults) && c.errors == old(c.errors) ==> EndIsClean(fs.disk, n)
  {
    hide Bmap;
    var nblocks := Nblocks(n.size);
    var e := 0;
    while e < |n.ext|
      invariant e <= |n.ext| && c.errors >= old(c.errors) && fs.faults == old(fs.faults)
      invariant c.errors == old(c.errors) <==> forall i :: 0 <= i < e ==> n.ext[i].logical + n.ext[i].len <= nblocks
    {
      c.Note(n.ext[e].logical + n.ext[e].len > nblocks);
      e := e + 1;
    }
    var tail := n.size % BLOCK;
    var lastp := if tail != 0 then Bmap(n.ext, n.size / BLOCK) else 0;
    if lastp != 0 {
      var rc, b := fs.BRead(lastp);
      if rc == OK {
        var i := tail;
        while i < BLOCK && b.bytes[i] == 0
          invariant tail <= i <= BLOCK && forall k :: tail <= k < i ==> b.bytes[k] == 0
        {
          i := i + 1;
        }
        c.Note(i < BLOCK);
      }
    }
  }

  lemma EndFacts(fs: Gfs, id: nat, n: DNode)
    requires FileInView(fs, id, n)
    ensures LastReadable(fs.g, fs.disk, n) && EndIsClean(fs.disk, n)
  {
    hide Image, View, Replay, Traced, TreeOk, ViewNode, Content, Bmap, DataInj;
    FileFacts(fs, id, n);
  }

  // What node id adds to the blocks met.
  lemma ReachedNode(s: Src, bi: nat, id: nat, b: nat)
    requires id < |s.T.nodes| && id < |s.T.chains| && NodeOwns(s.T, id)
    ensures Reached(s, bi, id + 1, b) <==> Reached(s, bi, id, b) || b in BlocksOf(s.T.nodes[id], s.T.chains[id])
  {
    assert Owned(s.T, b, ONode(id)) <==> b in BlocksOf(s.T.nodes[id], s.T.chains[id]);
  }

  // Blocks of node id are not among those met before it.
  lemma NodeApart(s: Src, bi: nat, id: nat, b: nat)
    requires id < |s.T.nodes| && id < |s.T.chains| && NodeOwns(s.T, id) && b in BlocksOf(s.T.nodes[id], s.T.chains[id])
    requires s.mapPhys !in s.T.owner && (b in s.T.owner ==> s.g.DataFirst() <= b)
    ensures !Reached(s, bi, id, b)
  {
    assert Owned(s.T, b, ONode(id));
  }

  // A node that is not in use adds nothing.
  lemma SkipNode(s: Src, c: Census, bi: nat, id: nat)
    requires id < |s.T.nodes| && id < |s.T.chains| && NodeOwns(s.T, id) && s.T.nodes[id] == ZERO_NODE
      && s.T.chains[id] == []
    ensures Within(s, c.shadow, bi, id) ==> Within(s, c.shadow, bi, id + 1)
    ensures Met(s, c, bi, id) ==> Met(s, c, bi, id + 1)
  {
    hide Reached;
    assert EdgesOf(s.disk, s.T, id) == [];
    forall t: nat ensures EdgesTo(s.disk, s.T, id + 1, t) == EdgesTo(s.disk, s.T, id, t) {}
    assert BlocksOf(ZERO_NODE, []) == {} by { assert forall l: nat :: Bmap([], l) == 0; }
    forall b: nat ensures Reached(s, bi, id + 1, b) <==> Reached(s, bi, id, b) { ReachedNode(s, bi, id, b); }
  }

  // What the checker may rely on about a node in use.
  ghost predicate NodeSound(fs: Gfs, id: nat, n: DNode)
    reads fs
  {
    && 0 < id < fs.g.nodeCount <= |fs.T.nodes| && id < |fs.T.chains| && n == fs.T.nodes[id] && n.typ != TFree
    && fs.g.Ok() && fs.g.total <= |fs.disk|
    && Apart(n.ext) && |n.ext| <= INLINE_EXTENTS && (n.typ == TNamespace ==> n.ext == [])
      && (forall e :: e in n.ext ==> e.len > 0)
    && ChainOk(fs.crc, fs.disk, n.edgeHead, fs.T.chains[id])
    && n.edgeCount == |EdgesOf(fs.disk, fs.T, id)|
    && NodeOwns(fs.T, id) && fs.nodemap.phys !in fs.T.owner
    && (forall b: nat :: b in BlocksOf(n, fs.T.chains[id]) <==> Listed(n.ext, |n.ext|, b) || b in fs.T.chains[id])
    && (forall b: nat :: b in BlocksOf(n, fs.T.chains[id]) ==> fs.g.DataFirst() <= b < fs.g.total)
    && (forall b: nat :: !(Listed(n.ext, |n.ext|, b) && b in fs.T.chains[id]))
  }

  lemma NodeBlocks(fs: Gfs, id: nat, n: DNode)
    requires fs.Loaded() && 0 < id < fs.g.nodeCount && n == fs.T.nodes[id] && n.typ != TFree
    ensures id < |fs.T.chains| && NodeOwns(fs.T, id)
    ensures forall b: nat :: b in BlocksOf(n, fs.T.chains[id]) ==> fs.g.DataFirst() <= b < fs.g.total
    ensures forall b: nat :: b in BlocksOf(n, fs.T.chains[id]) <==> Listed(n.ext, |n.ext|, b) || b in fs.T.chains[id]
    ensures Apart(n.ext) && |n.ext| <= INLINE_EXTENTS && (forall e :: e in n.ext ==> e.len > 0)
    ensures (n.typ == TNamespace ==> n.ext == []) && (n.typ == TData ==> fs.T.chains[id] == [])
  {
    hide Image, Replay, Traced, TableOk, RecOk, OwnerOk, Edges, EntryMap, Bmap, DataInj, TailZero, ChainOk, Listed;
    ImageFacts(fs.crc, fs.disk, fs.live);
    assert NodeOk(fs.g, fs.crc, fs.disk, fs.T, id);
    forall b: nat | b in BlocksOf(n, fs.T.chains[id]) ensures fs.g.DataFirst() <= b < fs.g.total {
      assert Owned(fs.T, b, ONode(id));
      OwnedInRange(fs.g, fs.crc, fs.disk, fs.mp, fs.T, fs.dirty, b);
    }
    if n.typ == TData {
      ExtentsApart(fs.g, n.ext, n.size);
      forall b: nat ensures b in DataSet(n.ext) <==> Listed(n.ext, |n.ext|, b) { ExtBlocks(fs.g, n.ext, n.size, b); }
    } else {
      EmptyExtents(n.ext);
      NoData(n.ext);
    }
  }

  lemma EmptyExtents(ext: seq<Extent>)
    requires ext == []
    ensures (forall b: nat :: !Listed(ext, |ext|, b)) && Apart(ext)
  {}

  lemma NodeEdges(fs: Gfs, id: nat, n: DNode)
    requires Checking(fs) && 0 < id < fs.g.nodeCount && n == fs.T.nodes[id] && n.typ != TFree
    ensures id < |fs.T.chains| && ChainOk(fs.crc, fs.disk, n.edgeHead, fs.T.chains[id])
    ensures n.edgeCount == |EdgesOf(fs.disk, fs.T, id)|
  {
    hide Image, Replay, Traced, TableOk, RecOk, OwnerOk, EntryMap, DataOk, UsedOk;
    ImageFacts(fs.crc, fs.disk, fs.live);
    assert NodeOk(fs.g, fs.crc, fs.disk, fs.T, id);
  }

  lemma NodeIsSound(fs: Gfs, id: nat, n: DNode)
    requires Checking(fs) && 0 < id < fs.g.nodeCount && n == fs.T.nodes[id] && n.typ != TFree
    ensures NodeSound(fs, id, n)
  {
    hide Image, View, Replay, Traced, TreeOk, EntryMap, Edges, ChainOk, Listed, NodeOwns, Apart, BlocksOf, TreeInv;
    ImageFacts(fs.crc, fs.disk, fs.live);
    TreeLengths(fs.g, fs.crc, fs.disk, fs.mp, fs.T, fs.dirty);
    NodeBlocks(fs, id, n);
    NodeEdges(fs, id, n);
    MapUnowned(fs.g, fs.live.bm, fs.nodemap.phys, fs.T.owner);
    if n.ext == [] { EmptyExtents(n.ext); NoData(n.ext); }
  }

  lemma MapUnowned(g: Geo, bm: seq<bool>, mapPhys: nat, owner: map<nat, Owner>)
    requires UsedOk(g, bm, mapPhys, owner)
    ensures mapPhys !in owner
  {}

  lemma {:induction false} CountPositive(es: seq<Edge>, t: nat)
    requires CountTo(es, t) > 0
    ensures exists e :: e in es && e.target == t
  {
    if es[|es| - 1].target != t {
      CountPositive(es[..|es| - 1], t);
      var e :| e in es[..|es| - 1] && e.target == t;
      assert e in es;
    } else {
      assert es[|es| - 1] in es;
    }
  }

  // Node id has been met completely.
  lemma NodeMet(s: Src, bi: nat, id: nat, a: Tally, b: Tally, pres: seq<bool>, pres': seq<bool>, shadow: seq<bool>)
    requires id < s.g.nodeCount <= |s.T.nodes| && id < |s.T.chains| && NodeOwns(s.T, id) && s.T.nodes[id].typ != TFree
    requires Blocks(s, a.shadow, bi, id) && Nodes(s, a.nlink, a.parent, pres, id)
    requires |shadow| == |a.shadow| && forall x: nat :: x < |shadow| ==>
      (shadow[x] <==> a.shadow[x] || Listed(s.T.nodes[id].ext, |s.T.nodes[id].ext|, x))
    requires forall x: nat :: x in BlocksOf(s.T.nodes[id], s.T.chains[id]) ==>
      Listed(s.T.nodes[id].ext, |s.T.nodes[id].ext|, x) || x in s.T.chains[id]
    requires Walked(a.(shadow := shadow), b, s.T.chains[id], 0, EdgesOf(s.disk, s.T, id), id)
    requires pres' == pres[id := true]
    ensures Blocks(s, b.shadow, bi, id + 1) && Nodes(s, b.nlink, b.parent, pres', id + 1)
  {
    hide Reached, NodeOwns, Listed, CountTo, EdgesOf, BlocksOf;
    assert s.T.chains[id][0..] == s.T.chains[id];
    forall x: nat | x < s.g.total && Reached(s, bi, id + 1, x) ensures b.shadow[x] { ReachedNode(s, bi, id, x); }
    forall t: nat | 0 < t < s.g.nodeCount && b.nlink[t] > 0 ensures Names(s, b.parent[t], t) {
      if CountTo(EdgesOf(s.disk, s.T, id), t) > 0 { CountPositive(EdgesOf(s.disk, s.T, id), t); }
    }
  }

  // One record of a table block.
  method CensusNode(fs: Gfs, c: Census, ghost bi: nat, id: nat, n: DNode)
    requires Checking(fs) && 0 < id < fs.g.nodeCount && n == fs.T.nodes[id]
    requires c.Shaped(fs.g) && Within(SrcOf(fs), c.shadow, bi, id)
    modifies fs`faults, c
    ensures fs.Steady(old(fs.faults)) && c.Shaped(fs.g)
    ensures Within(SrcOf(fs), c.shadow, bi, id + 1)
    ensures fs.faults == old(fs.faults) && old(Met(SrcOf(fs), c, bi, id)) ==> Met(SrcOf(fs), c, bi, id + 1)
  {
    hide Image, View, Replay, Traced, TreeOk, Edges, EntryMap, ChainOk, Listed, NodeOwns, BlocksOf, Reached, TreeInv,
      CountTo, Blocks, Nodes, Apart, EndIsClean, LastReadable;
    ghost var s := SrcOf(fs);
    ImageFacts(fs.crc, fs.disk, fs.live);
    if n.typ == TFree {
      FreeNodeEmpty(fs, id);
      SkipNode(s, c, bi, id);
      return;
    }
    NodeIsSound(fs, id, n);
    ghost var chain := fs.T.chains[id];
    ghost var a, pres := TallyOf(c), c.present;
    forall b: nat | b in BlocksOf(n, chain) ensures !Reached(s, bi, id, b) { NodeApart(s, bi, id, b); }
    c.present := c.present[id := true];
    c.Note(|n.ext| > INLINE_EXTENTS);
    c.Note(n.typ == TNamespace && n.ext != []);
    MarkExtents(c, n.ext);
    ghost var shadow := c.shadow;
    forall i | 0 <= i < |chain| ensures chain[i] < fs.g.total && !c.shadow[chain[i]] {
      assert chain[i] in BlocksOf(n, chain);
    }
    var seen := WalkEdges(fs, c, id, n.edgeHead, chain);
    ghost var b := TallyOf(c);
    c.Note(seen != n.edgeCount);
    if n.typ == TData { EndFacts(fs, id, n); CheckTail(fs, c, n); }
    forall x: nat | x < fs.g.total && c.shadow[x] ensures Reached(s, bi, id + 1, x) { ReachedNode(s, bi, id, x); }
    if fs.faults == old(fs.faults) && old(Met(SrcOf(fs), c, bi, id)) {
      NodeMet(s, bi, id, a, b, pres, c.present, shadow);
    }
  }

  lemma FreeNodeEmpty(fs: Gfs, id: nat)
    requires fs.Loaded() && id < MAX_NODES && (id == 0 || id >= fs.g.nodeCount || fs.T.nodes[id].typ == TFree)
    ensures id < |fs.T.nodes| && id < |fs.T.chains| && NodeOwns(fs.T, id) && fs.T.nodes[id] == ZERO_NODE
      && fs.T.chains[id] == []
  {
    hide Image, Replay, Traced, TableOk, RecOk, OwnerOk, Edges, EntryMap, DataOk, ChainOk, NodeOwns;
    ImageFacts(fs.crc, fs.disk, fs.live);
    assert NodeOk(fs.g, fs.crc, fs.disk, fs.T, id);
  }

  lemma EmptySlot(fs: Gfs, bi: nat, id: nat)
    requires fs.Loaded() && fs.dirty == {} && bi < MAP_SLOTS && fs.mp[bi].phys == 0 && id / NODES_PER_BLOCK == bi
    ensures id < |fs.T.nodes| && fs.T.nodes[id] == ZERO_NODE
  {
    hide Image, Replay, Traced, TableOk, NodeOk, OwnerOk, Edges, EntryMap, DataOk, ChainOk;
    assert RecOk(fs.disk, fs.mp, fs.T, fs.dirty, id);
  }

  // Table block bi itself.
  lemma TableMet(fs: Gfs, bi: nat)
    requires fs.Loaded() && bi < MAP_SLOTS
    ensures |fs.mp| == MAP_SLOTS
    ensures forall id: nat, b: nat :: Reached(SrcOf(fs), bi + 1, id, b) <==>
      Reached(SrcOf(fs), bi, id, b) || (fs.mp[bi].phys != 0 && b == fs.mp[bi].phys)
    ensures fs.mp[bi].phys != 0 ==> fs.mp[bi].phys < fs.g.total && forall id: nat ::
      !Reached(SrcOf(fs), bi, id, fs.mp[bi].phys)
  {
    hide Image, Replay, Traced, RecOk, NodeOk, Edges, EntryMap, DataOk, ChainOk;
    ImageFacts(fs.crc, fs.disk, fs.live);
    var p := fs.mp[bi].phys;
    assert TableOk(fs.crc, fs.disk, fs.mp, fs.T, bi);
    if p != 0 { assert OwnerOk(fs.g, fs.mp, fs.T, p); }
    forall id: nat, b: nat ensures Reached(SrcOf(fs), bi + 1, id, b) <==>
      Reached(SrcOf(fs), bi, id, b) || (p != 0 && b == p) {
      if b in fs.T.owner { assert OwnerOk(fs.g, fs.mp, fs.T, b); }
    }
  }

  lemma WithinMore(s: Src, shadow: seq<bool>, bi: nat, id: nat, bi': nat, id': nat)
    requires Within(s, shadow, bi, id) && bi <= bi' && id <= id'
    ensures Within(s, shadow, bi', id')
  {}

  // A table slot that is not in use holds no nodes.
  lemma SkipSlot(fs: Gfs, c: Census, bi: nat, k: nat)
    requires fs.Loaded() && fs.dirty == {} && bi < MAP_SLOTS && |fs.mp| == MAP_SLOTS && fs.mp[bi].phys == 0
      && k <= NODES_PER_BLOCK
    ensures Within(SrcOf(fs), c.shadow, bi, bi * NODES_PER_BLOCK) ==>
      Within(SrcOf(fs), c.shadow, bi + 1, bi * NODES_PER_BLOCK + k)
    ensures Met(SrcOf(fs), c, bi, bi * NODES_PER_BLOCK) ==> Met(SrcOf(fs), c, bi + 1, bi * NODES_PER_BLOCK + k)
  {
    hide Image, View, Replay, Traced, TreeOk, Reached, Nodes;
    ImageFacts(fs.crc, fs.disk, fs.live);
    TreeLengths(fs.g, fs.crc, fs.disk, fs.mp, fs.T, fs.dirty);
    if k == 0 {
      TableMet(fs, bi);
    } else {
      SkipSlot(fs, c, bi, k - 1);
      var id := bi * NODES_PER_BLOCK + (k - 1);
      EmptySlot(fs, bi, id);
      FreeNodeEmpty(fs, id);
      SkipNode(SrcOf(fs), c, bi + 1, id);
    }
  }

  method CensusTable(fs: Gfs, c: Census, bi: nat)
    requires Checking(fs) && bi * NODES_PER_BLOCK < fs.g.nodeCount
    requires c.Shaped(fs.g) && Within(SrcOf(fs), c.shadow, bi, bi * NODES_PER_BLOCK)
    modifies fs`faults, c
    ensures fs.Steady(old(fs.faults)) && c.Shaped(fs.g)
    ensures Within(SrcOf(fs), c.shadow, bi + 1, (bi + 1) * NODES_PER_BLOCK)
    ensures fs.faults == old(fs.faults) && old(Met(SrcOf(fs), c, bi, bi * NODES_PER_BLOCK)) ==>
      Met(SrcOf(fs), c, bi + 1, (bi + 1) * NODES_PER_BLOCK)
  {
    hide Image, View, Replay, Traced, TreeOk, TreeInv, Reached, Nodes;
    ghost var s := SrcOf(fs);
    ImageFacts(fs.crc, fs.disk, fs.live);
    var first := bi * NODES_PER_BLOCK;
    var bp := fs.mp[bi];
    if bp.phys == 0 {
      SkipSlot(fs, c, bi, NODES_PER_BLOCK);
      return;
    }
    TableMet(fs, bi);
    c.Mark(bp.phys);
    TableRead(fs, bi);
    WithinMore(s, c.shadow, bi + 1, first, bi + 1, first + NODES_PER_BLOCK);
    var rc, tbl := fs.ReadMeta(bp);
    c.Note(rc != OK);
    if rc != OK { return; }
    assert tbl.recs == fs.T.nodes[bi * NODES_PER_BLOCK..(bi + 1) * NODES_PER_BLOCK];
    CensusRecords(fs, c, bi, tbl.recs);
  }

  // The records of one table block.
  method CensusRecords(fs: Gfs, c: Census, bi: nat, recs: seq<DNode>)
    requires Checking(fs) && bi * NODES_PER_BLOCK < fs.g.nodeCount && (bi + 1) * NODES_PER_BLOCK <= |fs.T.nodes|
    requires recs == fs.T.nodes[bi * NODES_PER_BLOCK..(bi + 1) * NODES_PER_BLOCK] && |fs.T.nodes| == MAX_NODES
    requires c.Shaped(fs.g) && Within(SrcOf(fs), c.shadow, bi + 1, bi * NODES_PER_BLOCK)
    modifies fs`faults, c
    ensures fs.Steady(old(fs.faults)) && c.Shaped(fs.g)
    ensures Within(SrcOf(fs), c.shadow, bi + 1, (bi + 1) * NODES_PER_BLOCK)
    ensures fs.faults == old(fs.faults) && old(Met(SrcOf(fs), c, bi + 1, bi * NODES_PER_BLOCK)) ==>
      Met(SrcOf(fs), c, bi + 1, (bi + 1) * NODES_PER_BLOCK)
  {
    hide Image, View, Replay, Traced, TreeOk, Within, Met;
    ghost var s := SrcOf(fs);
    ghost var ok := Met(s, c, bi + 1, bi * NODES_PER_BLOCK);
    var first, k := bi * NODES_PER_BLOCK, 0;
    while k < NODES_PER_BLOCK
      invariant k <= NODES_PER_BLOCK && Checking(fs) && c.Shaped(fs.g) && SrcOf(fs) == s && fs.Steady(old(fs.faults))
      invariant Within(s, c.shadow, bi + 1, first + k)
      invariant fs.faults == old(fs.faults) && ok ==> Met(s, c, bi + 1, first + k)
    {
      var id := first + k;
      if id == 0 || id >= fs.g.nodeCount {
        FreeNodeEmpty(fs, id);
        SkipNode(s, c, bi + 1, id);
      } else {
        CensusNode(fs, c, bi + 1, id, recs[k]);
      }
      k := k + 1;
    }
  }

  // A table block in use holds the records of its nodes.
  lemma TableRead(fs: Gfs, bi: nat)
    requires fs.Loaded() && fs.dirty == {} && bi < MAP_SLOTS && |fs.mp| == MAP_SLOTS && fs.mp[bi].phys != 0
    ensures var p := fs.mp[bi].phys;
      && p < fs.g.total <= |fs.disk| && fs.disk[p].TableB? && |fs.disk[p].recs| == NODES_PER_BLOCK
        && fs.mp[bi] == PtrTo(fs.crc, fs.disk, p)
      && |fs.T.nodes| == MAX_NODES
      && forall k: nat :: k < NODES_PER_BLOCK ==> fs.disk[p].recs[k] == fs.T.nodes[bi * NODES_PER_BLOCK + k]
  {
    hide Image, Replay, Traced, NodeOk, OwnerOk, Edges, EntryMap;
    ImageFacts(fs.crc, fs.disk, fs.live);
    assert TableOk(fs.crc, fs.disk, fs.mp, fs.T, bi);
    OwnedInRange(fs.g, fs.crc, fs.disk, fs.mp, fs.T, fs.dirty, fs.mp[bi].phys);
    forall k: nat | k < NODES_PER_BLOCK
      ensures fs.disk[fs.mp[bi].phys].recs[k] == fs.T.nodes[bi * NODES_PER_BLOCK + k] {
      assert RecOk(fs.disk, fs.mp, fs.T, fs.dirty, bi * NODES_PER_BLOCK + k);
    }
  }

  // Pass 1: every table block and node record.
  method PassOne(fs: Gfs, c: Census)
    requires Checking(fs) && c.Shaped(fs.g) && Within(SrcOf(fs), c.shadow, 0, 0) && Met(SrcOf(fs), c, 0, 0)
    modifies fs`faults, c
    ensures fs.Steady(old(fs.faults)) && c.Shaped(fs.g)
    ensures Within(SrcOf(fs), c.shadow, MAP_SLOTS, MAX_NODES)
    ensures fs.faults == old(fs.faults) ==>
      Met(SrcOf(fs), c, MAP_SLOTS, fs.g.nodeCount) && Blocks(SrcOf(fs), c.shadow, MAP_SLOTS, MAX_NODES)
  {
    hide Image, View, Replay, Traced, TreeOk, TreeInv, Reached, Nodes, Within, Blocks;
    ghost var s := SrcOf(fs);
    ImageFacts(fs.crc, fs.disk, fs.live);
    var bi := 0;
    while bi * NODES_PER_BLOCK < fs.g.nodeCount
      invariant (bi - 1) * NODES_PER_BLOCK < fs.g.nodeCount
      invariant Checking(fs) && c.Shaped(fs.g) && SrcOf(fs) == s && fs.Steady(old(fs.faults))
      invariant Within(s, c.shadow, bi, bi * NODES_PER_BLOCK)
      invariant fs.faults == old(fs.faults) ==> Met(s, c, bi, bi * NODES_PER_BLOCK)
      decreases fs.g.nodeCount - bi * NODES_PER_BLOCK
    {
      CensusTable(fs, c, bi);
      bi := bi + 1;
    }
    WithinMore(s, c.shadow, bi, bi * NODES_PER_BLOCK, MAP_SLOTS, MAX_NODES);
    if fs.faults == old(fs.faults) { AllMet(fs, c, bi); }
  }

  // Past the last node there is nothing.
  lemma AllMet(fs: Gfs, c: Census, bi: nat)
    requires fs.Loaded() && fs.dirty == {} && fs.g.nodeCount <= bi * NODES_PER_BLOCK <= MAX_NODES
      && Met(SrcOf(fs), c, bi, bi * NODES_PER_BLOCK)
    ensures Met(SrcOf(fs), c, MAP_SLOTS, fs.g.nodeCount) && Blocks(SrcOf(fs), c.shadow, MAP_SLOTS, MAX_NODES)
  {
    hide Image, View, Replay, Traced, Edges, EntryMap, NodeOk, RecOk, TableOk, EdgesTo;
    ImageFacts(fs.crc, fs.disk, fs.live);
    var s := SrcOf(fs);
    forall b: nat | Reached(s, MAP_SLOTS, MAX_NODES, b) ensures Reached(s, bi, bi * NODES_PER_BLOCK, b) {
      if b in s.T.owner {
        assert OwnerOk(fs.g, fs.mp, s.T, b);
        if s.T.owner[b].ONode? { OwnerInUse(fs, b); }
      }
    }
    assert forall b: nat :: Reached(s, MAP_SLOTS, fs.g.nodeCount, b) ==> Reached(s, MAP_SLOTS, MAX_NODES, b);
    forall t: nat ensures EdgesTo(s.disk, s.T, bi * NODES_PER_BLOCK, t) == EdgesTo(s.disk, s.T, fs.g.nodeCount, t) {
      NoEdgesPast(fs, bi * NODES_PER_BLOCK, t);
    }
  }

  lemma EmptyOwnsNothing(T: Tree, id: nat)
    requires id < |T.nodes| && id < |T.chains| && NodeOwns(T, id) && T.nodes[id] == ZERO_NODE && T.chains[id] == []
    ensures forall b: nat :: !Owned(T, b, ONode(id))
  {
    EmptyExtents([]);
    NoData([]);
  }

  lemma OwnerInUse(fs: Gfs, b: nat)
    requires fs.Loaded() && b in fs.T.owner && fs.T.owner[b].ONode?
    ensures fs.T.owner[b].id < fs.g.nodeCount
  {
    hide Image, View, Replay, Traced, Edges, EntryMap, NodeOk, RecOk, TableOk;
    assert OwnerOk(fs.g, fs.mp, fs.T, b);
    var id := fs.T.owner[b].id;
    assert Owned(fs.T, b, ONode(id));
    if id >= fs.g.nodeCount {
      FreeNodeEmpty(fs, id);
      EmptyOwnsNothing(fs.T, id);
    }
  }

  lemma {:induction false} NoEdgesPast(fs: Gfs, n: nat, t: nat)
    requires fs.Loaded() && fs.g.nodeCount <= n <= MAX_NODES
    ensures EdgesTo(fs.disk, fs.T, n, t) == EdgesTo(fs.disk, fs.T, fs.g.nodeCount, t)
    decreases n
  {
    hide Image, View, Replay, Traced, TreeOk;
    ImageFacts(fs.crc, fs.disk, fs.live);
    if n > fs.g.nodeCount {
      NoEdgesPast(fs, n - 1, t);
      FreeNodeEmpty(fs, n - 1);
    }
  }

  // ---- pass 2 ------------------------------------------------------------------------------------------------

  // A finding for every NAME edge to a node that is not in use, and for nothing else.
  method CheckTargets(c: Census, g: Geo)
    requires c.Shaped(g)
    modifies c`errors
    ensures c.errors >= old(c.errors)
    ensures c.errors == old(c.errors) <==> forall i: nat :: 0 < i < g.nodeCount && c.nlink[i] > 0 ==> c.present[i]
  {
    var id: nat := 1;
    while id < g.nodeCount
      invariant 0 < id && c.errors >= old(c.errors)
      invariant c.errors == old(c.errors) <==> forall i: nat :: 0 < i < id && i < g.nodeCount && c.nlink[i] > 0 ==>
        c.present[i]
    {
      c.Note(c.nlink[id] > 0 && !c.present[id]);
      id := id + 1;
    }
  }

  // The link count, the single parent and the parent field of a node in use.
  predicate LinksAgree(n: DNode, id: nat, met: nat, parent: nat) {
    && n.nlink == met
    && (n.typ == TNamespace ==> if id == ROOT then n.parent == ROOT else met == 1 && n.parent == parent)
  }

  // Node id is in use if it has a name, its link count is the number of its names, and a directory has one name, in
  // the directory it calls its parent; the root calls itself its parent.
  ghost predicate ConsistentAt(t: Fs, id: nat)
    requires id < |t|
  {
    && (Links(t, id) != {} ==> !t[id].Free?)
    && (!t[id].Free? ==> t[id].nlink == |Links(t, id)|)
    && (t[id].Dir? ==> if id == ROOT then t[id].parent == ROOT else HasOneName(t, id))
  }

  // What the checker can see of a namespace.
  ghost predicate Consistent(t: Fs) {
    forall id: nat {:trigger ConsistentAt(t, id)} :: 0 < id < |t| ==> ConsistentAt(t, id)
  }

  lemma OneName(t: Fs, id: nat, d: nat, nm: Name)
    requires id < |t| && t[id].Dir? && IsLink(t, d, nm, id)
    ensures HasOneName(t, id) <==> |Links(t, id)| == 1 && t[id].parent == d
  {
    assert Link(d, nm) in Links(t, id);
    if |Links(t, id)| == 1 {
      assert Links(t, id) == {Link(d, nm)} by {
        assert |Links(t, id) - {Link(d, nm)}| == 0;
      }
    }
  }

  // The census of a node agrees with its record exactly when the node is consistent.
  lemma CensusExact(fs: Gfs, c: Census, id: nat)
    requires Checking(fs) && Nodes(SrcOf(fs), c.nlink, c.parent, c.present, fs.g.nodeCount) && 0 < id < fs.g.nodeCount
    ensures |fs.Now()| == fs.g.nodeCount
    ensures (c.nlink[id] > 0 ==> c.present[id]) && RecordAgrees(EdgesMet(c), id, fs.T.nodes[id]) <==>
      ConsistentAt(fs.Now(), id)
  {
    hide Image, Replay, Traced, RecOk, TableOk, NodeOk, OwnerOk, Edges, EntryMap, EdgesTo, EdgesOf, UsedOk, Content,
      Links, LinksBelow;
    ImageFacts(fs.crc, fs.disk, fs.live);
    var t := fs.Now();
    ViewFree(fs.g, fs.disk, fs.T, id);
    TreeIsFaithful(fs.g, fs.crc, fs.disk, fs.mp, fs.T);
    EdgesAreLinks(fs.disk, fs.T, t, fs.g.nodeCount, id);
    AllLinks(t, id);
    if c.nlink[id] > 0 {
      var nm := NamedBy(fs, c.parent[id], id);
      if t[id].Dir? { OneName(t, id, c.parent[id], nm); }
    } else {
      NoLinks(t, id);
    }
  }

  lemma AllLinks(t: Fs, id: nat)
    ensures LinksBelow(t, |t|, id) == Links(t, id)
  {}

  lemma NoLinks(t: Fs, id: nat)
    requires |Links(t, id)| == 0 && id < |t|
    ensures Links(t, id) == {} && !HasOneName(t, id)
  {}

  // What the walk over the edges left: link counts, parents, and which nodes are in use.
  datatype EdgeCensus = EdgeCensus(nlink: seq<nat>, parent: seq<nat>, present: seq<bool>)

  function EdgesMet(c: Census): EdgeCensus
    reads c`nlink, c`parent, c`present
  {
    EdgeCensus(c.nlink, c.parent, c.present)
  }

  // The record of a node that was met agrees with the edges met.
  ghost predicate RecordAgrees(m: EdgeCensus, id: nat, n: DNode) {
    0 < id < |m.present| && id < |m.nlink| && id < |m.parent| && m.present[id] ==>
      LinksAgree(n, id, m.nlink[id], m.parent[id])
  }

  ghost predicate TableAgrees(m: EdgeCensus, lo: nat, recs: seq<DNode>) {
    forall k: nat {:trigger recs[k]} :: k < |recs| ==> RecordAgrees(m, lo + k, recs[k])
  }

  ghost predicate SlotAgrees(m: EdgeCensus, mp: seq<Bp>, nodes: seq<DNode>, bi: nat) {
    bi < |mp| && mp[bi].phys != 0 && bi * NODES_PER_BLOCK + NODES_PER_BLOCK <= |nodes| ==>
      TableAgrees(m, bi * NODES_PER_BLOCK, nodes[bi * NODES_PER_BLOCK..bi * NODES_PER_BLOCK + NODES_PER_BLOCK])
  }

  ghost predicate AllAgree(m: EdgeCensus, mp: seq<Bp>, nodes: seq<DNode>, count: nat) {
    forall bi: nat {:trigger SlotAgrees(m, mp, nodes, bi)} :: bi * NODES_PER_BLOCK < count ==>
      SlotAgrees(m, mp, nodes, bi)
  }

  // All of pass 2 is about: every node is consistent.
  lemma CensusAllExact(fs: Gfs, c: Census)
    requires Checking(fs) && c.Shaped(fs.g) && Nodes(SrcOf(fs), c.nlink, c.parent, c.present, fs.g.nodeCount)
    ensures Consistent(fs.Now()) <==>
      (forall id: nat :: 0 < id < fs.g.nodeCount && c.nlink[id] > 0 ==> c.present[id])
      && AllAgree(EdgesMet(c), fs.mp, fs.T.nodes, fs.g.nodeCount)
  {
    hide Image, View, Replay, Traced, TreeOk, ConsistentAt, SlotAgrees;
    ImageFacts(fs.crc, fs.disk, fs.live);
    TreeLengths(fs.g, fs.crc, fs.disk, fs.mp, fs.T, fs.dirty);
    var m := EdgesMet(c);
    CensusExact(fs, c, ROOT);
    forall id: nat | 0 < id < fs.g.nodeCount
      ensures (c.nlink[id] > 0 ==> c.present[id]) && RecordAgrees(m, id, fs.T.nodes[id]) <==> ConsistentAt(fs.Now(), id)
    {
      CensusExact(fs, c, id);
    }
    if AllAgree(m, fs.mp, fs.T.nodes, fs.g.nodeCount) {
      forall id: nat | 0 < id < fs.g.nodeCount ensures RecordAgrees(m, id, fs.T.nodes[id]) { SlotRecord(fs, c, id); }
    }
    if forall id: nat :: 0 < id < fs.g.nodeCount ==> RecordAgrees(m, id, fs.T.nodes[id]) {
      forall bi: nat
        ensures SlotAgrees(m, fs.mp, fs.T.nodes, bi)
      {
        SlotFrom(m, fs.mp, fs.T.nodes, fs.g.nodeCount, bi);
      }
    }
  }

  // A record is in the slot that holds it; one in an unused slot is free, so it was not met.
  lemma SlotRecord(fs: Gfs, c: Census, id: nat)
    requires Checking(fs) && c.Shaped(fs.g) && Nodes(SrcOf(fs), c.nlink, c.parent, c.present, fs.g.nodeCount)
    requires 0 < id < fs.g.nodeCount && |fs.T.nodes| == MAX_NODES && |fs.mp| == MAP_SLOTS && fs.g.nodeCount <= MAX_NODES
    requires AllAgree(EdgesMet(c), fs.mp, fs.T.nodes, fs.g.nodeCount)
    ensures RecordAgrees(EdgesMet(c), id, fs.T.nodes[id])
  {
    hide Image, View, Replay, Traced, TreeOk, RecordAgrees;
    var bi, k := id / NODES_PER_BLOCK, id % NODES_PER_BLOCK;
    assert SlotAgrees(EdgesMet(c), fs.mp, fs.T.nodes, bi);
    if fs.mp[bi].phys != 0 {
      var recs := fs.T.nodes[bi * NODES_PER_BLOCK..bi * NODES_PER_BLOCK + NODES_PER_BLOCK];
      assert recs[k] == fs.T.nodes[id];
    } else {
      EmptySlot(fs, bi, id);
      NotMet(EdgesMet(c), id, fs.T.nodes[id]);
    }
  }

  lemma NotMet(m: EdgeCensus, id: nat, n: DNode)
    requires id < |m.present| && !m.present[id]
    ensures RecordAgrees(m, id, n)
  {}

  lemma SlotFrom(m: EdgeCensus, mp: seq<Bp>, nodes: seq<DNode>, count: nat, bi: nat)
    requires |m.present| == count <= |nodes| && forall id: nat :: 0 < id < count ==> RecordAgrees(m, id, nodes[id])
    ensures SlotAgrees(m, mp, nodes, bi)
  {
    if bi * NODES_PER_BLOCK + NODES_PER_BLOCK <= |nodes| {
      var lo := bi * NODES_PER_BLOCK;
      var recs := nodes[lo..lo + NODES_PER_BLOCK];
      forall k: nat {:trigger recs[k]} | k < |recs| ensures RecordAgrees(m, lo + k, recs[k]) {
        assert recs[k] == nodes[lo + k];
      }
    }
  }

  // An edge that was met is an entry.
  lemma NamedBy(fs: Gfs, d: nat, t: nat) returns (nm: Name)
    requires fs.Loaded() && fs.dirty == {} && Names(SrcOf(fs), d, t)
    ensures IsLink(fs.Now(), d, nm, t)
  {
    hide Image, Replay, Traced, RecOk, TableOk, NodeOk, OwnerOk, EntryMap, UsedOk, Content, DataOk;
    ImageFacts(fs.crc, fs.disk, fs.live);
    TreeIsFaithful(fs.g, fs.crc, fs.disk, fs.mp, fs.T);
    var es := EdgesOf(fs.disk, fs.T, d);
    var e :| e in es && e.target == t;
    nm := e.name;
    assert e == Edge(nm, t);
    if d >= fs.g.nodeCount { FreeNodeEmpty(fs, d); }
    EntryMapMember(es, nm, t);
  }

  // Findings exactly for the records that disagree with the edges met.
  method CheckTable(c: Census, g: Geo, lo: nat, recs: seq<DNode>)
    requires c.Shaped(g)
    modifies c`errors
    ensures c.errors >= old(c.errors) && (c.errors == old(c.errors) <==> TableAgrees(EdgesMet(c), lo, recs))
  {
    var k: nat := 0;
    while k < |recs|
      invariant k <= |recs| && c.errors >= old(c.errors)
      invariant c.errors == old(c.errors) <==> forall i: nat {:trigger recs[i]} :: i < k ==>
        RecordAgrees(EdgesMet(c), lo + i, recs[i])
    {
      CheckRecord(c, g, lo + k, recs[k]);
      k := k + 1;
    }
  }

  method CheckRecord(c: Census, g: Geo, id: nat, n: DNode)
    requires c.Shaped(g)
    modifies c`errors
    ensures c.errors >= old(c.errors) && (c.errors == old(c.errors) <==> RecordAgrees(EdgesMet(c), id, n))
  {
    if id != 0 && id < g.nodeCount && c.present[id] {
      c.Note(n.nlink != c.nlink[id]);
      if n.typ == TNamespace {
        if id == ROOT {
          c.Note(n.parent != ROOT);
        } else {
          c.Note(c.nlink[id] != 1);
          c.Note(n.parent != c.parent[id]);
        }
      }
    }
  }

  // The re-scan of the node tables: with a healthy device it is silent exactly when every record agrees.
  method CheckLinks(fs: Gfs, c: Census)
    requires Checking(fs) && c.Shaped(fs.g)
    modifies fs`faults, c`errors
    ensures fs.Steady(old(fs.faults)) && c.errors >= old(c.errors)
    ensures AllAgree(EdgesMet(c), fs.mp, fs.T.nodes, fs.g.nodeCount) ==> c.errors == old(c.errors)
    ensures fs.faults == old(fs.faults) && c.errors == old(c.errors) ==>
      AllAgree(EdgesMet(c), fs.mp, fs.T.nodes, fs.g.nodeCount)
  {
    hide Image, View, Replay, Traced, TreeOk, TreeInv, RecordAgrees, TableAgrees;
    ImageFacts(fs.crc, fs.disk, fs.live);
    TreeLengths(fs.g, fs.crc, fs.disk, fs.mp, fs.T, fs.dirty);
    ghost var m, mp, nodes := EdgesMet(c), fs.mp, fs.T.nodes;
    ghost var good := AllAgree(m, mp, nodes, fs.g.nodeCount);
    var bi: nat := 0;
    while bi * NODES_PER_BLOCK < fs.g.nodeCount
      invariant fs.Steady(old(fs.faults)) && c.errors >= old(c.errors) && (good ==> c.errors == old(c.errors))
      invariant fs.faults == old(fs.faults) && c.errors == old(c.errors) ==> forall i: nat :: i < bi ==>
        SlotAgrees(m, mp, nodes, i)
      decreases fs.g.nodeCount - bi * NODES_PER_BLOCK
    {
      var bp := fs.mp[bi];
      assert good ==> SlotAgrees(m, mp, nodes, bi);
      if bp.phys != 0 {
        TableRead(fs, bi);
        var rc, tbl := fs.ReadMeta(bp);
        if rc == OK {
          assert tbl.recs == nodes[bi * NODES_PER_BLOCK..bi * NODES_PER_BLOCK + NODES_PER_BLOCK];
          CheckTable(c, fs.g, bi * NODES_PER_BLOCK, tbl.recs);
        }
      }
      bi := bi + 1;
    }
  }

  // Compare what was met with the live bitmap: with a healthy device, silent exactly when they agree.
  method CheckBits(fs: Gfs, c: Census)
    requires Checking(fs) && c.Shaped(fs.g)
    modifies fs`faults, c`errors
    ensures fs.Steady(old(fs.faults)) && c.errors >= old(c.errors)
    ensures fs.faults == old(fs.faults) ==> (c.errors == old(c.errors) <==> c.shadow == fs.live.bm)
  {
    hide Image, View, Replay, Traced, TreeOk, TreeInv;
    ImageFacts(fs.crc, fs.disk, fs.live);
    LiveBits(fs.crc, fs.disk, fs.live);
    var j: nat := 0;
    while j < fs.g.bmBlocks
      invariant j <= fs.g.bmBlocks && fs.faults == old(fs.faults) && c.errors >= old(c.errors)
      invariant c.errors == old(c.errors) <==> SameBits(c.shadow, fs.live.bm, j * BM_BITS)
    {
      assert fs.disk[BmAddr(fs.g, fs.generation % 2, j)] == BitmapB(Chunk(fs.live.bm, j));
      var rc, b := fs.BRead(BmAddr(fs.g, fs.generation % 2, j));
      c.Note(rc != OK);
      if rc != OK { return; }
      CheckChunk(c, fs.live.bm, j, b.bits, fs.g.total);
      j := j + 1;
    }
  }

  ghost predicate SameBits(a: seq<bool>, b: seq<bool>, n: nat) { forall i: nat :: i < n && i < |a| && i < |b| ==>
    a[i] == b[i] }

  // One block of the bitmap.
  method CheckChunk(c: Census, ghost bm: seq<bool>, j: nat, bits: seq<bool>, total: nat)
    requires |c.shadow| == |bm| == total && bits == Chunk(bm, j)
    modifies c`errors
    ensures c.errors >= old(c.errors)
    ensures c.errors == old(c.errors) <==> forall i: nat :: j * BM_BITS <= i < j * BM_BITS + BM_BITS && i < total ==>
      c.shadow[i] == bm[i]
  {
    ghost var lo := j * BM_BITS;
    var bit: nat := 0;
    while bit < BM_BITS && j * BM_BITS + bit < total
      invariant bit <= BM_BITS && c.errors >= old(c.errors)
      invariant c.errors == old(c.errors) <==> forall i: nat :: lo <= i < lo + bit && i < total ==> c.shadow[i] == bm[i]
    {
      c.Note(bits[bit] != c.shadow[j * BM_BITS + bit]);
      bit := bit + 1;
    }
  }

  lemma LiveBits(crc: Crc, disk: Disk, L: Live)
    requires Image(crc, disk, L)
    ensures BitmapAt(L.g, disk, L.gen % 2, L.bm) && forall j: nat :: j < L.g.bmBlocks ==>
      BmAddr(L.g, L.gen % 2, j) < L.g.total
  {}

  // Every block the census met is in use, and the other way round.
  lemma ShadowIsBitmap(fs: Gfs, shadow: seq<bool>)
    requires Checking(fs) && Within(SrcOf(fs), shadow, MAP_SLOTS, MAX_NODES)
      && Blocks(SrcOf(fs), shadow, MAP_SLOTS, MAX_NODES)
    ensures shadow == fs.live.bm
  {
    hide Image, View, Replay, Traced, RecOk, TableOk, NodeOk, TreeInv;
    ImageFacts(fs.crc, fs.disk, fs.live);
    forall b: nat | b < fs.g.total ensures shadow[b] == fs.live.bm[b] {
      if b in fs.T.owner { assert OwnerOk(fs.g, fs.mp, fs.T, b); }
    }
  }

  // gfs_fsck: with a device that answers, silent exactly when the namespace is consistent.
  method Fsck(fs: Gfs) returns (rc: Err, errors: nat)
    requires fs.Valid()
    modifies fs`faults, fs`mp, fs`T, fs`dirty
    ensures fs.Valid() && fs.Steady(old(fs.faults))
    ensures rc == OK <==> errors == 0
    ensures fs.faults == old(fs.faults) ==> (rc == OK <==> Consistent(fs.Stored()))
  {
    hide Image, View, Replay, Traced, TreeOk, Nodes, Within, Blocks, AllAgree, Consistent;
    ImageFacts(fs.crc, fs.disk, fs.live);
    var c := new Census(fs.g.total, fs.g.nodeCount);
    MarkReserved(c, fs.g, fs.nodemap.phys);
    rc := fs.MapLoad();
    if rc != OK { return ECORRUPT, 1; }
    TreeLengths(fs.g, fs.crc, fs.disk, fs.mp, fs.T, fs.dirty);
    StartMet(SrcOf(fs), c);
    PassOne(fs, c);
    if fs.faults == old(fs.faults) {
      CensusAllExact(fs, c);
      ShadowIsBitmap(fs, c.shadow);
    }
    CheckTargets(c, fs.g);
    CheckLinks(fs, c);
    CheckBits(fs, c);
    rc, errors := if c.errors != 0 then ECORRUPT else OK, c.errors;
  }

  // ---- what a clean report means ---------------------------------------------------------------------

  // A clean report leaves four things unsaid: that names lead to nodes, that the root is a directory without a name,
  // that every file has a name and that every directory hangs off the root.
  lemma TreeIffConsistent(t: Fs)
    ensures TreeInv(t) <==> Consistent(t) && RootOk(t) && NamesLead(t) && NoOrphans(t) && AllRooted(t)
  {
    if TreeInv(t) {
      forall id: nat | 0 < id < |t| ensures ConsistentAt(t, id) {
        if l :| l in Links(t, id) { assert IsLink(t, l.d, l.nm, id); }
      }
      assert NamesLead(t);
    }
    if Consistent(t) && RootOk(t) && NamesLead(t) && NoOrphans(t) && AllRooted(t) {
      forall id: nat | 0 < id < |t| ensures ConsistentAt(t, id) {}
      forall d: nat, nm: Name, x: nat | IsLink(t, d, nm, x) ensures !t[x].Free? {
        assert ConsistentAt(t, x) && Link(d, nm) in Links(t, x);
      }
      forall id | 0 <= id < |t| && !t[id].Free? ensures t[id].nlink == |Links(t, id)| { assert ConsistentAt(t, id); }
      forall id | 0 <= id < |t| && t[id].Dir? && id != ROOT ensures HasOneName(t, id) { assert ConsistentAt(t, id); }
    }
  }

  // Every name is a valid one and leads to the number of some node.
  ghost predicate NamesLead(t: Fs) {
    forall d: nat, nm: Name, x: nat :: IsLink(t, d, nm, x) ==> 0 < x < |t| && NameCheck(nm) == OK
  }

  // Besides the root, two directories that name each other.
  const CYCLE: Fs := [Free, Dir(map[], ROOT, 0, 0), Dir(map["b" := 3], 3, 1, 0), Dir(map["a" := 2], 2, 1, 0)]

  // They hang off nothing, and the checker does not see it.
  lemma DetachedCyclePasses()
    ensures Consistent(CYCLE) && RootOk(CYCLE) && NamesLead(CYCLE) && NoOrphans(CYCLE)
    ensures !Rooted(CYCLE, 2) && !TreeInv(CYCLE)
  {
    var t := CYCLE;
    assert Links(t, 2) == {Link(3, "a")} && Links(t, 3) == {Link(2, "b")} && Links(t, ROOT) == {};
    forall id: nat | 0 < id < |t| ensures ConsistentAt(t, id) {}
    forall k: nat ensures Anc(t, 2, k) != ROOT { CycleStays(t, 2, k); }
  }

  lemma {:induction false} CycleStays(t: Fs, x: nat, k: nat)
    requires ParentOf(t, 2) == 3 && ParentOf(t, 3) == 2 && (x == 2 || x == 3)
    ensures Anc(t, x, k) == 2 || Anc(t, x, k) == 3
    decreases k
  {
    if k > 0 { CycleStays(t, ParentOf(t, x), k - 1); }
  }

  lemma StartMet(s: Src, c: Census)
    requires s.g.Ok() && c.Shaped(s.g) && |s.T.nodes| == MAX_NODES && |s.T.chains| == MAX_NODES && c.errors == 0
    requires forall b: nat :: b < s.g.total ==> (c.shadow[b] <==> b < s.g.DataFirst() || b == s.mapPhys)
    requires forall i: nat :: i < s.g.nodeCount ==> c.nlink[i] == 0 && !c.present[i]
    ensures Within(s, c.shadow, 0, 0) && Met(s, c, 0, 0)
  {}
}
