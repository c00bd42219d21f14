// The typed disk: what each block holds, what a consistent image is, and how the abstract
// filesystem of module Namespace is read off an image.
//
// The checksum is a parameter `crc` of everything below: nothing depends on which function
// it is.
module GfsDisk {
  import opened GfsTypes
  import opened Namespace

  datatype Bp = Bp(phys: nat, crc: nat)                // checksummed block pointer; phys 0 is null
  datatype Extent = Extent(logical: nat, phys: nat, len: nat)
  datatype NType = TFree | TNamespace | TData
  datatype DNode = DNode(typ: NType, mode: nat, size: nat, nlink: nat, edgeCount: nat, parent: nat,
                         edgeHead: Bp, ext: seq<Extent>)
  datatype Edge = Edge(name: Name, target: nat)
  datatype Super = Super(gen: nat, total: nat, nodeCount: nat, root: nat, bmStart: nat, bmBlocks: nat,
                         bmCrc: nat, nodemap: Bp, freeBlocks: nat, freeNodes: nat)
  datatype Block =
    | SuperB(sb: Super, sum: nat)
    | BitmapB(bits: seq<bool>)
    | MapB(slots: seq<Bp>)
    | TableB(recs: seq<DNode>)
    | EdgeB(edges: seq<Edge>, next: Bp)
    | DataB(bytes: seq<byte>)
    | Junk                                              // anything else, e.g. a torn superblock

  type Disk = seq<Block>
  type Crc = Block -> nat

  const NULL_BP := Bp(0, 0)
  const ZERO_NODE := DNode(TFree, 0, 0, 0, 0, 0, NULL_BP, [])

  datatype Geo = Geo(total: nat, nodeCount: nat, bmBlocks: nat) {
    function DataFirst(): nat { BM_START + 2 * bmBlocks }
    predicate Ok() {
      && 2 <= nodeCount <= MAX_NODES
      && 1 <= bmBlocks
      && (bmBlocks - 1) * BM_BITS < total <= bmBlocks * BM_BITS
      && DataFirst() + 2 <= total
    }
  }

  // ---- file extents -------------------------------------------------------------------------

  // bmap: physical block of a logical block, 0 for a hole.
  function Bmap(ext: seq<Extent>, l: nat): nat {
    if |ext| == 0 then 0
    else if ext[0].logical <= l < ext[0].logical + ext[0].len then ext[0].phys + (l - ext[0].logical)
    else Bmap(ext[1..], l)
  }

  function Nblocks(size: nat): nat { (size + BLOCK - 1) / BLOCK }

  ghost predicate ExtOk(g: Geo, ext: seq<Extent>, size: nat) {
    && |ext| <= INLINE_EXTENTS
    && size <= MAX_FILE_SIZE
    && (forall i :: 0 <= i < |ext| ==>
      1 <= ext[i].len && g.DataFirst() <= ext[i].phys && ext[i].logical + ext[i].len <= Nblocks(size))
    && (forall i, j :: 0 <= i < j < |ext| ==> ext[i].logical + ext[i].len <= ext[j].logical)
  }

  ghost predicate IsData(disk: Disk, b: nat) {
    b < |disk| && disk[b].DataB? && |disk[b].bytes| == BLOCK
  }

  ghost predicate DataInj(ext: seq<Extent>) {
    forall l: nat, m: nat :: Bmap(ext, l) != 0 && Bmap(ext, l) == Bmap(ext, m) ==> l == m
  }

  // Bytes past the end of file inside the last block are zero.
  ghost predicate TailZero(disk: Disk, ext: seq<Extent>, size: nat) {
    var p := Bmap(ext, size / BLOCK);
    p != 0 && IsData(disk, p) ==> forall i :: size % BLOCK <= i < BLOCK ==> disk[p].bytes[i] == 0
  }

  ghost predicate DataOk(g: Geo, disk: Disk, n: DNode) {
    && ExtOk(g, n.ext, n.size)
    && DataInj(n.ext)
    && (forall l: nat :: Bmap(n.ext, l) != 0 ==> IsData(disk, Bmap(n.ext, l)))
    && TailZero(disk, n.ext, n.size)
  }

  function ByteAt(disk: Disk, ext: seq<Extent>, i: nat): byte {
    var p := Bmap(ext, i / BLOCK);
    if p != 0 && p < |disk| && disk[p].DataB? && i % BLOCK < |disk[p].bytes| then disk[p].bytes[i % BLOCK] else 0
  }

  function Content(disk: Disk, ext: seq<Extent>, size: nat): (c: seq<byte>)
    ensures |c| == size
  {
    seq(size, i requires 0 <= i < size => ByteAt(disk, ext, i))
  }

  function DataSet(ext: seq<Extent>): set<nat> {
    set l: nat | 0 <= l < MAX_FILE_BLOCKS && Bmap(ext, l) != 0 :: Bmap(ext, l)
  }

  // ---- edge chains ----------------------------------------------------------------------------
  // A chain is listed from its tail: chain[0] is the last block, the head pointer addresses the
  // last element, and each block points at the element before it.

  function PtrTo(crc: Crc, disk: Disk, b: nat): Bp {
    if b < |disk| then Bp(b, crc(disk[b])) else NULL_BP
  }

  function HeadOf(crc: Crc, disk: Disk, chain: seq<nat>): Bp {
    if chain == [] then NULL_BP else PtrTo(crc, disk, chain[|chain| - 1])
  }

  ghost predicate EdgeBlockOk(crc: Crc, disk: Disk, chain: seq<nat>, i: nat)
    requires i < |chain|
  {
    && 0 < chain[i] < |disk|
    && disk[chain[i]].EdgeB?
    && 0 < |disk[chain[i]].edges| <= EDGES_PER_BLOCK
    && disk[chain[i]].next == HeadOf(crc, disk, chain[..i])
  }

  ghost predicate ChainOk(crc: Crc, disk: Disk, head: Bp, chain: seq<nat>) {
    && head == HeadOf(crc, disk, chain)
    && (forall i: nat :: i < |chain| ==> EdgeBlockOk(crc, disk, chain, i))
    && (forall i, j :: 0 <= i < j < |chain| ==> chain[i] != chain[j])
  }

  function EdgesIn(disk: Disk, b: nat): seq<Edge> {
    if b < |disk| && disk[b].EdgeB? then disk[b].edges else []
  }

  // The edges in the order a walk from the head meets them.
  function Edges(disk: Disk, chain: seq<nat>): seq<Edge> {
    if chain == [] then []
    else EdgesIn(disk, chain[|chain| - 1]) + Edges(disk, chain[..|chain| - 1])
  }

  ghost predicate NamesUnique(es: seq<Edge>) {
    forall i, j :: 0 <= i < j < |es| ==> es[i].name != es[j].name
  }

  // First edge wins, as in a walk.
  function EntryMap(es: seq<Edge>): map<Name, nat> {
    if es == [] then map[] else EntryMap(es[1..])[es[0].name := es[0].target]
  }

  function ChainSet(chain: seq<nat>): set<nat> { set b | b in chain }

  // ---- the tree of metadata -----------------------------------------------------------------------

  // Who reaches an allocated block.
  datatype Owner = OTable(bi: nat) | ONode(id: nat)

  datatype Tree = Tree(nodes: seq<DNode>, chains: seq<seq<nat>>, owner: map<nat, Owner>)

  function BlocksOf(n: DNode, chain: seq<nat>): set<nat> { ChainSet(chain) + DataSet(n.ext) }

  ghost predicate Owned(T: Tree, b: nat, o: Owner) { b in T.owner && T.owner[b] == o }

  // Table block bi, when present, is a checksummed table owned by slot bi.
  ghost predicate TableOk(crc: Crc, disk: Disk, mp: seq<Bp>, T: Tree, bi: nat)
    requires bi < |mp|
  {
    var p := mp[bi].phys;
    p != 0 ==>
      && Owned(T, p, OTable(bi))
      && p < |disk| && disk[p].TableB? && |disk[p].recs| == NODES_PER_BLOCK
      && mp[bi] == PtrTo(crc, disk, p)
  }

  // The record of node id that the map leads to.
  function RecordAt(disk: Disk, mp: seq<Bp>, id: nat): DNode
    requires id < MAX_NODES && |mp| == MAP_SLOTS
  {
    var p := mp[id / NODES_PER_BLOCK].phys;
    if p != 0 && p < |disk| && disk[p].TableB? && |disk[p].recs| == NODES_PER_BLOCK
    then disk[p].recs[id % NODES_PER_BLOCK]
    else ZERO_NODE
  }

  // The table agrees with the tree, except for nodes changed in memory and not written yet.
  ghost predicate RecOk(disk: Disk, mp: seq<Bp>, T: Tree, dirty: set<nat>, id: nat)
    requires id < MAX_NODES && |mp| == MAP_SLOTS && |T.nodes| == MAX_NODES
  {
    id in dirty || RecordAt(disk, mp, id) == T.nodes[id]
  }

  // A node record is well formed on this disk.
  ghost predicate NodeWf(g: Geo, crc: Crc, disk: Disk, n: DNode, chain: seq<nat>) {
    match n.typ
    case TFree => n == ZERO_NODE && chain == []
    case TNamespace =>
      && n.ext == [] && n.size == 0
      && ChainOk(crc, disk, n.edgeHead, chain)
      && n.edgeCount == |Edges(disk, chain)|
      && NamesUnique(Edges(disk, chain))
    case TData =>
      && chain == [] && n.edgeHead == NULL_BP && n.edgeCount == 0 && n.parent == 0
      && DataOk(g, disk, n)
  }

  ghost predicate NodeOwns(T: Tree, id: nat)
    requires id < |T.nodes| && id < |T.chains|
  {
    forall b: nat :: Owned(T, b, ONode(id)) <==> b in BlocksOf(T.nodes[id], T.chains[id])
  }

  ghost predicate NodeOk(g: Geo, crc: Crc, disk: Disk, T: Tree, id: nat) {
    && id < |T.nodes| && id < |T.chains|
    && (id == 0 || id >= g.nodeCount ==> T.nodes[id] == ZERO_NODE)
    && NodeWf(g, crc, disk, T.nodes[id], T.chains[id])
    && NodeOwns(T, id)
  }

  // No owner is stale.
  ghost predicate OwnerOk(g: Geo, mp: seq<Bp>, T: Tree, b: nat)
    requires b in T.owner
  {
    && g.DataFirst() <= b < g.total
    && match T.owner[b]
       case OTable(bi) => bi < |mp| && bi * NODES_PER_BLOCK < g.nodeCount && mp[bi].phys == b
       case ONode(id) => id < MAX_NODES
  }

  ghost predicate TreeOk(g: Geo, crc: Crc, disk: Disk, mp: seq<Bp>, T: Tree, dirty: set<nat>) {
    && g.total <= |disk|
    && |mp| == MAP_SLOTS && |T.nodes| == MAX_NODES && |T.chains| == MAX_NODES
    && (forall bi: nat {:trigger TableOk(crc, disk, mp, T, bi)} :: bi < MAP_SLOTS ==> TableOk(crc, disk, mp, T, bi))
    && (forall id: nat {:trigger RecOk(disk, mp, T, dirty, id)} :: id < MAX_NODES ==> RecOk(disk, mp, T, dirty, id))
    && (forall id: nat {:trigger NodeOk(g, crc, disk, T, id)} :: id < MAX_NODES ==> NodeOk(g, crc, disk, T, id))
    && (forall b: nat {:trigger OwnerOk(g, mp, T, b)} :: b in T.owner ==> OwnerOk(g, mp, T, b))
  }

  lemma TreeLengths(g: Geo, crc: Crc, disk: Disk, mp: seq<Bp>, T: Tree, dirty: set<nat>)
    requires TreeOk(g, crc, disk, mp, T, dirty)
    ensures |T.nodes| == MAX_NODES && |T.chains| == MAX_NODES
  {}

  // ---- the abstract filesystem held by a tree --------------------------------------------------------

  function ViewNode(disk: Disk, n: DNode, chain: seq<nat>): Node {
    match n.typ
    case TFree => Free
    case TNamespace => Dir(EntryMap(Edges(disk, chain)), n.parent, n.nlink, n.mode)
    case TData => File(Content(disk, n.ext, n.size), n.nlink, n.mode)
  }

  function View(g: Geo, disk: Disk, T: Tree): (fs: Fs)
    ensures |fs| == g.nodeCount
  {
    seq(g.nodeCount, id requires 0 <= id < g.nodeCount =>
      if id < |T.nodes| && id < |T.chains| then ViewNode(disk, T.nodes[id], T.chains[id]) else Free)
  }

  // ---- allocation bitmap -------------------------------------------------------------------------------

  function Chunk(bm: seq<bool>, j: nat): seq<bool> {
    seq(BM_BITS, i requires 0 <= i < BM_BITS => j * BM_BITS + i < |bm| && bm[j * BM_BITS + i])
  }

  function CountFree(bm: seq<bool>): nat {
    if |bm| == 0 then 0 else CountFree(bm[..|bm| - 1]) + (if bm[|bm| - 1] then 0 else 1)
  }

  function CountFreeNodes(nodes: seq<DNode>, n: nat): nat
    requires n <= |nodes|
  {
    if n <= 1 then 0 else CountFreeNodes(nodes, n - 1) + (if nodes[n - 1].typ == TFree then 1 else 0)
  }

  // Exactly the reserved blocks, the node map and the owned blocks are in use.
  ghost predicate UsedOk(g: Geo, bm: seq<bool>, mapPhys: nat, owner: map<nat, Owner>) {
    && |bm| == g.total
    && mapPhys !in owner
    && forall b :: 0 <= b < g.total ==> (bm[b] <==> b < g.DataFirst() || b == mapPhys || b in owner)
  }

  // ---- a consistent image ----------------------------------------------------------------------------------

  // Everything the live superblock commits to.
  datatype Live = Live(g: Geo, gen: nat, nodemap: Bp, bm: seq<bool>, freeBlocks: nat, freeNodes: nat,
                       mp: seq<Bp>, T: Tree)

  function SbSum(crc: Crc, sb: Super): nat { crc(SuperB(sb, 0)) }

  predicate SbValid(crc: Crc, b: Block) { b.SuperB? && b.sum == SbSum(crc, b.sb) }

  function SbFor(crc: Crc, L: Live): Super {
    Super(L.gen, L.g.total, L.g.nodeCount, ROOT, BM_START, L.g.bmBlocks, crc(BitmapB(L.bm)), L.nodemap,
          L.freeBlocks, L.freeNodes)
  }

  function SbBlock(crc: Crc, L: Live): Block { SuperB(SbFor(crc, L), SbSum(crc, SbFor(crc, L))) }

  function BmAddr(g: Geo, parity: nat, j: nat): nat { BM_START + parity * g.bmBlocks + j }

  ghost predicate BitmapAt(g: Geo, disk: Disk, parity: nat, bm: seq<bool>) {
    forall j: nat :: j < g.bmBlocks ==>
      BmAddr(g, parity, j) < |disk| && disk[BmAddr(g, parity, j)] == BitmapB(Chunk(bm, j))
  }

  ghost predicate SlotsOk(crc: Crc, disk: Disk, L: Live) {
    && |disk| >= 2
    && disk[L.gen % 2] == SbBlock(crc, L)
    && var other := disk[1 - L.gen % 2];
       SbValid(crc, other) ==> other.sb.gen < L.gen
  }

  ghost predicate MapOk(crc: Crc, disk: Disk, L: Live) {
    && L.g.DataFirst() <= L.nodemap.phys < L.g.total <= |disk|
    && disk[L.nodemap.phys] == MapB(L.mp)
    && L.nodemap.crc == crc(MapB(L.mp))
  }

  ghost predicate Image(crc: Crc, disk: Disk, L: Live) {
    && L.g.Ok()
    && SlotsOk(crc, disk, L)
    && BitmapAt(L.g, disk, L.gen % 2, L.bm)
    && MapOk(crc, disk, L)
    && TreeOk(L.g, crc, disk, L.mp, L.T, {})
    && UsedOk(L.g, L.bm, L.nodemap.phys, L.T.owner)
    && L.freeBlocks == CountFree(L.bm)
    && L.freeNodes == CountFreeNodes(L.T.nodes, L.g.nodeCount)
  }

  // Mounting this disk gives the filesystem fs.
  ghost predicate RecoversTo(crc: Crc, disk: Disk, fs: Fs) {
    exists L :: Image(crc, disk, L) && View(L.g, disk, L.T) == fs
  }
}
