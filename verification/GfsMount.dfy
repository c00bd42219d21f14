// Making and mounting a filesystem: mkfs writes a consistent image of the empty tree, and mount
// finds the filesystem a consistent image holds.
module GfsMount {
  import opened GfsTypes
  import opened Namespace
  import opened GfsDisk
  import opened GfsFrame
  import opened GfsCore
  import opened GfsCrash

  // One device write: it may fail, unless the device is sound, and then the block may hold anything.
  method DevWrite(sound: bool, disk: Disk, lba: nat, b: Block) returns (ok: bool, disk': Disk)
    requires lba < |disk|
    ensures |disk'| == |disk| && (ok ==> disk' == disk[lba := b])
    ensures forall j :: 0 <= j < |disk| && j != lba ==> disk'[j] == disk[j]
    ensures sound ==> ok
  {
    ok := *;
    ok := ok || sound;
    if ok { return true, disk[lba := b]; }
    return false, disk[lba := Junk];
  }

  // One device read: it may fail, unless the device is sound.
  method DevRead(sound: bool, disk: Disk, lba: nat) returns (ok: bool, b: Block)
    ensures ok ==> lba < |disk| && b == disk[lba]
    ensures sound && lba < |disk| ==> ok
  {
    ok := *;
    ok := ok || sound;
    if ok && lba < |disk| { return true, disk[lba]; }
    return false, Junk;
  }

  // ---- mkfs -----------------------------------------------------------------------------------------

  function Clamp(nodeCount: nat): (n: nat)
    ensures 2 <= n <= MAX_NODES && (2 <= nodeCount <= MAX_NODES ==> n == nodeCount)
    ensures (n > nodeCount ==> n == 2) && (n < nodeCount ==> n == MAX_NODES)
  {
    if nodeCount < 2 then 2 else if nodeCount > MAX_NODES then MAX_NODES else nodeCount
  }

  // Bitmap blocks for a device: bytes first, then blocks, as mkfs rounds them.
  function BitmapBlocks(total: nat): nat {
    var n := ((total + 7) / 8 + BLOCK - 1) / BLOCK;
    if n == 0 then 1 else n
  }

  lemma BitmapFits(total: nat)
    requires total > 0
    ensures (BitmapBlocks(total) - 1) * BM_BITS < total <= BitmapBlocks(total) * BM_BITS
  {}

  function UsedPrefix(total: nat): nat { BM_START + 2 * BitmapBlocks(total) + 2 }

  // What mkfs takes for itself: two superblocks, two copies of a bitmap just long enough for the device, the node map
  // and the first table.
  lemma UsedPrefixIs(total: nat, blocks: nat)
    requires blocks >= 1 && (blocks - 1) * BM_BITS < total <= blocks * BM_BITS
    ensures UsedPrefix(total) == 2 + 2 * blocks + 2
  {
    BitmapFits(total);
  }

  function RootNode(mode: nat): DNode { ZERO_NODE.(typ := TNamespace, parent := ROOT, mode := mode) }

  function FirstTable(mode: nat): (t: seq<DNode>)
    ensures |t| == NODES_PER_BLOCK
  {
    seq(NODES_PER_BLOCK, i => if i == ROOT then RootNode(mode) else ZERO_NODE)
  }

  function FirstMap(table: Bp): (m: seq<Bp>)
    ensures |m| == MAP_SLOTS
  {
    seq(MAP_SLOTS, i => if i == 0 then table else NULL_BP)
  }

  // The blocks below first are in use, and so are the two at `at`.
  function FirstBits(total: nat, first: nat, at: nat): (bm: seq<bool>)
    ensures |bm| == total
  {
    seq(total, b => b < first || at <= b < at + 2)
  }

  function NewGeo(total: nat, nodeCount: nat): Geo { Geo(total, Clamp(nodeCount), BitmapBlocks(total)) }

  // One table block, holding the root directory.
  function NewTree(at: nat, mode: nat): Tree {
    Tree(seq(MAX_NODES, i => if i == ROOT then RootNode(mode) else ZERO_NODE), seq(MAX_NODES, i => []),
      map[at + 1 := OTable(0)])
  }

  // An empty filesystem whose node map is at block `at` and whose table follows it.
  function EmptyLive(crc: Crc, g: Geo, gen: nat, at: nat, mode: nat): Live {
    var mp := FirstMap(Bp(at + 1, crc(TableB(FirstTable(mode)))));
    Live(g, gen, Bp(at, crc(MapB(mp))), FirstBits(g.total, g.DataFirst(), at),
         if g.total < g.DataFirst() + 2 then 0 else g.total - (g.DataFirst() + 2),
         if g.nodeCount < 2 then 0 else g.nodeCount - 2, mp, NewTree(at, mode))
  }

  // The one mkfs lays down.
  function NewLive(crc: Crc, g: Geo, gen: nat): Live { EmptyLive(crc, g, gen, g.DataFirst(), 0) }

  lemma {:induction false} PrefixFree(total: nat, first: nat, at: nat)
    requires first <= at
    ensures CountFree(FirstBits(total, first, at)) ==
      if total <= first then 0 else if total <= at then total - first else if total <= at + 2 then at - first
        else total - first - 2
    decreases total
  {
    if total > 0 {
      assert FirstBits(total, first, at)[..total - 1] == FirstBits(total - 1, first, at);
      PrefixFree(total - 1, first, at);
    }
  }

  lemma {:induction false} FreshFreeNodes(at: nat, mode: nat, n: nat)
    requires 2 <= n <= MAX_NODES
    ensures CountFreeNodes(NewTree(at, mode).nodes, n) == n - 2
  {
    if n > 2 { FreshFreeNodes(at, mode, n - 1); }
  }

  // The blocks of an empty filesystem, other than the superblocks.
  ghost predicate BodyWritten(disk: Disk, L: Live, at: nat, mode: nat) {
    && L.g.DataFirst() <= at && at + 2 <= L.g.total <= |disk|
    && disk[at + 1] == TableB(FirstTable(mode))
    && disk[at] == MapB(L.mp)
    && BitmapAt(L.g, disk, L.gen % 2, L.bm)
  }

  lemma NewNodesOk(g: Geo, crc: Crc, disk: Disk, at: nat, mode: nat, id: nat)
    requires g.Ok() && id < MAX_NODES
    ensures NodeOk(g, crc, disk, NewTree(at, mode), id)
  {
    var T := NewTree(at, mode);
    assert Edges(disk, []) == [];
    assert BlocksOf(T.nodes[id], T.chains[id]) == {} by {
      assert T.nodes[id].ext == [] && T.chains[id] == [];
      assert forall l: nat :: Bmap([], l) == 0;
    }
    forall b: nat ensures Owned(T, b, ONode(id)) <==> b in BlocksOf(T.nodes[id], T.chains[id]) {}
  }

  lemma NewTreeOk(g: Geo, crc: Crc, disk: Disk, L: Live, at: nat, mode: nat)
    requires g.Ok() && L == EmptyLive(crc, g, L.gen, at, mode) && BodyWritten(disk, L, at, mode)
    ensures TreeOk(g, crc, disk, L.mp, L.T, {})
  {
    hide NodeOk;
    var T := L.T;
    forall bi: nat | bi < MAP_SLOTS ensures TableOk(crc, disk, L.mp, T, bi) {}
    forall id: nat | id < MAX_NODES ensures RecOk(disk, L.mp, T, {}, id) {}
    forall id: nat | id < MAX_NODES ensures NodeOk(g, crc, disk, T, id) { NewNodesOk(g, crc, disk, at, mode, id); }
    forall b: nat | b in T.owner ensures OwnerOk(g, L.mp, T, b) {}
  }

  lemma NewImage(crc: Crc, disk: Disk, L: Live, at: nat, mode: nat)
    requires L.g.Ok() && L == EmptyLive(crc, L.g, L.gen, at, mode) && BodyWritten(disk, L, at, mode)
      && SlotsOk(crc, disk, L)
    ensures Image(crc, disk, L) && View(L.g, disk, L.T) == Fresh(L.g.nodeCount, mode)
  {
    hide TreeOk, BitmapAt, SlotsOk;
    NewTreeOk(L.g, crc, disk, L, at, mode);
    PrefixFree(L.g.total, L.g.DataFirst(), at);
    FreshFreeNodes(at, mode, L.g.nodeCount);
    NewView(L.g, disk, at, mode);
    assert UsedOk(L.g, L.bm, L.nodemap.phys, L.T.owner);
  }

  lemma NewView(g: Geo, disk: Disk, at: nat, mode: nat)
    requires g.Ok()
    ensures View(g, disk, NewTree(at, mode)) == Fresh(g.nodeCount, mode)
  {
    assert EntryMap(Edges(disk, [])) == map[];
    var v := View(g, disk, NewTree(at, mode));
    assert forall id: nat :: id < |v| ==> v[id] == Fresh(g.nodeCount, mode)[id];
  }

  // One copy of the bitmap, built bit by bit; returns the bits it covered.
  method WriteCopy(sound: bool, disk0: Disk, g: Geo, parity: nat) returns (ok: bool, disk: Disk, bits: seq<bool>)
    requires g.Ok() && g.total <= |disk0| && parity < 2
    ensures |disk| == |disk0| && bits == FirstBits(g.total, g.DataFirst(), g.DataFirst())
    ensures (ok ==> BitmapAt(g, disk, parity, bits)) && (sound ==> ok)
    ensures forall b :: 0 <= b < |disk| && !(BmAddr(g, parity, 0) <= b < BmAddr(g, parity, 0) + g.bmBlocks) ==>
      disk[b] == disk0[b]
  {
    disk := disk0;
    bits := FirstBits(g.total, g.DataFirst(), g.DataFirst());
    var j := 0;
    while j < g.bmBlocks
      invariant j <= g.bmBlocks && |disk| == |disk0|
      invariant forall i: nat :: i < j ==> disk[BmAddr(g, parity, i)] == BitmapB(Chunk(bits, i))
      invariant forall b :: 0 <= b < |disk| && !(BmAddr(g, parity, 0) <= b < BmAddr(g, parity, 0) + g.bmBlocks) ==>
        disk[b] == disk0[b]
    {
      var blk := seq(BM_BITS, i requires 0 <= i < BM_BITS => j * BM_BITS + i < g.total
        && j * BM_BITS + i < g.DataFirst() + 2);
      assert blk == Chunk(bits, j);
      ok, disk := DevWrite(sound, disk, BmAddr(g, parity, j), BitmapB(blk));
      if !ok { return; }
      j := j + 1;
    }
    ok := true;
  }

  // Generation 0 goes to slot 0 and generation 1, the live one, to slot 1.
  method WriteSupers(sound: bool, crc: Crc, disk0: Disk, g: Geo, nm: Bp, bits: seq<bool>, ghost L: Live)
    returns (ok: bool, disk: Disk)
    requires g.Ok() && |disk0| >= 2 && L == NewLive(crc, g, 1) && nm == L.nodemap && bits == L.bm
    ensures |disk| == |disk0| && forall b :: 2 <= b < |disk| ==> disk[b] == disk0[b]
    ensures (ok ==> SlotsOk(crc, disk, L)) && (sound ==> ok)
  {
    var sb := Super(0, g.total, g.nodeCount, ROOT, BM_START, g.bmBlocks, crc(BitmapB(bits)), nm,
      g.total - (g.DataFirst() + 2), g.nodeCount - 2);
    ok, disk := DevWrite(sound, disk0, 0, SuperB(sb, SbSum(crc, sb)));
    if !ok { return; }
    sb := sb.(gen := 1);
    ok, disk := DevWrite(sound, disk, 1, SuperB(sb, SbSum(crc, sb)));
  }

  // The table, the node map and both copies of the bitmap.
  method WriteBody(sound: bool, crc: Crc, disk0: Disk, g: Geo) returns (ok: bool, disk: Disk, nm: Bp, bits: seq<bool>)
    requires g.Ok() && g.DataFirst() + 2 <= g.total <= |disk0|
    ensures |disk| == |disk0| && forall b :: g.DataFirst() + 2 <= b < |disk| ==> disk[b] == disk0[b]
    ensures sound ==> ok
    ensures ok ==> var L := NewLive(crc, g, 1);
      nm == L.nodemap && bits == L.bm && BodyWritten(disk, L, g.DataFirst(), 0)
  {
    hide FirstTable, FirstMap, FirstBits, Chunk;
    var tablePhys, mapPhys := g.DataFirst() + 1, g.DataFirst();
    nm, bits := NULL_BP, [];
    ok, disk := DevWrite(sound, disk0, tablePhys, TableB(FirstTable(0)));
    if !ok { return; }
    var mp := FirstMap(Bp(tablePhys, crc(TableB(FirstTable(0)))));
    nm := Bp(mapPhys, crc(MapB(mp)));
    ok, disk := DevWrite(sound, disk, mapPhys, MapB(mp));
    if !ok { return; }
    ok, disk, bits := WriteCopy(sound, disk, g, 0);
    if !ok { return; }
    ok, disk, bits := WriteCopy(sound, disk, g, 1);
  }

  method Mkfs(sound: bool, crc: Crc, disk0: Disk, total: nat, nodeCount: nat)
    returns (rc: Err, disk: Disk, ghost faulted: bool)
    requires total <= |disk0|
    ensures |disk| == |disk0| && rc in {OK, EINVAL, EIO}
    ensures rc == EINVAL <==> total < UsedPrefix(total)
    ensures (rc == EIO <==> faulted) && (sound ==> !faulted)
    ensures forall b :: UsedPrefix(total) <= b < |disk| ==> disk[b] == disk0[b]
    ensures rc == OK ==> Image(crc, disk, NewLive(crc, NewGeo(total, nodeCount), 1))
    ensures rc == OK ==> RecoversTo(crc, disk, Fresh(Clamp(nodeCount), 0))
  {
    hide View, Image, FirstMap, FirstTable, FirstBits, SlotsOk, BodyWritten;
    disk, faulted := disk0, false;
    if UsedPrefix(total) > total { return EINVAL, disk, faulted; }
    var g := NewGeo(total, nodeCount);
    BitmapFits(total);
    ghost var L := NewLive(crc, g, 1);
    var ok, nm, bits;
    ok, disk, nm, bits := WriteBody(sound, crc, disk, g);
    faulted := !ok;
    if !ok { return EIO, disk, faulted; }
    ghost var body := disk;
    ok, disk := WriteSupers(sound, crc, disk, g, nm, bits, L);
    faulted := !ok;
    if !ok { return EIO, disk, faulted; }
    BodyKept(body, disk, L, g.DataFirst(), 0);
    NewImage(crc, disk, L, g.DataFirst(), 0);
    Recovers(crc, disk, L);
    rc := OK;
  }

  lemma BodyKept(disk: Disk, disk': Disk, L: Live, at: nat, mode: nat)
    requires BodyWritten(disk, L, at, mode) && |disk'| == |disk| && forall b :: 2 <= b < |disk| ==> disk'[b] == disk[b]
    ensures BodyWritten(disk', L, at, mode)
  {
    hide FirstTable, Chunk;
  }

  // ---- mount ----------------------------------------------------------------------------------------

  ghost predicate Candidate(crc: Crc, disk: Disk, slot: nat, sb: Super) {
    slot < 2 && slot < |disk| && SbValid(crc, disk[slot]) && disk[slot].sb == sb
  }

  // The valid slot with the highest generation, among those that could be read.
  ghost predicate Newest(crc: Crc, disk: Disk, seen: set<nat>, sb: Super) {
    && (exists slot: nat :: slot in seen && Candidate(crc, disk, slot, sb))
    && forall slot: nat, s: Super :: slot in seen && Candidate(crc, disk, slot, s) ==> s.gen <= sb.gen
  }

  // The chosen superblock is the newest of those the device would give up: a slot that cannot be read is passed over.
  method PickSuper(sound: bool, crc: Crc, disk: Disk) returns (have: bool, chosen: Super, ghost seen: set<nat>)
    ensures seen <= {0, 1} && (sound && |disk| >= 2 ==> seen == {0, 1})
    ensures have <==> Newest(crc, disk, seen, chosen)
    ensures have <==> exists slot: nat, s: Super :: slot in seen && Candidate(crc, disk, slot, s)
  {
    have, seen := false, {};
    chosen := Super(0, 0, 0, 0, 0, 0, 0, NULL_BP, 0, 0);
    var slot := 0;
    while slot < 2
      invariant slot <= 2 && seen <= {0, 1} && forall t :: t in seen ==> t < slot
      invariant sound && |disk| >= 2 ==> forall t: nat :: t < slot ==> t in seen
      invariant have ==> exists t: nat :: t in seen && Candidate(crc, disk, t, chosen)
      invariant forall t: nat, s: Super :: t in seen && Candidate(crc, disk, t, s) ==> have && s.gen <= chosen.gen
    {
      var ok, b := DevRead(sound, disk, slot);
      if ok { seen := seen + {slot}; }
      if ok && SbValid(crc, b) && (!have || b.sb.gen > chosen.gen) {
        have, chosen := true, b.sb;
        assert Candidate(crc, disk, slot, chosen);
      }
      slot := slot + 1;
    }
  }

  // sb_geometry_ok
  predicate SbSane(sb: Super) {
    && 2 <= sb.nodeCount <= MAX_NODES
    && sb.root == ROOT
    && sb.bmStart == BM_START && sb.bmBlocks != 0
    && sb.bmStart + 2 * sb.bmBlocks <= sb.total
    && sb.bmStart + 2 * sb.bmBlocks <= sb.nodemap.phys < sb.total
  }

  // The first n blocks' worth of bits.
  ghost predicate ReadSoFar(bits: seq<bool>, bm: seq<bool>, n: nat) {
    |bits| == n * BM_BITS && forall i :: 0 <= i < |bits| ==> bits[i] == (i < |bm| && bm[i])
  }

  lemma ReadNext(bits: seq<bool>, bm: seq<bool>, n: nat)
    requires ReadSoFar(bits, bm, n)
    ensures ReadSoFar(bits + Chunk(bm, n), bm, n + 1)
  {}

  method ReadBitmap(sound: bool, disk: Disk, total: nat, start: nat, blocks: nat)
    returns (rc: Err, bits: seq<bool>, ghost faulted: bool)
    ensures forall bm: seq<bool> ::
      rc == OK && |bm| == total <= blocks * BM_BITS && LaidOut(disk, start, blocks, bm) ==> bits == bm
    ensures rc == ECORRUPT ==> start + blocks > total
    ensures rc !in {OK, ECORRUPT} ==> rc == EIO && (faulted || start + blocks > |disk|)
    ensures faulted ==> rc == EIO && !sound
  {
    hide Chunk;
    bits, faulted := [], false;
    var j := 0;
    while j < blocks
      invariant j <= blocks && !faulted
      invariant forall bm: seq<bool> :: LaidOut(disk, start, blocks, bm) ==> ReadSoFar(bits, bm, j)
    {
      if start + j >= total { return ECORRUPT, bits, faulted; }
      var ok, b := DevRead(sound, disk, start + j);
      if !ok { return EIO, bits, start + j < |disk|; }
      ghost var before := bits;
      bits := bits + (if b.BitmapB? then b.bits else []);
      forall bm: seq<bool> | LaidOut(disk, start, blocks, bm) ensures ReadSoFar(bits, bm, j + 1) {
        assert b == BitmapB(Chunk(bm, j));
        ReadNext(before, bm, j);
      }
      j := j + 1;
    }
    if |bits| > total { bits := bits[..total]; }
    rc := OK;
  }

  // The bitmap bm is laid out in these blocks.
  ghost predicate LaidOut(disk: Disk, start: nat, blocks: nat, bm: seq<bool>) {
    forall j: nat :: j < blocks && start + j < |disk| ==> disk[start + j] == BitmapB(Chunk(bm, j))
  }

  // The disk as it looks when some superblock slots cannot be read.
  function Blind(disk: Disk, seen: set<nat>): (d: Disk)
    ensures |d| == |disk|
  {
    seq(|disk|, i requires 0 <= i < |disk| => if i < 2 && i !in seen then Junk else disk[i])
  }

  // What can be read holds one newest superblock, and it is the live one.
  lemma NewestIsLive(crc: Crc, disk: Disk, seen: set<nat>, L: Live, sb: Super)
    requires Image(crc, Blind(disk, seen), L) && Newest(crc, disk, seen, sb)
    ensures sb == SbFor(crc, L) && SbSane(sb)
  {
    hide TreeOk, BitmapAt, UsedOk;
    assert Blind(disk, seen)[L.gen % 2] == SbBlock(crc, L);
    assert L.gen % 2 in seen && Candidate(crc, disk, L.gen % 2, SbFor(crc, L));
    var slot: nat :| slot in seen && Candidate(crc, disk, slot, sb);
    assert Blind(disk, seen)[slot] == disk[slot];
  }

  lemma LiveIsCandidate(crc: Crc, disk: Disk, seen: set<nat>, L: Live)
    requires Image(crc, Blind(disk, seen), L)
    ensures L.gen % 2 in seen && Candidate(crc, disk, L.gen % 2, SbFor(crc, L))
  {
    hide TreeOk, BitmapAt, UsedOk;
    assert Blind(disk, seen)[L.gen % 2] == SbBlock(crc, L);
  }

  // Reading the live slot is enough; the other slot does not matter.
  lemma LiveSlotEnough(crc: Crc, disk: Disk, seen: set<nat>, L: Live)
    requires Image(crc, disk, L) && L.gen % 2 in seen
    ensures Image(crc, Blind(disk, seen), L)
  {
    hide Image, View;
    TornPublish(crc, disk, L, Junk);
    SlotCount(crc, disk, L);
    if 1 - L.gen % 2 in seen {
      assert Blind(disk, seen) == disk;
    } else {
      assert Blind(disk, seen) == disk[1 - L.gen % 2 := Junk];
    }
  }

  lemma SlotCount(crc: Crc, disk: Disk, L: Live)
    requires Image(crc, disk, L)
    ensures |disk| >= 2 && L.gen % 2 < 2
  {}

  // Without the live slot, whatever is chosen is older.
  lemma OlderWithout(crc: Crc, disk: Disk, seen: set<nat>, L: Live, sb: Super)
    requires Image(crc, disk, L) && L.gen % 2 !in seen && Newest(crc, disk, seen, sb)
    ensures sb.gen < L.gen
  {
    hide TreeOk, BitmapAt, UsedOk;
  }

  lemma LiveBitmap(crc: Crc, disk: Disk, L: Live)
    requires Image(crc, disk, L)
    ensures LaidOut(disk, BM_START + L.gen % 2 * L.g.bmBlocks, L.g.bmBlocks, L.bm)
    ensures |L.bm| == L.g.total <= L.g.bmBlocks * BM_BITS
    ensures BM_START + L.gen % 2 * L.g.bmBlocks + L.g.bmBlocks <= L.g.total <= |disk|
  {
    hide TreeOk, SlotsOk;
    forall j: nat | j < L.g.bmBlocks ensures disk[BM_START + L.gen % 2 * L.g.bmBlocks + j] == BitmapB(Chunk(L.bm, j)) {
      assert disk[BmAddr(L.g, L.gen % 2, j)] == BitmapB(Chunk(L.bm, j));
    }
  }

  // Memory is what the image commits to.
  ghost predicate Shows(fs: Gfs, L: Live)
    reads fs
  {
    && fs.Stored() == View(L.g, fs.disk, L.T) && fs.g == L.g && fs.generation == L.gen && fs.nodemap == L.nodemap
      && fs.mp == L.mp
    && fs.freeBlocks == L.freeBlocks && fs.freeNodes == L.freeNodes
      && (fs.writable ==> fs.committed == fs.working == L.bm)
  }

  // What the choice of a superblock means for the images the disk may hold.
  lemma ChosenFacts(crc: Crc, disk: Disk, seen: set<nat>, have: bool, sb: Super)
    requires seen <= {0, 1} && (have <==> Newest(crc, disk, seen, sb))
    requires have <==> exists slot: nat, s: Super :: slot in seen && Candidate(crc, disk, slot, s)
    ensures forall L :: Image(crc, disk, L) && L.gen % 2 in seen ==> Image(crc, Blind(disk, seen), L)
    ensures forall L :: Image(crc, disk, L) && L.gen % 2 !in seen && have ==> sb.gen < L.gen
    ensures var M := ReadableImage(crc, disk, seen);
      forall L :: Image(crc, Blind(disk, seen), L) ==> have && Image(crc, Blind(disk, seen), M) && Alike(disk, L, M)
  {
    hide Image, View, SlotsOk, BitmapAt, UsedOk, Newest, Candidate, Blind, LaidOut, Alike;
    forall L | Image(crc, disk, L) ensures L.gen % 2 in seen ==> Image(crc, Blind(disk, seen), L) {
      if L.gen % 2 in seen { LiveSlotEnough(crc, disk, seen, L); }
    }
    forall L | Image(crc, disk, L) && L.gen % 2 !in seen ensures have ==> sb.gen < L.gen {
      if have { OlderWithout(crc, disk, seen, L, sb); }
    }
    var M := ReadableImage(crc, disk, seen);
    forall L | Image(crc, Blind(disk, seen), L) ensures have && Image(crc, Blind(disk, seen), M) && Alike(disk, L, M) {
      LiveIsCandidate(crc, disk, seen, L);
      SameImage(crc, disk, seen, L, M);
    }
  }

  // From the chosen superblock on: its geometry, the node map and, to write, the bitmap.
  method MountChosen(sound: bool, crc: Crc, disk: Disk, writable: bool, buffer: bool, chosen: Super,
                     ghost seen: set<nat>, ghost M: Live)
    returns (rc: Err, fs: Gfs?, ghost faulted: bool)
    requires Newest(crc, disk, seen, chosen)
    ensures (rc == OK <==> fs != null) && (faulted ==> rc in {EBADFS, EIO} && !sound)
    ensures rc == OK ==> fresh(fs) && fs.crc == crc && fs.disk == disk && fs.writable == writable && fs.sound == sound
    ensures rc == OK ==>
      && SbSane(chosen) && fs.generation == chosen.gen && fs.nodemap == chosen.nodemap && fs.live == M
      && fs.nodemap == PtrTo(crc, disk, chosen.nodemap.phys)
      && (writable ==> crc(BitmapB(fs.committed)) == chosen.bmCrc)
    ensures rc == OK ==>
      && 2 <= chosen.nodeCount <= MAX_NODES && chosen.root == ROOT && chosen.bmStart == BM_START && chosen.bmBlocks > 0
      && BM_START + 2 * chosen.bmBlocks <= chosen.nodemap.phys < chosen.total
    ensures SbSane(chosen) && chosen.total <= |disk| && !faulted && (writable ==> buffer) ==> rc in {OK, EBADCRC}
    ensures Image(crc, Blind(disk, seen), M) && !faulted && (writable ==> buffer) ==> rc == OK && Shows(fs, M)
    ensures Image(crc, Blind(disk, seen), M) && Image(crc, disk, M) && rc == OK && !faulted ==> fs.Valid()
    ensures Image(crc, Blind(disk, seen), M) && !faulted && writable && !buffer ==> rc == ENOMEM
  {
    hide Image, View, SlotsOk, BitmapAt, UsedOk, Newest, Blind, LaidOut;
    fs, faulted := null, false;
    if Image(crc, Blind(disk, seen), M) { Readable(crc, disk, seen, M, chosen); }
    if !SbSane(chosen) { return EBADFS, fs, faulted; }
    var ok, b := DevRead(sound, disk, chosen.nodemap.phys);
    if !ok { return EBADFS, fs, chosen.nodemap.phys < |disk|; }
    if crc(b) != chosen.nodemap.crc { return EBADCRC, fs, faulted; }
    var slots := if b.MapB? then b.slots else [];
    var bits := [];
    if writable {
      if !buffer { return ENOMEM, fs, faulted; }
      rc, bits, faulted := ReadBitmap(sound, disk, chosen.total, chosen.bmStart + chosen.gen % 2 * chosen.bmBlocks,
        chosen.bmBlocks);
      if rc != OK { return rc, fs, faulted; }
      if crc(BitmapB(bits)) != chosen.bmCrc { return EBADCRC, fs, faulted; }
    }
    fs := new Gfs(sound, crc, disk, chosen, writable, bits, slots, M);
    rc := OK;
  }

  // Mount. On any device, what it accepts is the newest valid superblock that could be read, with a checksummed node
  // map and bitmap. With a device that reads the rest, and a buffer when one is needed, it presents the image that
  // the readable slots hold; so it presents the newest image exactly when its slot could be read, and an older one,
  // or nothing, otherwise.
  method Mount(sound: bool, crc: Crc, disk: Disk, writable: bool, buffer: bool)
    returns (rc: Err, fs: Gfs?, ghost sb: Super, ghost seen: set<nat>, ghost faulted: bool)
    ensures (rc == OK <==> fs != null) && seen <= {0, 1} && (faulted ==> rc in {EBADFS, EIO} && !sound)
    ensures sound && |disk| >= 2 ==> seen == {0, 1}
    ensures rc == OK ==> fresh(fs) && fs.crc == crc && fs.disk == disk && fs.writable == writable && fs.sound == sound
    ensures rc == OK ==>
      && Newest(crc, disk, seen, sb) && SbSane(sb) && fs.generation == sb.gen && fs.nodemap == sb.nodemap
      && fs.nodemap == PtrTo(crc, disk, sb.nodemap.phys) && (writable ==> crc(BitmapB(fs.committed)) == sb.bmCrc)
    ensures rc == OK ==>
      && 2 <= sb.nodeCount <= MAX_NODES && sb.root == ROOT && sb.bmStart == BM_START && sb.bmBlocks > 0
      && BM_START + 2 * sb.bmBlocks <= sb.nodemap.phys < sb.total
    ensures (exists slot: nat, s: Super :: slot in seen && Candidate(crc, disk, slot, s)) <==>
      Newest(crc, disk, seen, sb)
    ensures Newest(crc, disk, seen, sb) && SbSane(sb) && sb.total <= |disk| && !faulted && (writable ==> buffer) ==>
      rc in {OK, EBADCRC}
    ensures (forall slot: nat, s: Super :: slot in seen ==> !Candidate(crc, disk, slot, s)) ==> rc == EBADFS
    ensures forall L :: Image(crc, Blind(disk, seen), L) && !faulted && (writable ==> buffer) ==>
      rc == OK && Shows(fs, L)
    ensures forall L :: Image(crc, Blind(disk, seen), L) && !faulted && writable && !buffer ==> rc == ENOMEM
    ensures forall L :: Image(crc, disk, L) && !faulted && (writable ==> buffer) ==>
      (rc == OK && fs.Valid() && Shows(fs, L) <==> L.gen % 2 in seen)
    ensures forall L :: Image(crc, disk, L) && L.gen % 2 !in seen && rc == OK ==> fs.generation < L.gen
  {
    hide Image, View, SlotsOk, BitmapAt, UsedOk, Newest, Candidate, Blind, Alike, Shows, SbSane;
    fs, faulted := null, false;
    var have, chosen;
    have, chosen, seen := PickSuper(sound, crc, disk);
    sb := chosen;
    ghost var M := ReadableImage(crc, disk, seen);
    ChosenFacts(crc, disk, seen, have, sb);
    if !have { return EBADFS, fs, sb, seen, faulted; }
    rc, fs, faulted := MountChosen(sound, crc, disk, writable, buffer, chosen, seen, M);
    forall L | Image(crc, Blind(disk, seen), L) && !faulted && (writable ==> buffer) ensures Shows(fs, L) {
      ShownAlike(fs, disk, L, M);
    }
    forall L | Image(crc, disk, L) && L.gen % 2 !in seen && rc == OK ensures !Shows(fs, L) { ShownGen(fs, L); }
  }

  lemma ShownAlike(fs: Gfs, disk: Disk, L: Live, M: Live)
    requires Shows(fs, M) && Alike(disk, L, M) && fs.disk == disk
    ensures Shows(fs, L)
  {
    hide View;
  }

  lemma ShownGen(fs: Gfs, L: Live)
    requires fs.generation < L.gen
    ensures !Shows(fs, L)
  {}

  // An image the readable slots hold, if there is one.
  ghost function ReadableImage(crc: Crc, disk: Disk, seen: set<nat>): (M: Live)
    ensures (exists L :: Image(crc, Blind(disk, seen), L)) ==> Image(crc, Blind(disk, seen), M)
    ensures (exists L :: Image(crc, disk, L) && L.gen % 2 in seen) ==> Image(crc, disk, M)
  {
    if exists L :: Image(crc, disk, L) && L.gen % 2 in seen then
      var L :| Image(crc, disk, L) && L.gen % 2 in seen;
      LiveSlotEnough(crc, disk, seen, L);
      L
    else if exists L :: Image(crc, Blind(disk, seen), L) then
      var L :| Image(crc, Blind(disk, seen), L);
      L
    else NewLive(crc, Geo(0, 0, 0), 0)
  }

  // Two images of one disk differ in nothing a mount could show.
  ghost predicate Alike(disk: Disk, L: Live, M: Live) {
    && L.g == M.g && L.gen == M.gen && L.nodemap == M.nodemap && L.bm == M.bm && L.mp == M.mp
    && L.freeBlocks == M.freeBlocks && L.freeNodes == M.freeNodes && View(L.g, disk, L.T) == View(M.g, disk, M.T)
  }

  lemma SameImage(crc: Crc, disk: Disk, seen: set<nat>, L: Live, M: Live)
    requires Image(crc, Blind(disk, seen), L) && Image(crc, Blind(disk, seen), M)
    ensures Alike(disk, L, M)
  {
    hide TreeOk, BitmapAt, UsedOk, View;
    var d := Blind(disk, seen);
    SameSuperblock(crc, d, L, M);
    BitsUnique(crc, d, L, M);
    SameTree(crc, d, L.g, L.mp, L.T, M.T);
    TreeLengths(L.g, crc, d, L.mp, L.T, {});
    BlindView(crc, disk, seen, L);
    BlindView(crc, disk, seen, M);
    SameView(L.g, d, L.T, M.T);
  }

  lemma SameView(g: Geo, disk: Disk, T: Tree, S: Tree)
    requires g.Ok() && |T.nodes| == |S.nodes| == MAX_NODES && |T.chains| == |S.chains| == MAX_NODES
    requires T.nodes == S.nodes && T.chains == S.chains
    ensures View(g, disk, T) == View(g, disk, S)
  {}

  lemma BitsUnique(crc: Crc, disk: Disk, L: Live, M: Live)
    requires Image(crc, disk, L) && Image(crc, disk, M) && L.g == M.g && L.gen == M.gen
    ensures L.bm == M.bm
  {
    hide TreeOk, SlotsOk;
    forall b | 0 <= b < L.g.total ensures L.bm[b] == M.bm[b] {
      var j := b / BM_BITS;
      assert disk[BmAddr(L.g, L.gen % 2, j)] == BitmapB(Chunk(L.bm, j)) == BitmapB(Chunk(M.bm, j));
      assert Chunk(L.bm, j)[b % BM_BITS] == Chunk(M.bm, j)[b % BM_BITS];
    }
  }

  // The superblock slots are no part of the tree.
  lemma BlindView(crc: Crc, disk: Disk, seen: set<nat>, L: Live)
    requires Image(crc, Blind(disk, seen), L)
    ensures View(L.g, disk, L.T) == View(L.g, Blind(disk, seen), L.T)
  {
    var d := Blind(disk, seen);
    forall k: nat | k in L.T.owner ensures k >= 2 {
      OwnedInRange(L.g, crc, d, L.mp, L.T, {}, k);
    }
    TreeFrame(L.g, crc, d, disk, L.mp, L.T, {});
  }

  // What an image read with some slots missing says about the blocks mount goes on to read.
  lemma Readable(crc: Crc, disk: Disk, seen: set<nat>, L: Live, sb: Super)
    requires Image(crc, Blind(disk, seen), L) && Newest(crc, disk, seen, sb)
    ensures sb == SbFor(crc, L) && SbSane(sb) && L.nodemap.phys < |disk|
    ensures disk[L.nodemap.phys] == MapB(L.mp) && L.nodemap.crc == crc(MapB(L.mp))
    ensures LaidOut(disk, BM_START + L.gen % 2 * L.g.bmBlocks, L.g.bmBlocks, L.bm)
    ensures |L.bm| == L.g.total <= L.g.bmBlocks * BM_BITS
    ensures BM_START + L.gen % 2 * L.g.bmBlocks + L.g.bmBlocks <= L.g.total <= |disk|
  {
    hide Image, SlotsOk, BitmapAt, UsedOk, TreeOk;
    NewestIsLive(crc, disk, seen, L, sb);
    ImageFacts(crc, Blind(disk, seen), L);
    LiveBitmap(crc, Blind(disk, seen), L);
  }

  // The image a crash leaves after k of a call's writes is consistent, and holds the tree from
  // before the call as long as one write is missing.
  lemma CrashImage(crc: Crc, base: Disk, log: seq<Write>, L: Live, L': Live, k: nat)
    requires Atomic(crc, base, log, L, L') && k <= |log|
    ensures k < |log| ==>
      Image(crc, Replay(base, log[..k]), L) && View(L.g, Replay(base, log[..k]), L.T) == View(L.g, base, L.T)
    ensures k == |log| ==> Image(crc, Replay(base, log[..k]), L')
  {
    hide Image, Harmless, View, Prepared, SbBlock, RecoversTo, Replay, Traced, SbValid;
    assert log[..|log|] == log;
    if k == |log| {
      NoCrashFindsAfter(crc, base, log, L, L');
    } else if L' == L && Traced(crc, base, log, L) {
      CrashBeforePublish(crc, base, log, L, k, Junk);
    } else {
      var pre := log[..|log| - 1];
      assert pre[..k] == log[..k];
      CrashBeforePublish(crc, base, pre, L, k, Junk);
    }
  }

  // Crash atomicity, end to end: power fails after k of the writes of one call, and the next mount that can read the
  // slot in question presents the filesystem from before the call, or from after it when all writes landed.
  method RemountAfterCrash(sound: bool, crc: Crc, disk: Disk, writable: bool, ghost base: Disk, ghost log: seq<Write>,
                           ghost L: Live, ghost L': Live, ghost k: nat)
    returns (rc: Err, fs: Gfs?, ghost seen: set<nat>, ghost faulted: bool)
    requires Atomic(crc, base, log, L, L') && k <= |log| && disk == Replay(base, log[..k])
    ensures !faulted && k < |log| && L.gen % 2 in seen ==>
      rc == OK && fs != null && fs.Valid() && fs.Stored() == View(L.g, base, L.T)
    ensures !faulted && k == |log| && L'.gen % 2 in seen ==>
      rc == OK && fs != null && fs.Valid() && fs.Stored() == View(L'.g, Replay(base, log), L'.T)
    ensures sound ==> rc == OK && fs != null && fs.Valid()
    ensures sound ==> fs.Stored() == if k < |log| then View(L.g, base, L.T) else View(L'.g, Replay(base, log), L'.T)
  {
    hide Image, View, Replay, Traced, Published;
    assert log[..|log|] == log;
    CrashImage(crc, base, log, L, L', k);
    SlotCount(crc, disk, if k < |log| then L else L');
    ghost var sb;
    rc, fs, sb, seen, faulted := Mount(sound, crc, disk, writable, true);
  }

  // ---- the fallback to the older superblock ---------------------------------------------------------

  lemma {:induction false} BlindReplay(disk: Disk, log: seq<Write>, seen: set<nat>)
    requires forall i :: 0 <= i < |log| ==> log[i].lba >= 2
    ensures Blind(Replay(disk, log), seen) == Replay(Blind(disk, seen), log)
    ensures forall s: nat :: s < 2 && s < |disk| ==> Replay(disk, log)[s] == disk[s]
    decreases |log|
  {
    if log != [] { BlindReplay(disk, log[..|log| - 1], seen); }
  }

  // After a publish and any number of writes of the next, unfinished call: the older superblock is still there, and
  // when those writes spared the older tree, everything below it is too.
  lemma {:induction false} OlderImage(crc: Crc, base: Disk, log: seq<Write>, L: Live, L': Live, later: seq<Write>)
    requires Published(crc, base, log, L, L') && Traced(crc, Replay(base, log), later, L')
    ensures L'.gen % 2 == 1 - L.gen % 2 && L.g.total <= |base| && SbSane(SbFor(crc, L))
    ensures Image(crc, Replay(Replay(base, log), later), L')
    ensures View(L'.g, Replay(Replay(base, log), later), L'.T) == View(L'.g, Replay(base, log), L'.T)
    ensures Candidate(crc, Replay(Replay(base, log), later), L.gen % 2, SbFor(crc, L))
    ensures (forall i :: 0 <= i < |later| ==> Harmless(L, later[i].lba)) ==>
      && Image(crc, Blind(Replay(Replay(base, log), later), {L.gen % 2}), L)
      && View(L.g, Replay(Replay(base, log), later), L.T) == View(L.g, base, L.T)
  {
    hide Image, View, Replay, Harmless;
    var pre := Replay(base, log[..|log| - 1]);
    var d := Replay(base, log);
    TracedImage(crc, base, log[..|log| - 1], L);
    assert d == pre[1 - L.gen % 2 := SbBlock(crc, L')] by { PublishWrite(crc, base, log, L, L'); }
    TracedImage(crc, d, later, L');
    forall i | 0 <= i < |later| ensures later[i].lba >= 2 { HarmlessSlot(L', later[i].lba); }
    BlindReplay(d, later, {L.gen % 2});
    SaneSlot(crc, pre, L);
    if forall i :: 0 <= i < |later| ==> Harmless(L, later[i].lba) {
      TornPublish(crc, pre, L, Junk);
      assert Blind(d, {L.gen % 2}) == pre[1 - L.gen % 2 := Junk];
      TracedImage(crc, Blind(d, {L.gen % 2}), later, L);
      BlindView(crc, Replay(d, later), {L.gen % 2}, L);
    }
  }

  lemma PublishWrite(crc: Crc, base: Disk, log: seq<Write>, L: Live, L': Live)
    requires Published(crc, base, log, L, L')
    ensures |base| >= 2 && Replay(base, log) == Replay(base, log[..|log| - 1])[1 - L.gen % 2 := SbBlock(crc, L')]
    ensures L'.gen % 2 == 1 - L.gen % 2
  {
    hide Image, Prepared, Traced, SbBlock;
    PreparedFacts(crc, Replay(base, log[..|log| - 1]), L, L');
  }

  lemma SaneSlot(crc: Crc, disk: Disk, L: Live)
    requires Image(crc, disk, L)
    ensures |disk| >= 2 && disk[L.gen % 2] == SbBlock(crc, L) && SbSane(SbFor(crc, L)) && L.g.total <= |disk|
  {
    hide TreeOk, BitmapAt, UsedOk;
  }

  // One generation was published over another and the next call may have begun. A mount that can read the newer slot
  // presents the newer tree. One that can read only the older slot says nothing is wrong: it presents the older tree
  // as long as no later write touched it, and otherwise either goes by the older superblock, whose node map still has
  // its checksum, or refuses the checksum.
  method MountAfterPublish(sound: bool, crc: Crc, disk: Disk, writable: bool, ghost base: Disk, ghost log: seq<Write>,
                           ghost L: Live, ghost L': Live, ghost later: seq<Write>)
    returns (rc: Err, fs: Gfs?, ghost seen: set<nat>, ghost faulted: bool)
    requires Published(crc, base, log, L, L') && Traced(crc, Replay(base, log), later, L')
    requires disk == Replay(Replay(base, log), later)
    ensures (rc == OK <==> fs != null) && (sound ==> !faulted && seen == {0, 1})
    ensures !faulted && L'.gen % 2 in seen ==>
      rc == OK && fs.Valid() && fs.Stored() == View(L'.g, Replay(base, log), L'.T)
    ensures !faulted && seen == {L.gen % 2} ==> rc in {OK, EBADCRC}
    ensures seen == {L.gen % 2} && rc == OK ==>
      fs.generation == L.gen && fs.nodemap == L.nodemap && L.nodemap == PtrTo(crc, disk, L.nodemap.phys)
    ensures !faulted && seen == {L.gen % 2} && (forall i :: 0 <= i < |later| ==> Harmless(L, later[i].lba)) ==>
      rc == OK && Shows(fs, L) && fs.Stored() == View(L.g, base, L.T)
    ensures seen == {} ==> rc == EBADFS
  {
    hide Image, View, Replay, Traced, Published, Harmless;
    OlderImage(crc, base, log, L, L', later);
    SlotCount(crc, disk, L');
    ghost var sb;
    rc, fs, sb, seen, faulted := Mount(sound, crc, disk, writable, true);
    if seen == {L.gen % 2} { OnlyOlder(crc, disk, L, sb); }
  }

  lemma OnlyOlder(crc: Crc, disk: Disk, L: Live, sb: Super)
    requires Candidate(crc, disk, L.gen % 2, SbFor(crc, L))
    ensures Newest(crc, disk, {L.gen % 2}, sb) ==> sb == SbFor(crc, L)
  {}

  // A disk with two generations: the root directory has mode 0 in the first and mode 1 in the second.
  ghost function TwoGenerations(crc: Crc, g: Geo): (d: Disk)
    requires g.Ok() && g.DataFirst() + 4 <= g.total
    ensures |d| == g.total
  {
    var at := g.DataFirst();
    var L, L' := EmptyLive(crc, g, 1, at, 0), EmptyLive(crc, g, 2, at + 2, 1);
    seq(g.total, b requires 0 <= b < g.total =>
      if b == 0 then SbBlock(crc, L') else if b == 1 then SbBlock(crc, L)
      else if b < BM_START + g.bmBlocks then BitmapB(Chunk(L'.bm, b - BM_START))
      else if b < at then BitmapB(Chunk(L.bm, b - BM_START - g.bmBlocks))
      else if b == at then MapB(L.mp) else if b == at + 1 then TableB(FirstTable(0))
      else if b == at + 2 then MapB(L'.mp) else if b == at + 3 then TableB(FirstTable(1)) else Junk)
  }

  lemma TwoBodies(crc: Crc, g: Geo)
    requires g.Ok() && g.DataFirst() + 4 <= g.total
    ensures var d, at := TwoGenerations(crc, g), g.DataFirst();
      var L, L' := EmptyLive(crc, g, 1, at, 0), EmptyLive(crc, g, 2, at + 2, 1);
      && BodyWritten(d, L', at + 2, 1) && d[0] == SbBlock(crc, L') && d[1] == SbBlock(crc, L)
      && BodyWritten(Blind(d, {1}), L, at, 0) && Blind(d, {1})[1] == SbBlock(crc, L) && Blind(d, {1})[0] == Junk
  {
    hide FirstTable, FirstMap, FirstBits, SbFor, SbSum;
    var d, at := TwoGenerations(crc, g), g.DataFirst();
    var L, L' := EmptyLive(crc, g, 1, at, 0), EmptyLive(crc, g, 2, at + 2, 1);
    forall j: nat | j < g.bmBlocks
      ensures d[BmAddr(g, 0, j)] == BitmapB(Chunk(L'.bm, j))
        && Blind(d, {1})[BmAddr(g, 1, j)] == BitmapB(Chunk(L.bm, j))
    {}
  }

  // The newest filesystem is not always the one presented: on this disk, a mount that cannot read slot 0 succeeds and
  // shows the older tree.
  lemma FallbackShowsOlder(crc: Crc, g: Geo)
    requires g.Ok() && g.DataFirst() + 4 <= g.total
    ensures var d := TwoGenerations(crc, g);
      && Image(crc, d, EmptyLive(crc, g, 2, g.DataFirst() + 2, 1))
      && Image(crc, Blind(d, {1}), EmptyLive(crc, g, 1, g.DataFirst(), 0))
      && View(g, d, NewTree(g.DataFirst() + 2, 1)) == Fresh(g.nodeCount, 1)
      && View(g, d, NewTree(g.DataFirst(), 0)) == Fresh(g.nodeCount, 0)
      && Fresh(g.nodeCount, 1) != Fresh(g.nodeCount, 0)
  {
    hide Image, View, SbSum, BitmapAt, FirstTable, FirstMap, FirstBits, TwoGenerations;
    var d, at := TwoGenerations(crc, g), g.DataFirst();
    var L, L' := EmptyLive(crc, g, 1, at, 0), EmptyLive(crc, g, 2, at + 2, 1);
    TwoBodies(crc, g);
    NewImage(crc, d, L', at + 2, 1);
    NewImage(crc, Blind(d, {1}), L, at, 0);
    NewView(g, d, at, 0);
    assert Fresh(g.nodeCount, 1)[ROOT] != Fresh(g.nodeCount, 0)[ROOT];
  }

  method MountTwoGenerations(sound: bool, crc: Crc, disk: Disk, writable: bool, ghost g: Geo)
    returns (rc: Err, fs: Gfs?, ghost seen: set<nat>, ghost faulted: bool)
    requires g.Ok() && g.DataFirst() + 4 <= g.total && disk == TwoGenerations(crc, g)
    ensures (rc == OK <==> fs != null) && (sound ==> !faulted && seen == {0, 1})
    ensures !faulted && 0 in seen ==> rc == OK && fs.Stored() == Fresh(g.nodeCount, 1)
    ensures !faulted && 0 !in seen && 1 in seen ==> rc == OK && fs.Stored() == Fresh(g.nodeCount, 0)
  {
    hide Image, View, Fresh;
    FallbackShowsOlder(crc, g);
    ghost var sb;
    rc, fs, sb, seen, faulted := Mount(sound, crc, disk, writable, true);
    if 0 !in seen && 1 in seen { assert seen == {1}; }
  }
}
