// struct gfs: the mounted filesystem, its block I/O, allocator, node records and transactions.
module GfsCore {
  import Counting
  import opened GfsTypes
  import opened Namespace
  import opened GfsDisk
  import opened GfsFrame
  import opened GfsUpdate

  datatype Write = Write(lba: nat, b: Block)

  // The disk after a sequence of block writes.
  function Replay(disk: Disk, log: seq<Write>): (d: Disk)
    ensures |d| == |disk|
  {
    if log == [] then disk
    else
      var d := Replay(disk, log[..|log| - 1]);
      var w := log[|log| - 1];
      if w.lba < |d| then d[w.lba := w.b] else d
  }

  lemma ReplayAppend(disk: Disk, log: seq<Write>, w: Write)
    requires w.lba < |disk|
    ensures Replay(disk, log + [w]) == Replay(disk, log)[w.lba := w.b]
  {
    assert (log + [w])[..|log|] == log;
  }

  // Every write so far left the committed image alone.
  ghost predicate Traced(crc: Crc, base: Disk, log: seq<Write>, L: Live) {
    && Image(crc, base, L)
    && forall i :: 0 <= i < |log| ==> log[i].lba < |base| && Harmless(L, log[i].lba)
  }

  lemma {:induction false} TracedImage(crc: Crc, base: Disk, log: seq<Write>, L: Live)
    requires Traced(crc, base, log, L)
    ensures Image(crc, Replay(base, log), L)
    ensures View(L.g, Replay(base, log), L.T) == View(L.g, base, L.T)
    decreases |log|
  {
    hide Image, View;
    if log != [] {
      var k := |log| - 1;
      TracedImage(crc, base, log[..k], L);
      ImageFrame(crc, Replay(base, log[..k]), L, log[k].lba, log[k].b);
    }
  }

  // Least-significant facts about the bitmaps -------------------------------------------------

  ghost function FreeSet(g: Geo, committed: seq<bool>, working: seq<bool>): set<nat> {
    set b: nat | g.DataFirst() <= b < g.total && b < |committed| && b < |working| && !committed[b] && !working[b]
  }

  // The parts of an image that the block-level code leans on.
  lemma ImageFacts(crc: Crc, disk: Disk, L: Live)
    requires Image(crc, disk, L)
    ensures L.g.Ok() && L.g.total <= |disk| && |L.bm| == L.g.total && |L.mp| == MAP_SLOTS
    ensures L.g.DataFirst() <= L.nodemap.phys < L.g.total && L.bm[L.nodemap.phys]
    ensures disk[L.nodemap.phys] == MapB(L.mp) && L.nodemap == PtrTo(crc, disk, L.nodemap.phys)
    ensures TreeOk(L.g, crc, disk, L.mp, L.T, {})
    ensures UsedOk(L.g, L.bm, L.nodemap.phys, L.T.owner)
  {}

  function BitCleared(bm: seq<bool>, b: nat): seq<bool>
    requires b < |bm|
  {
    if b != 0 then bm[b := false] else bm
  }

  // One more block taken, another given back: at most one block of free space is lost.
  lemma FreeSetSwap(g: Geo, committed: seq<bool>, working: seq<bool>, taken: nat, back: nat)
    requires |committed| == g.total && |working| == g.total && back < g.total
    requires taken in FreeSet(g, committed, working)
    ensures |FreeSet(g, committed, BitCleared(working[taken := true], back))| >= |FreeSet(g, committed, working)| - 1
  {
    var s := FreeSet(g, committed, working);
    var s' := FreeSet(g, committed, BitCleared(working[taken := true], back));
    assert s - {taken} <= s';
    Counting.SubsetCount(s - {taken}, s');
  }

  // Giving back a block that the committed bitmap still holds makes nothing available.
  lemma FreeSetKept(g: Geo, committed: seq<bool>, working: seq<bool>, taken: nat, back: nat)
    requires |committed| == g.total && |working| == g.total && back < g.total && taken < g.total
    requires back == 0 || committed[back]
    ensures FreeSet(g, committed, BitCleared(working[taken := true], back)) == FreeSet(g, committed, working) - {taken}
  {}

  lemma {:induction false} LeastExists(s: set<nat>)
    requires s != {}
    ensures exists m :: m in s && forall x :: x in s ==> m <= x
    decreases |s|
  {
    var y :| y in s;
    if s != {y} {
      var r := s - {y};
      LeastExists(r);
      var m :| m in r && forall x :: x in r ==> m <= x;
      var l := if y < m then y else m;
      assert l in s;
      forall x | x in s ensures l <= x { assert x == y || x in r; }
    } else {
      assert forall x :: x in s ==> y <= x;
    }
  }

  ghost function Least(s: set<nat>): (m: nat)
    requires s != {}
    ensures m in s && forall x :: x in s ==> m <= x
  {
    LeastExists(s);
    var m :| m in s && forall x :: x in s ==> m <= x;
    m
  }

  // The block an allocation near a hint takes.
  ghost function Pick(avail: set<nat>, hint: nat): (b: nat)
    requires avail != {}
    ensures b in avail
  {
    if hint in avail then hint else Least(avail)
  }

  lemma TableMovedBits(g: Geo, crc: Crc, disk: Disk, mp: seq<Bp>, T: Tree, dirty: set<nat>, working: seq<bool>,
                       mapPhys: nat, id: nat, phys: nat)
    requires TreeOk(g, crc, disk, mp, T, dirty) && id < MAX_NODES
    requires UsedOk(g, working, mapPhys, T.owner)
    requires g.DataFirst() <= phys < g.total && !working[phys]
    ensures
      var bi := id / NODES_PER_BLOCK;
      && Ownerless(g, T, phys)
      && mp[bi].phys < g.total
      && UsedOk(g, BitCleared(working[phys := true], mp[bi].phys), mapPhys, MoveTable(T.owner, mp[bi].phys, phys, bi))
  {
    var bi := id / NODES_PER_BLOCK;
    assert TableOk(crc, disk, mp, T, bi);
    if mp[bi].phys != 0 { OwnedInRange(g, crc, disk, mp, T, dirty, mp[bi].phys); }
  }

  // All that a rewritten table block changes in the working state.
  lemma NodeWritten(g: Geo, crc: Crc, disk: Disk, mp: seq<Bp>, T: Tree, dirty: set<nat>, committed: seq<bool>,
                    working: seq<bool>, mapPhys: nat, id: nat, n: DNode, phys: nat)
    requires TreeOk(g, crc, disk, mp, T, dirty) && id < g.nodeCount <= MAX_NODES
    requires UsedOk(g, working, mapPhys, T.owner) && |committed| == g.total
    requires g.DataFirst() <= phys < g.total && !working[phys] && !committed[phys]
    ensures
      var bi := id / NODES_PER_BLOCK;
      var disk' := disk[phys := TableB(NewTable(disk, mp, id, n))];
      var T' := T.(owner := MoveTable(T.owner, mp[bi].phys, phys, bi));
      && mp[bi].phys < g.total
      && TreeOk(g, crc, disk', mp[bi := PtrTo(crc, disk', phys)], T', WrittenBack(T, dirty, id, n))
      && View(g, disk', T') == View(g, disk, T)
      && UsedOk(g, BitCleared(working[phys := true], mp[bi].phys), mapPhys, T'.owner)
      && |FreeSet(g, committed, BitCleared(working[phys := true], mp[bi].phys))| >= |FreeSet(g, committed, working)| - 1
  {
    hide View, NewTable, MoveTable, UsedOk, BitCleared, WrittenBack, RecOk, NodeOk;
    UsedLen(g, working, mapPhys, T.owner);
    TableMovedBits(g, crc, disk, mp, T, dirty, working, mapPhys, id, phys);
    TableMoved(g, crc, disk, mp, T, dirty, id, n, phys);
    FreeSetSwap(g, committed, working, phys, mp[id / NODES_PER_BLOCK].phys);
  }

  lemma UsedLen(g: Geo, w: seq<bool>, mapPhys: nat, owner: map<nat, Owner>)
    requires UsedOk(g, w, mapPhys, owner)
    ensures |w| == g.total
  {}

  // The working bitmap once the new node map has taken a block and the old one is given back.
  lemma MapMovedBits(g: Geo, working: seq<bool>, mapPhys: nat, newPhys: nat, owner: map<nat, Owner>)
    requires UsedOk(g, working, mapPhys, owner)
    requires 0 < g.DataFirst() <= mapPhys < g.total && g.DataFirst() <= newPhys < g.total && !working[newPhys]
    ensures UsedOk(g, BitCleared(working[newPhys := true], mapPhys), newPhys, owner)
  {}

  // What must be on disk, next to the old superblock, before the new one is written.
  ghost predicate Prepared(crc: Crc, disk: Disk, L: Live, L': Live) {
    && Image(crc, disk, L)
    && L'.g == L.g && L'.gen == L.gen + 1
    && BitmapAt(L'.g, disk, L'.gen % 2, L'.bm)
    && MapOk(crc, disk, L')
    && TreeOk(L'.g, crc, disk, L'.mp, L'.T, {})
    && UsedOk(L'.g, L'.bm, L'.nodemap.phys, L'.T.owner)
    && L'.freeBlocks == CountFree(L'.bm)
    && L'.freeNodes == CountFreeNodes(L'.T.nodes, L'.g.nodeCount)
  }

  // One superblock write turns the old image into the new one.
  lemma PublishImage(crc: Crc, disk: Disk, L: Live, L': Live)
    requires Prepared(crc, disk, L, L')
    ensures Image(crc, disk[L'.gen % 2 := SbBlock(crc, L')], L')
    ensures View(L'.g, disk[L'.gen % 2 := SbBlock(crc, L')], L'.T) == View(L'.g, disk, L'.T)
  {
    var disk' := disk[L'.gen % 2 := SbBlock(crc, L')];
    forall k: nat | k in L'.T.owner ensures k >= 2 {
      OwnedInRange(L'.g, crc, disk, L'.mp, L'.T, {}, k);
    }
    TreeFrame(L'.g, crc, disk, disk', L'.mp, L'.T, {});
    forall j: nat | j < L'.g.bmBlocks
      ensures BmAddr(L'.g, L'.gen % 2, j) < |disk'| && disk'[BmAddr(L'.g, L'.gen % 2, j)] == BitmapB(Chunk(L'.bm, j))
    {
      assert BmAddr(L'.g, L'.gen % 2, j) >= 2;
    }
  }

  lemma PreparedFacts(crc: Crc, disk: Disk, L: Live, L': Live)
    requires Prepared(crc, disk, L, L')
    ensures L'.g == L.g && L'.gen == L.gen + 1 && |disk| >= 2
  {}

  // The writes of a call that committed: all but the last leave the old image alone, and the
  // last one publishes the new image.
  ghost predicate Published(crc: Crc, base: Disk, log: seq<Write>, L: Live, L': Live) {
    && log != []
    && Traced(crc, base, log[..|log| - 1], L)
    && Prepared(crc, Replay(base, log[..|log| - 1]), L, L')
    && log[|log| - 1] == Write(L'.gen % 2, SbBlock(crc, L'))
  }

  // The blocks of the inactive bitmap copy are apart, below the data, and may be written.
  lemma InactiveCopy(L: Live, parity: nat)
    requires L.g.Ok() && parity == 1 - L.gen % 2
    ensures forall j: nat :: j < L.g.bmBlocks ==>
      2 <= BmAddr(L.g, parity, j) < L.g.DataFirst() && Harmless(L, BmAddr(L.g, parity, j))
    ensures forall i: nat, j: nat :: BmAddr(L.g, parity, i) == BmAddr(L.g, parity, j) ==> i == j
  {}

  class Gfs {
    const crc: Crc
    const g: Geo
    const writable: bool
    const sound: bool              // does the device never fail?

    var disk: Disk                 // the device
    var generation: nat
    var nodemap: Bp
    var freeBlocks: nat
    var freeNodes: nat
    var committed: seq<bool>       // committed_bm
    var working: seq<bool>         // working_bm
    var mp: seq<Bp>                // map: the node map of the running transaction

    ghost var live: Live           // what the live superblock commits to
    ghost var T: Tree              // the tree of the running transaction
    ghost var dirty: set<nat>      // nodes changed in memory and not written yet
    ghost var base: Disk           // the disk when the running call started
    ghost var log: seq<Write>      // the writes it has issued
    ghost var faults: nat          // device errors seen so far

    // What gfs_mount leaves behind: the decoded superblock and, when writable, the bitmap.
    constructor (sound: bool, crc: Crc, disk: Disk, sb: Super, writable: bool, bits: seq<bool>, slots: seq<Bp>,
                 ghost live: Live)
      ensures this.crc == crc && this.disk == disk && this.writable == writable && this.live == live
      ensures this.sound == sound
      ensures g == Geo(sb.total, sb.nodeCount, sb.bmBlocks) && generation == sb.gen && nodemap == sb.nodemap
      ensures freeBlocks == sb.freeBlocks && freeNodes == sb.freeNodes && committed == working == bits && mp == slots
    {
      this.sound, this.crc, this.disk, this.writable, this.live := sound, crc, disk, writable, live;
      g, generation, nodemap := Geo(sb.total, sb.nodeCount, sb.bmBlocks), sb.gen, sb.nodemap;
      freeBlocks, freeNodes, committed, working, mp := sb.freeBlocks, sb.freeNodes, bits, bits, slots;
      T, dirty, base, log, faults := live.T, {}, disk, [], 0;
    }

    // Between calls: memory mirrors the live superblock and the image is consistent.
    ghost predicate Valid()
      reads this
    {
      && live.g == g && live.gen == generation && live.nodemap == nodemap
      && live.freeBlocks == freeBlocks && live.freeNodes == freeNodes
      && (writable ==> live.bm == committed && |working| == g.total)
      && Image(crc, disk, live)
    }

    // Inside a call: every write so far can be undone by a crash.
    ghost predicate Safe()
      reads this
    {
      && Valid()
      && disk == Replay(base, log)
      && Traced(crc, base, log, live)
      && View(g, disk, live.T) == View(g, base, live.T)
    }

    // Inside a transaction: the working tree is sound and the working bitmap is exact.
    ghost predicate Work()
      reads this
    {
      && Safe() && writable
      && |mp| == MAP_SLOTS
      && TreeOk(g, crc, disk, mp, T, dirty)
      && UsedOk(g, working, nodemap.phys, T.owner)
    }

    // Inside any call: the node map in memory leads to a sound tree.
    ghost predicate Loaded()
      reads this
    {
      && Valid()
      && |mp| == MAP_SLOTS
      && TreeOk(g, crc, disk, mp, T, dirty)
    }

    // The committed filesystem and the filesystem being built.
    ghost function Stored(): Fs
      reads this
    {
      View(g, disk, live.T)
    }

    ghost function Now(): Fs
      reads this
    {
      View(g, disk, T)
    }

    ghost function Avail(): set<nat>
      reads this
    {
      FreeSet(g, committed, working)
    }

    // Device errors only add up, and a sound device has none.
    ghost predicate Steady(before: nat)
      reads this`faults
    {
      faults >= before && (sound ==> faults == before)
    }

    // ---- block I/O --------------------------------------------------------------------------

    method BRead(lba: nat) returns (rc: Err, b: Block)
      requires g.total <= |disk|
      modifies this`faults
      ensures rc == OK ==> lba < g.total && b == disk[lba] && faults == old(faults)
      ensures rc != OK && lba < g.total ==> rc == EIO && faults > old(faults)
      ensures rc != OK && lba >= g.total ==> rc == ECORRUPT
      ensures Steady(old(faults))
    {
      b := Junk;
      if lba >= g.total { return ECORRUPT, b; }
      var fail: bool := *;
      if fail && !sound {
        faults := faults + 1;
        return EIO, b;
      }
      return OK, disk[lba];
    }

    method ReadMeta(bp: Bp) returns (rc: Err, b: Block)
      requires g.total <= |disk|
      modifies this`faults
      ensures rc == OK ==> bp.phys < g.total && b == disk[bp.phys] && crc(b) == bp.crc && faults == old(faults)
      ensures bp.phys < g.total && bp == PtrTo(crc, disk, bp.phys) ==> rc == OK || (rc == EIO && faults > old(faults))
      ensures Steady(old(faults))
    {
      rc, b := BRead(bp.phys);
      if rc != OK { return; }
      if crc(b) != bp.crc { return EBADCRC, b; }
    }

    method BWrite(lba: nat, b: Block) returns (rc: Err)
      requires Safe()
      requires lba < g.total && Harmless(live, lba)
      modifies this`disk, this`log, this`faults
      ensures Safe() && Steady(old(faults))
      ensures rc == OK ==> disk == old(disk)[lba := b] && log == old(log) + [Write(lba, b)] && faults == old(faults)
      ensures rc != OK ==> rc == EIO && disk == old(disk) && log == old(log) && faults > old(faults)
    {
      hide Image, View, Replay;
      ImageFacts(crc, disk, live);
      var fail: bool := *;
      if fail && !sound {
        faults := faults + 1;
        return EIO;
      }
      ImageFrame(crc, disk, live, lba, b);
      ReplayAppend(base, log, Write(lba, b));
      disk := disk[lba := b];
      log := log + [Write(lba, b)];
      return OK;
    }

    method WriteMeta(phys: nat, b: Block) returns (rc: Err, bp: Bp)
      requires Safe()
      requires phys < g.total && Harmless(live, phys)
      modifies this`disk, this`log, this`faults
      ensures Safe() && Steady(old(faults))
      ensures rc == OK ==> disk == old(disk)[phys := b] && bp == PtrTo(crc, disk, phys) && faults == old(faults)
      ensures rc != OK ==> rc == EIO && disk == old(disk) && faults > old(faults)
    {
      hide Image, View, Replay, Traced, Harmless;
      ImageFacts(crc, disk, live);
      bp := NULL_BP;
      rc := BWrite(phys, b);
      if rc == OK { bp := Bp(phys, crc(b)); }
    }

    // ---- allocator ------------------------------------------------------------------------------

    // First block free in both bitmaps.
    method AllocBlock() returns (rc: Err, out: nat)
      requires |committed| == g.total && |working| == g.total
      modifies this`working
      ensures rc == OK ==> g.DataFirst() <= out < g.total && !old(working)[out] && !committed[out]
      ensures rc == OK ==>
        out in old(Avail()) && working == old(working)[out := true] && Avail() == old(Avail()) - {out}
      ensures rc == OK ==> forall b :: b in old(Avail()) ==> out <= b
      ensures rc != OK ==> rc == ENOSPC && old(Avail()) == {} && working == old(working)
    {
      out := 0;
      var i := g.DataFirst();
      while i < g.total
        invariant g.DataFirst() <= i
        invariant working == old(working)
        invariant forall b :: b in Avail() ==> i <= b
      {
        if !committed[i] && !working[i] {
          working := working[i := true];
          return OK, i;
        }
        i := i + 1;
      }
      return ENOSPC, out;
    }

    // Prefer the hint, so that sequential writes stay contiguous.
    method AllocNear(hint: nat) returns (rc: Err, out: nat)
      requires |committed| == g.total && |working| == g.total
      modifies this`working
      ensures rc == OK ==> g.DataFirst() <= out < g.total && !old(working)[out] && !committed[out]
      ensures rc == OK ==>
        out in old(Avail()) && working == old(working)[out := true] && Avail() == old(Avail()) - {out}
      ensures rc == OK ==> out == Pick(old(Avail()), hint)
      ensures rc == OK ==> if hint in old(Avail()) then out == hint else forall b :: b in old(Avail()) ==> out <= b
      ensures rc != OK ==> rc == ENOSPC && old(Avail()) == {} && working == old(working)
    {
      if hint >= g.DataFirst() && hint < g.total && !committed[hint] && !working[hint] {
        working := working[hint := true];
        return OK, hint;
      }
      rc, out := AllocBlock();
    }

    method FreeBlock(blk: nat)
      requires blk < |working|
      modifies this`working
      ensures working == BitCleared(old(working), blk) && |working| == old(|working|)
    {
      if blk != 0 { working := working[blk := false]; }
    }

    method CountFreeBits() returns (c: nat)
      requires |working| == g.total
      ensures c == CountFree(working)
    {
      c := 0;
      var i := 0;
      while i < g.total
        invariant 0 <= i <= g.total
        invariant c == CountFree(working[..i])
      {
        assert working[..i + 1][..i] == working[..i];
        if !working[i] { c := c + 1; }
        i := i + 1;
      }
      assert working[..i] == working;
    }

    // ---- node records -------------------------------------------------------------------------------

    method NodeRead(id: nat) returns (rc: Err, n: DNode)
      requires Loaded()
      modifies this`faults
      ensures Steady(old(faults))
      ensures id == 0 || id >= g.nodeCount <==> rc == EINVAL
      ensures rc == OK ==> n == RecordAt(disk, mp, id)
      ensures rc == OK && id !in dirty ==> n == T.nodes[id]
      ensures rc != OK && rc != EINVAL ==> rc == EIO && faults > old(faults)
    {
      hide Image, View, Replay, Traced;
      ImageFacts(crc, disk, live);
      n := ZERO_NODE;
      if id == 0 || id >= g.nodeCount { return EINVAL, n; }
      var bp := mp[id / NODES_PER_BLOCK];
      assert TableOk(crc, disk, mp, T, id / NODES_PER_BLOCK);
      assert RecOk(disk, mp, T, dirty, id);
      if bp.phys == 0 { return OK, ZERO_NODE; }
      OwnedInRange(g, crc, disk, mp, T, dirty, bp.phys);
      var b;
      rc, b := ReadMeta(bp);
      if rc != OK { return; }
      n := b.recs[id % NODES_PER_BLOCK];
    }

    // The table block of node id as it will read once record n is stored in it.
    method TableWith(id: nat, n: DNode) returns (rc: Err, tbl: seq<DNode>)
      requires Work() && id < g.nodeCount
      modifies this`faults
      ensures Steady(old(faults))
      ensures rc == OK ==> tbl == NewTable(disk, mp, id, n)
      ensures rc != OK ==> rc == EIO && faults > old(faults)
    {
      hide Image, Traced, NodeOk, RecOk, View, Replay;
      ImageFacts(crc, disk, live);
      var bp := mp[id / NODES_PER_BLOCK];
      tbl := seq(NODES_PER_BLOCK, i => ZERO_NODE);
      assert TableOk(crc, disk, mp, T, id / NODES_PER_BLOCK);
      rc := OK;
      if bp.phys != 0 {
        OwnedInRange(g, crc, disk, mp, T, dirty, bp.phys);
        var b;
        rc, b := ReadMeta(bp);
        if rc != OK { return; }
        tbl := b.recs;
      }
      tbl := tbl[id % NODES_PER_BLOCK := n];
    }

    // Copy-on-write a node record: its table block moves to a fresh block.
    method NodeWrite(id: nat, n: DNode) returns (rc: Err)
      requires Work()
      requires 0 < id < g.nodeCount
      modifies this`disk, this`log, this`faults, this`working, this`mp, this`T, this`dirty
      ensures Steady(old(faults))
      ensures Safe()
      ensures rc == OK ==>
        && Work() && dirty == old(WrittenBack(T, dirty, id, n)) && T.nodes == old(T.nodes) && T.chains == old(T.chains)
        && Now() == old(Now()) && |Avail()| >= old(|Avail()|) - 1
      ensures rc != OK ==> (rc == EIO && faults > old(faults)) || (rc == ENOSPC && old(Avail()) == {})
    {
      hide Image, Traced, View, Replay, NewTable, MoveTable, TreeOk, UsedOk, BitCleared, FreeSet, WrittenBack, PtrTo;
      ImageFacts(crc, disk, live);
      var tbl;
      rc, tbl := TableWith(id, n);
      if rc != OK { return; }
      var phys;
      rc, phys := AllocBlock();
      if rc != OK { return; }
      NodeWritten(g, crc, disk, mp, T, dirty, committed, old(working), nodemap.phys, id, n, phys);
      var bp;
      rc, bp := WriteMeta(phys, TableB(tbl));
      if rc != OK { return; }
      Repoint(id, n, phys, bp);
    }

    // Point the working map at the new table block and give the old one back.
    method Repoint(id: nat, n: DNode, phys: nat, bp: Bp)
      requires Safe() && |mp| == MAP_SLOTS && id < MAX_NODES && mp[id / NODES_PER_BLOCK].phys < |working|
      modifies this`working, this`mp, this`T, this`dirty
      ensures Safe()
      ensures working == BitCleared(old(working), old(mp)[id / NODES_PER_BLOCK].phys)
      ensures mp == old(mp)[id / NODES_PER_BLOCK := bp]
      ensures T == old(T).(owner := MoveTable(old(T).owner, old(mp)[id / NODES_PER_BLOCK].phys, phys,
        id / NODES_PER_BLOCK))
      ensures dirty == old(WrittenBack(T, dirty, id, n))
    {
      hide Image, Traced, View, Replay, MoveTable, BitCleared, WrittenBack;
      var bi := id / NODES_PER_BLOCK;
      FreeBlock(mp[bi].phys);
      mp, T, dirty := mp[bi := bp], T.(owner := MoveTable(T.owner, mp[bi].phys, phys, bi)),
        WrittenBack(T, dirty, id, n);
    }

    // ---- transactions -------------------------------------------------------------------------------

    method TxnBegin() returns (rc: Err)
      requires Safe()
      modifies this`faults, this`working, this`mp, this`T, this`dirty
      ensures Steady(old(faults))
      ensures Safe()
      ensures rc == OK ==> writable && Work() && T == live.T && dirty == {} && working == committed && Now() == Stored()
      ensures rc != OK ==> (rc == EIO && faults > old(faults)) || (rc == EROFS && !writable)
      ensures !writable ==> rc == EROFS
    {
      hide Image, View, Replay, Traced, TreeOk, UsedOk;
      ImageFacts(crc, disk, live);
      if !writable { return EROFS; }
      working := committed;
      var b;
      rc, b := ReadMeta(nodemap);
      if rc != OK { return; }
      mp := b.slots;
      T := live.T;
      dirty := {};
    }

    // map_load: reading calls use the live node map.
    method MapLoad() returns (rc: Err)
      requires Valid()
      modifies this`faults, this`mp, this`T, this`dirty
      ensures Steady(old(faults))
      ensures Valid()
      ensures rc == OK ==> Loaded() && T == live.T && dirty == {} && Now() == Stored()
      ensures rc != OK ==> rc == EIO && faults > old(faults)
    {
      hide Image, View, Replay, Traced, TreeOk, UsedOk;
      ImageFacts(crc, disk, live);
      var b;
      rc, b := ReadMeta(nodemap);
      if rc != OK { return; }
      mp := b.slots;
      T := live.T;
      dirty := {};
    }

    // Write the inactive bitmap copy, block by block.
    method WriteBitmap(parity: nat) returns (rc: Err)
      requires Safe() && parity == 1 - generation % 2
      modifies this`disk, this`log, this`faults
      ensures Steady(old(faults))
      ensures Safe()
      ensures |disk| == old(|disk|) && forall b :: 0 <= b < |disk| && (b < 2 || b >= g.DataFirst()) ==>
        disk[b] == old(disk)[b]
      ensures rc == OK ==> BitmapAt(g, disk, parity, working)
      ensures rc != OK ==> rc == EIO && faults > old(faults)
    {
      hide Image, View, Replay, Traced, Chunk, BmAddr, Harmless;
      ImageFacts(crc, disk, live);
      InactiveCopy(live, parity);
      var j := 0;
      while j < g.bmBlocks
        invariant 0 <= j <= g.bmBlocks
        invariant Safe() && Steady(old(faults))
        invariant |disk| == old(|disk|) && forall b :: 0 <= b < |disk| && (b < 2 || b >= g.DataFirst()) ==>
          disk[b] == old(disk)[b]
        invariant forall i: nat :: i < j ==> disk[BmAddr(g, parity, i)] == BitmapB(Chunk(working, i))
      {
        rc := BWrite(BmAddr(g, parity, j), BitmapB(Chunk(working, j)));
        if rc != OK { return; }
        j := j + 1;
      }
      return OK;
    }

    // The atomic publish: one write of the inactive superblock slot.
    method Publish(ghost next: Live, sb: Super, ghost fs: Fs) returns (rc: Err)
      requires Safe() && Prepared(crc, disk, live, next) && sb == SbFor(crc, next) && View(g, disk, next.T) == fs
      modifies this`disk, this`log, this`faults
      ensures rc == OK ==>
        && faults == old(faults) && base == old(base) && disk == Replay(base, log)
        && Published(crc, base, log, live, next) && Image(crc, disk, next) && View(g, disk, next.T) == fs
      ensures rc != OK ==> rc == EIO && faults > old(faults) && Safe()
      ensures Steady(old(faults))
    {
      hide Image, View, Replay, Prepared;
      var fail: bool := *;
      if fail && !sound {
        faults := faults + 1;
        return EIO;
      }
      PreparedFacts(crc, disk, live, next);
      var slot := sb.gen % 2;
      var b := SuperB(sb, crc(SuperB(sb, 0)));
      PublishImage(crc, disk, live, next);
      ReplayAppend(base, log, Write(slot, b));
      assert (log + [Write(slot, b)])[..|log|] == log;
      disk := disk[slot := b];
      log := log + [Write(slot, b)];
      return OK;
    }

    // Store the new node map in a fresh block and give the old map's block back.
    method WriteMap() returns (rc: Err, bp: Bp)
      requires Work()
      modifies this`disk, this`log, this`faults, this`working
      ensures Steady(old(faults))
      ensures Safe()
      ensures rc == OK ==>
        && TreeOk(g, crc, disk, mp, T, dirty) && UsedOk(g, working, bp.phys, T.owner) && Now() == old(Now())
        && g.DataFirst() <= bp.phys < g.total && disk[bp.phys] == MapB(mp) && bp.crc == crc(MapB(mp))
      ensures rc != OK ==> (rc == EIO && faults > old(faults)) || (rc == ENOSPC && old(Avail()) == {})
    {
      hide Image, View, Replay, Traced, TreeOk, FreeSet;
      ImageFacts(crc, disk, live);
      bp := NULL_BP;
      var phys;
      rc, phys := AllocBlock();
      if rc != OK { return; }
      MapMovedBits(g, old(working), nodemap.phys, phys, T.owner);
      rc, bp := WriteMeta(phys, MapB(mp));
      if rc != OK { return; }
      TreeFrame(g, crc, old(disk), disk, mp, T, dirty);
      FreeBlock(nodemap.phys);
    }

    // Everything txn_commit does before the publish.
    method Prepare(delta: int) returns (rc: Err, bp: Bp, fb: nat, fn: nat)
      requires Work() && dirty == {}
      requires freeNodes + delta == CountFreeNodes(T.nodes, g.nodeCount)
      modifies this`disk, this`log, this`faults, this`working
      ensures Steady(old(faults))
      ensures Safe()
      ensures rc == OK ==>
        && Prepared(crc, disk, live, Live(g, generation + 1, bp, working, fb, fn, mp, T))
        && View(g, disk, T) == old(View(g, disk, T)) && |working| == g.total
      ensures rc != OK ==> (rc == EIO && faults > old(faults)) || (rc == ENOSPC && old(Avail()) == {})
    {
      hide Image, View, Replay, Traced, TreeOk, FreeSet, UsedOk, CountFree, CountFreeNodes, BitmapAt, Prepared;
      ImageFacts(crc, disk, live);
      fb, fn := 0, 0;
      rc, bp := WriteMap();
      if rc != OK { return; }
      fb := CountFreeBits();
      fn := freeNodes + delta;
      label Map:
      rc := WriteBitmap((generation + 1) % 2);
      if rc != OK { return; }
      CommitPrepared(old@Map(disk), bp, fb, fn);
    }

    // txn_commit.  delta adjusts the free-node count.
    method TxnCommit(delta: int) returns (rc: Err)
      requires Work() && dirty == {}
      requires freeNodes + delta == CountFreeNodes(T.nodes, g.nodeCount)
      modifies this`disk, this`log, this`faults, this`working, this`generation, this`nodemap, this`freeBlocks,
               this`freeNodes, this`committed, this`live
      ensures Steady(old(faults))
      ensures rc == OK ==>
        && Valid() && live.T == T && Stored() == old(Now()) && disk == Replay(base, log)
        && Published(crc, base, log, old(live), live)
      ensures rc != OK ==> Safe() && live == old(live)
      ensures rc != OK ==> (rc == EIO && faults > old(faults)) || (rc == ENOSPC && old(Avail()) == {})
    {
      hide Image, View, Replay, Traced, TreeOk, FreeSet, UsedOk, Published, CountFree, CountFreeNodes, BitmapAt,
        Prepared, Safe, Work;
      var newGen := generation + 1;
      var bp, fb, fn;
      rc, bp, fb, fn := Prepare(delta);
      if rc != OK { return; }
      ghost var next := Live(g, newGen, bp, working, fb, fn, mp, T);
      var sb := Super(newGen, g.total, g.nodeCount, ROOT, BM_START, g.bmBlocks, crc(BitmapB(working)), bp, fb, fn);
      rc := Publish(next, sb, old(Now()));
      if rc != OK { return; }
      generation, nodemap, freeBlocks, freeNodes, committed := newGen, bp, fb, fn, working;
      live := next;
    }

    // After the map and the bitmap are written, everything but the superblock is in place.
    lemma CommitPrepared(disk1: Disk, bp: Bp, fb: nat, fn: nat)
      requires Safe() && |mp| == MAP_SLOTS
      requires TreeOk(g, crc, disk1, mp, T, {}) && UsedOk(g, working, bp.phys, T.owner)
      requires |disk1| == |disk| && forall b :: 0 <= b < |disk| && (b < 2 || b >= g.DataFirst()) ==> disk[b] == disk1[b]
      requires g.DataFirst() <= bp.phys < g.total && g.total <= |disk1| && disk1[bp.phys] == MapB(mp)
        && bp.crc == crc(MapB(mp))
      requires fb == CountFree(working) && fn == CountFreeNodes(T.nodes, g.nodeCount)
      requires BitmapAt(g, disk, (generation + 1) % 2, working)
      ensures Prepared(crc, disk, live, Live(g, generation + 1, bp, working, fb, fn, mp, T))
      ensures View(g, disk, T) == View(g, disk1, T)
    {
      hide Image, View, Replay, Traced, BitmapAt, CountFree, CountFreeNodes;
      forall k: nat | k in T.owner ensures k >= g.DataFirst() { OwnedInRange(g, crc, disk1, mp, T, {}, k); }
      TreeFrame(g, crc, disk1, disk, mp, T, {});
    }
  }
}
