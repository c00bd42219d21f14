// gfs_write: copy-on-write of file blocks.
module GfsWrite {
  import opened GfsTypes
  import opened Namespace
  import opened GfsDisk
  import opened GfsFrame
  import opened GfsUpdate
  import opened GfsCore
  import opened GfsCrash
  import opened GfsExtents
  import opened GfsStage
  import opened GfsOps
  import opened GfsFile
  import opened GfsPmap

  // ---- bytes ---------------------------------------------------------------------------------

  // Byte at a file position after the write.
  function NewByte(disk: Disk, ext: seq<Extent>, off: nat, data: seq<byte>, pos: nat): byte {
    if off <= pos < off + |data| then data[pos - off] else ByteAt(disk, ext, pos)
  }

  function NewBlock(disk: Disk, ext: seq<Extent>, off: nat, data: seq<byte>, l: nat): seq<byte> {
    seq<byte>(BLOCK, i requires 0 <= i < BLOCK => NewByte(disk, ext, off, data, l * BLOCK + i))
  }

  // Past the end of a file there are only zeros.
  lemma PastEnd(g: Geo, disk: Disk, n: DNode, pos: nat)
    requires DataOk(g, disk, n) && pos >= n.size
    ensures ByteAt(disk, n.ext, pos) == 0
  {
    var l := pos / BLOCK;
    BmapInside(n.ext, Nblocks(n.size), l);
    if Bmap(n.ext, l) != 0 {
      assert l == n.size / BLOCK && pos % BLOCK >= n.size % BLOCK;
    }
  }

  // The block at position base to be stored: the old block, or zeros, overlaid with the data.
  function Overlay(former: seq<byte>, off: nat, data: seq<byte>, base: nat): seq<byte>
    requires off < base + |former| && base < off + |data|
  {
    var wstart := if off > base then off else base;
    var wend := if off + |data| < base + |former| then off + |data| else base + |former|;
    former[..wstart - base] + data[wstart - off..wend - off] + former[wend - base..]
  }

  lemma JoinAt(p: seq<byte>, q: seq<byte>, r: seq<byte>, i: nat)
    requires i < |p| + |q| + |r|
    ensures (p + q + r)[i] == if i < |p| then p[i] else if i < |p| + |q| then q[i - |p|] else r[i - |p| - |q|]
  {}

  lemma OverlayAt(former: seq<byte>, off: nat, data: seq<byte>, base: nat, i: nat)
    requires off < base + |former| && base < off + |data| && i < |former|
    ensures |Overlay(former, off, data, base)| == |former|
    ensures Overlay(former, off, data, base)[i] == if off <= base + i < off + |data| then data[base + i - off]
      else former[i]
  {
    var wstart := if off > base then off else base;
    var wend := if off + |data| < base + |former| then off + |data| else base + |former|;
    JoinAt(former[..wstart - base], data[wstart - off..wend - off], former[wend - base..], i);
  }

  ghost predicate OldBytes(disk: Disk, ext: seq<Extent>, base: nat, former: seq<byte>) {
    |former| == BLOCK && forall i: nat :: i < BLOCK ==> former[i] == ByteAt(disk, ext, base + i)
  }

  lemma OverlayIsNew(disk: Disk, ext: seq<Extent>, off: nat, data: seq<byte>, l: nat, base: nat, former: seq<byte>)
    requires base == l * BLOCK && |former| == BLOCK && off < base + BLOCK && base < off + |data|
    requires OldBytes(disk, ext, base, former) || (off <= base && base + BLOCK <= off + |data|)
    ensures Overlay(former, off, data, base) == NewBlock(disk, ext, off, data, l)
  {
    hide ByteAt, Overlay;
    var a, b := Overlay(former, off, data, base), NewBlock(disk, ext, off, data, l);
    OverlayAt(former, off, data, base, 0);
    forall i: nat | i < BLOCK ensures a[i] == b[i] {
      OverlayAt(former, off, data, base, i);
      assert b[i] == NewByte(disk, ext, off, data, base + i);
    }
  }

  lemma OldIs(disk: Disk, ext: seq<Extent>, l: nat)
    requires Bmap(ext, l) != 0 ==> IsData(disk, Bmap(ext, l))
    ensures OldBytes(disk, ext, l * BLOCK, if Bmap(ext, l) == 0 then Zeros(BLOCK) else disk[Bmap(ext, l)].bytes)
  {
    var o := if Bmap(ext, l) == 0 then Zeros(BLOCK) else disk[Bmap(ext, l)].bytes;
    forall i: nat | i < BLOCK ensures o[i] == ByteAt(disk, ext, l * BLOCK + i) {
      assert (l * BLOCK + i) / BLOCK == l && (l * BLOCK + i) % BLOCK == i;
    }
  }

  // ---- one block -----------------------------------------------------------------------------------

  // Build the new contents of block l.
  method NewContents(fs: Gfs, ghost disk0: Disk, ghost ext: seq<Extent>, l: nat, oldp: nat, off: nat, data: seq<byte>)
    returns (rc: Err, bytes: seq<byte>)
    requires off < l * BLOCK + BLOCK && l * BLOCK < off + |data| && fs.g.total <= |fs.disk|
    requires oldp == Bmap(ext, l)
      && (oldp != 0 ==> oldp < fs.g.total && IsData(disk0, oldp) && oldp < |disk0| && fs.disk[oldp] == disk0[oldp])
    modifies fs`faults
    ensures fs.Steady(old(fs.faults))
    ensures rc == OK ==> bytes == NewBlock(disk0, ext, off, data, l)
    ensures rc != OK ==> rc == EIO && fs.faults > old(fs.faults)
  {
    hide Bmap, NewBlock, OldBytes, Overlay;
    var bstart := l * BLOCK;
    var wstart := if off > bstart then off else bstart;
    var wend := if off + |data| < bstart + BLOCK then off + |data| else bstart + BLOCK;
    bytes := Zeros(BLOCK);
    OldIs(disk0, ext, l);
    rc := OK;
    if wend - wstart < BLOCK && oldp != 0 {
      var b;
      rc, b := fs.BRead(oldp);
      if rc != OK { return; }
      bytes := b.bytes;
    }
    OverlayIsNew(disk0, ext, off, data, l, bstart, bytes);
    bytes := Overlay(bytes, off, data, bstart);
  }

  // ---- the state of the loop ---------------------------------------------------------------------------

  // Blocks that entries [a, b) of a map lead to.
  function Range(pm: seq<nat>, a: nat, b: nat): set<nat> {
    set l: nat | a <= l < b && l < |pm| && pm[l] != 0 :: pm[l]
  }

  // One call: where it started (disk, tree, bitmap), the file and what is written to it.  pm0 is the
  // file's physical map at the start.
  datatype Job = Job(g: Geo, crc: Crc, disk0: Disk, mp: seq<Bp>, T: Tree, dirty: set<nat>, w0: seq<bool>, mapPhys: nat,
                     id: nat, n: DNode, off: nat, data: seq<byte>, pm0: seq<nat>)

  // Blocks [first, cur) have been rewritten into fresh blocks; pm is the map now.
  ghost predicate Rewritten(j: Job, disk: Disk, pm: seq<nat>, first: nat, cur: nat) {
    && first <= cur <= MAX_FILE_BLOCKS && |j.pm0| == MAX_FILE_BLOCKS && |pm| == MAX_FILE_BLOCKS
    && (forall l: nat :: l < MAX_FILE_BLOCKS ==> j.pm0[l] == Bmap(j.n.ext, l))
    && (forall l: nat :: l < MAX_FILE_BLOCKS && !(first <= l < cur) ==> pm[l] == j.pm0[l])
    && (forall l: nat :: first <= l < cur ==> j.g.DataFirst() <= pm[l] < j.g.total && pm[l] < |j.w0| && !j.w0[pm[l]])
    && (forall l: nat :: first <= l < cur ==>
      pm[l] < |disk| && disk[pm[l]] == DataB(NewBlock(j.disk0, j.n.ext, j.off, j.data, l)))
    && (forall l: nat, m: nat :: first <= l < m < cur ==> pm[l] != pm[m])
  }

  // The node of a file being written and the blocks that belong to others.
  ghost predicate WriteBase(j: Job) {
    && j.g.Ok() && TreeOk(j.g, j.crc, j.disk0, j.mp, j.T, j.dirty) && UsedOk(j.g, j.w0, j.mapPhys, j.T.owner)
      && 0 < j.id < j.g.nodeCount
    && j.n == j.T.nodes[j.id] && j.n.typ == TData && j.g.DataFirst() <= j.mapPhys < j.g.total
  }

  ghost predicate Writing(j: Job, disk: Disk, w: seq<bool>, pm: seq<nat>, first: nat, cur: nat) {
    && Rewritten(j, disk, pm, first, cur)
    && Agree(j.disk0, disk, j.T.owner.Keys)
    && BitsMoved(j.w0, w, Range(j.pm0, first, cur), Range(pm, first, cur))
  }

  lemma RangeSnoc(pm: seq<nat>, pm': seq<nat>, a: nat, b: nat)
    requires a <= b < |pm| && |pm'| == |pm| && forall l: nat :: a <= l < b ==> pm'[l] == pm[l]
    ensures Range(pm', a, b + 1) == Range(pm, a, b) + (if pm'[b] != 0 then {pm'[b]} else {})
  {
    var s1, s2 := Range(pm', a, b + 1), Range(pm, a, b) + (if pm'[b] != 0 then {pm'[b]} else {});
    forall x | x in s1 ensures x in s2 {
      var l: nat :| a <= l < b + 1 && l < |pm'| && pm'[l] != 0 && pm'[l] == x;
      if l < b { assert pm[l] == x; }
    }
    forall x | x in s2 ensures x in s1 {
      if x in Range(pm, a, b) {
        var l: nat :| a <= l < b && l < |pm| && pm[l] != 0 && pm[l] == x;
        assert pm'[l] == x;
      }
    }
  }

  lemma OldBlockFacts(j: Job, l: nat)
    requires WriteBase(j)
    ensures DataOk(j.g, j.disk0, j.n) && |j.w0| == j.g.total && j.T.chains[j.id] == [] && j.g.total <= |j.disk0|
    ensures Bmap(j.n.ext, l) != 0 ==>
      && j.g.DataFirst() <= Bmap(j.n.ext, l) < j.g.total && Owned(j.T, Bmap(j.n.ext, l), ONode(j.id))
        && j.w0[Bmap(j.n.ext, l)]
      && IsData(j.disk0, Bmap(j.n.ext, l)) && Bmap(j.n.ext, l) != j.mapPhys
  {
    hide TableOk, RecOk, OwnerOk, Edges, EntryMap, Bmap, DataInj, TailZero;
    assert NodeOk(j.g, j.crc, j.disk0, j.T, j.id);
    if Bmap(j.n.ext, l) != 0 {
      BmapInSet(j.g, j.n.ext, j.n.size, l);
      assert Bmap(j.n.ext, l) in BlocksOf(j.n, j.T.chains[j.id]);
      assert Owned(j.T, Bmap(j.n.ext, l), ONode(j.id));
      OwnedInRange(j.g, j.crc, j.disk0, j.mp, j.T, j.dirty, Bmap(j.n.ext, l));
    }
  }

  // Writing one more block keeps the loop state.
  lemma WriteStep(j: Job, disk: Disk, w: seq<bool>, pm: seq<nat>, first: nat, cur: nat, np: nat)
    requires WriteBase(j)
    requires Writing(j, disk, w, pm, first, cur) && cur < MAX_FILE_BLOCKS
    requires j.g.DataFirst() <= np < j.g.total && np < |j.w0| && !j.w0[np] && |w| == |j.w0| && !w[np]
      && j.g.total <= |disk|
    ensures pm[cur] < j.g.total && |j.w0| == j.g.total
    ensures Writing(j, disk[np := DataB(NewBlock(j.disk0, j.n.ext, j.off, j.data, cur))],
      BitCleared(w[np := true], pm[cur]),
                    pm[cur := np], first, cur + 1)
  {
    hide TreeOk, Bmap, NewBlock, DataOk, UsedOk;
    OldBlockFacts(j, cur);
    var disk' := disk[np := DataB(NewBlock(j.disk0, j.n.ext, j.off, j.data, cur))];
    var pm' := pm[cur := np];
    RangeSnoc(pm, pm', first, cur);
    RangeSnoc(j.pm0, j.pm0, first, cur);
    forall l: nat | first <= l < cur ensures pm[l] != np {
      assert pm[l] in Range(pm, first, cur);
      assert w[pm[l]];
    }
    forall b | b in j.T.owner.Keys && b < |j.disk0| ensures disk'[b] == j.disk0[b] {
      OwnedInRange(j.g, j.crc, j.disk0, j.mp, j.T, j.dirty, b);
      UsedBit(j.g, j.w0, j.mapPhys, j.T.owner, b);
    }
    if pm[cur] != 0 {
      forall l: nat | first <= l < cur ensures pm[l] != pm[cur] { assert !j.w0[pm[l]]; }
    }
    assert pm[cur] !in Range(pm, first, cur);
    StepBits(j.w0, w, Range(j.pm0, first, cur), Range(pm, first, cur), pm[cur], np);
  }

  lemma UsedBit(g: Geo, w: seq<bool>, mapPhys: nat, owner: map<nat, Owner>, b: nat)
    requires UsedOk(g, w, mapPhys, owner) && b in owner && b < g.total
    ensures w[b]
  {}

  lemma StepBits(w0: seq<bool>, w: seq<bool>, gone: set<nat>, come: set<nat>, oldp: nat, np: nat)
    requires BitsMoved(w0, w, gone, come) && np < |w| && oldp < |w| && oldp != np && np !in come
      && (oldp == 0 || oldp !in come)
    ensures BitsMoved(w0, BitCleared(w[np := true], oldp), gone + (if oldp != 0 then {oldp} else {}), come + {np})
  {}

  // ---- after the loop --------------------------------------------------------------------------------------

  // All blocks the write touches are rewritten, and the map is coalesced.
  ghost predicate Written(j: Job, disk: Disk, w: seq<bool>, pm: seq<nat>, ext: seq<Extent>) {
    && j.data != [] && j.off + |j.data| <= MAX_FILE_SIZE
    && WriteBase(j)
    && Writing(j, disk, w, pm, j.off / BLOCK, (j.off + |j.data| - 1) / BLOCK + 1)
    && Represents(ext, pm, Nblocks(NewSize(j.n.size, j.off, j.data))) && |ext| <= INLINE_EXTENTS
  }

  function NewSize(size: nat, off: nat, data: seq<byte>): nat {
    if size > off + |data| then size else off + |data|
  }

  lemma MapAgrees(j: Job, disk: Disk, w: seq<bool>, pm: seq<nat>, ext: seq<Extent>, l: nat)
    requires Written(j, disk, w, pm, ext)
    ensures j.off / BLOCK <= l <= (j.off + |j.data| - 1) / BLOCK ==>
      Bmap(ext, l) == pm[l] != 0 && pm[l] < |disk| && disk[pm[l]] == DataB(NewBlock(j.disk0, j.n.ext, j.off, j.data, l))
    ensures !(j.off / BLOCK <= l <= (j.off + |j.data| - 1) / BLOCK) ==> Bmap(ext, l) == Bmap(j.n.ext, l)
    ensures !(j.off / BLOCK <= l <= (j.off + |j.data| - 1) / BLOCK) && Bmap(j.n.ext, l) != 0 ==>
      IsData(j.disk0, Bmap(j.n.ext, l)) && IsData(disk, Bmap(j.n.ext, l))
        && disk[Bmap(j.n.ext, l)] == j.disk0[Bmap(j.n.ext, l)]
    ensures Bmap(ext, l) != 0 ==>
      && IsData(disk, Bmap(ext, l)) && j.g.DataFirst() <= Bmap(ext, l) < j.g.total
      && Bmap(ext, l) !in Others(j.T, j.id) && Bmap(ext, l) != j.mapPhys
  {
    hide TreeOk, Bmap, DataInj, TailZero;
    OldBlockFacts(j, l);
    BmapInside(j.n.ext, Nblocks(j.n.size), l);
    if j.off / BLOCK <= l <= (j.off + |j.data| - 1) / BLOCK {
      assert !j.w0[pm[l]];
    }
  }

  lemma BytesAfter(j: Job, disk: Disk, w: seq<bool>, pm: seq<nat>, ext: seq<Extent>, pos: nat)
    requires Written(j, disk, w, pm, ext)
    ensures ByteAt(disk, ext, pos) == NewByte(j.disk0, j.n.ext, j.off, j.data, pos)
  {
    hide TreeOk, Bmap, DataInj, TailZero, Written;
    var l := pos / BLOCK;
    MapAgrees(j, disk, w, pm, ext, l);
    WrittenRange(j, disk, w, pm, ext);
    assert l * BLOCK + pos % BLOCK == pos;
  }

  lemma WrittenRange(j: Job, disk: Disk, w: seq<bool>, pm: seq<nat>, ext: seq<Extent>)
    requires Written(j, disk, w, pm, ext)
    ensures j.data != [] && j.off + |j.data| <= MAX_FILE_SIZE && DataOk(j.g, j.disk0, j.n)
  {
    hide Bmap;
    OldBlockFacts(j, 0);
  }

  // The file now holds the overwritten byte sequence.
  lemma ContentAfter(j: Job, disk: Disk, w: seq<bool>, pm: seq<nat>, ext: seq<Extent>)
    requires Written(j, disk, w, pm, ext)
    ensures Content(disk, ext, NewSize(j.n.size, j.off, j.data)) == WriteBytes(Content(j.disk0, j.n.ext, j.n.size),
      j.off, j.data)
  {
    hide TreeOk, Bmap, DataOk, Written, ByteAt;
    WrittenRange(j, disk, w, pm, ext);
    var a := Content(disk, ext, NewSize(j.n.size, j.off, j.data));
    var b := WriteBytes(Content(j.disk0, j.n.ext, j.n.size), j.off, j.data);
    forall i: nat | i < |a| ensures a[i] == b[i] {
      BytesAfter(j, disk, w, pm, ext, i);
      if i >= j.n.size { PastEnd(j.g, j.disk0, j.n, i); }
    }
  }

  lemma MapInj(j: Job, disk: Disk, w: seq<bool>, pm: seq<nat>, ext: seq<Extent>, l: nat, m: nat)
    requires Written(j, disk, w, pm, ext)
    requires Bmap(ext, l) != 0 && Bmap(ext, l) == Bmap(ext, m)
    ensures l == m
  {
    hide TreeOk, Bmap, NewBlock, TailZero;
    MapAgrees(j, disk, w, pm, ext, l);
    MapAgrees(j, disk, w, pm, ext, m);
    OldBlockFacts(j, l);
    OldBlockFacts(j, m);
  }

  // The new record is a well-formed file: sorted extents inside the end of file, zero tail.
  lemma FileAfter(j: Job, disk: Disk, w: seq<bool>, pm: seq<nat>, ext: seq<Extent>)
    requires Written(j, disk, w, pm, ext)
    ensures DataOk(j.g, disk, j.n.(ext := ext, size := NewSize(j.n.size, j.off, j.data)))
  {
    hide TreeOk, Bmap, NewBlock, ByteAt, Writing;
    var size := NewSize(j.n.size, j.off, j.data);
    WrittenRange(j, disk, w, pm, ext);
    forall i | 0 <= i < |ext| ensures j.g.DataFirst() <= ext[i].phys {
      BmapAt(ext, i, ext[i].logical);
      MapAgrees(j, disk, w, pm, ext, ext[i].logical);
    }
    forall l: nat | Bmap(ext, l) != 0 ensures IsData(disk, Bmap(ext, l)) {
      MapAgrees(j, disk, w, pm, ext, l);
    }
    forall l: nat, m: nat | Bmap(ext, l) != 0 && Bmap(ext, l) == Bmap(ext, m) ensures l == m {
      MapInj(j, disk, w, pm, ext, l, m);
    }
    TailAfter(j, disk, w, pm, ext);
  }

  lemma TailAfter(j: Job, disk: Disk, w: seq<bool>, pm: seq<nat>, ext: seq<Extent>)
    requires Written(j, disk, w, pm, ext)
    ensures TailZero(disk, ext, NewSize(j.n.size, j.off, j.data))
  {
    hide TreeOk, Bmap, NewBlock, Written, DataOk;
    WrittenRange(j, disk, w, pm, ext);
    var size := NewSize(j.n.size, j.off, j.data);
    var p := Bmap(ext, size / BLOCK);
    if p != 0 && IsData(disk, p) {
      forall i | size % BLOCK <= i < BLOCK ensures disk[p].bytes[i] == 0 {
        var pos := size / BLOCK * BLOCK + i;
        assert pos / BLOCK == size / BLOCK && pos % BLOCK == i && pos >= size;
        BytesAfter(j, disk, w, pm, ext, pos);
        PastEnd(j.g, j.disk0, j.n, pos);
        assert ByteAt(disk, ext, pos) == disk[p].bytes[i];
      }
    }
  }

  // The bitmap: the file's old blocks are out, its new ones are in.
  lemma BitsAfter(j: Job, disk: Disk, w: seq<bool>, pm: seq<nat>, ext: seq<Extent>)
    requires Written(j, disk, w, pm, ext)
    ensures BitsMoved(j.w0, w, DataSet(j.n.ext), DataSet(ext))
  {
    hide TreeOk, Bmap, DataOk, UsedOk;
    forall b: nat | b < |j.w0| ensures w[b] <==> (j.w0[b] && b !in DataSet(j.n.ext)) || b in DataSet(ext) {
      BitAfter(j, disk, w, pm, ext, b);
    }
  }

  lemma BitAfter(j: Job, disk: Disk, w: seq<bool>, pm: seq<nat>, ext: seq<Extent>, b: nat)
    requires Written(j, disk, w, pm, ext) && b < |j.w0|
    ensures |w| == |j.w0| && (w[b] <==> (j.w0[b] && b !in DataSet(j.n.ext)) || b in DataSet(ext))
  {
    hide TreeOk, Bmap, UsedOk, NewBlock, TailZero;
    var first, last := j.off / BLOCK, (j.off + |j.data| - 1) / BLOCK;
    if b in DataSet(ext) {
      var l: nat :| l < MAX_FILE_BLOCKS && Bmap(ext, l) != 0 && Bmap(ext, l) == b;
      MapAgrees(j, disk, w, pm, ext, l);
      OldBlockFacts(j, l);
      if first <= l <= last {
        assert b in Range(pm, first, last + 1);
      } else {
        forall m: nat | first <= m < last + 1 ensures j.pm0[m] != b { assert j.pm0[m] == Bmap(j.n.ext, m); }
        assert b !in Range(j.pm0, first, last + 1);
      }
    } else {
      forall m: nat | first <= m < last + 1 ensures pm[m] != b { MapAgrees(j, disk, w, pm, ext, m); }
      assert b !in Range(pm, first, last + 1);
      if b in DataSet(j.n.ext) {
        var l: nat :| l < MAX_FILE_BLOCKS && Bmap(j.n.ext, l) != 0 && Bmap(j.n.ext, l) == b;
        MapAgrees(j, disk, w, pm, ext, l);
        assert j.pm0[l] == b;
        assert b in Range(j.pm0, first, last + 1);
      } else {
        forall m: nat | first <= m < last + 1 && j.pm0[m] != 0
          ensures j.pm0[m] != b
        {
          assert j.pm0[m] == Bmap(j.n.ext, m);
        }
        assert b !in Range(j.pm0, first, last + 1);
      }
    }
  }

  // The record the write leaves behind.
  function NewRecord(j: Job, ext: seq<Extent>): DNode {
    j.n.(ext := ext, size := NewSize(j.n.size, j.off, j.data))
  }

  lemma WriteDone(j: Job, disk: Disk, w: seq<bool>, pm: seq<nat>, ext: seq<Extent>)
    requires Written(j, disk, w, pm, ext)
    ensures
      var n' := NewRecord(j, ext);
      var T' := SetNode(j.T, j.id, n', []);
      && TreeOk(j.g, j.crc, disk, j.mp, T', j.dirty + {j.id}) && UsedOk(j.g, w, j.mapPhys, T'.owner)
      && View(j.g, disk, T') == View(j.g, j.disk0, j.T)[j.id :=
           File(WriteBytes(Content(j.disk0, j.n.ext, j.n.size), j.off, j.data), j.n.nlink, j.n.mode)]
  {
    hide TreeOk, Bmap, UsedOk, NewBlock, DataOk, View, SetNode, Content, WriteBytes, Writing, Represents, DataSet;
    var n' := NewRecord(j, ext);
    FileAfter(j, disk, w, pm, ext);
    ContentAfter(j, disk, w, pm, ext);
    BitsAfter(j, disk, w, pm, ext);
    OldBlockFacts(j, 0);
    assert BlocksOf(n', []) == DataSet(ext);
    assert BlocksOf(j.n, []) == DataSet(j.n.ext);
    NewBlocksFresh(j, disk, w, pm, ext);
    OldRecordFacts(j);
    NodeReplaced(j.g, j.crc, j.disk0, disk, j.mp, j.T, j.dirty, j.w0, w, j.mapPhys, j.id, n', []);
  }

  lemma OldRecordFacts(j: Job)
    requires WriteBase(j)
    ensures j.n.edgeHead == NULL_BP && j.n.edgeCount == 0 && j.n.parent == 0
    ensures |j.T.nodes| == MAX_NODES && |j.T.chains| == MAX_NODES && |j.mp| == MAP_SLOTS
  {
    assert NodeOk(j.g, j.crc, j.disk0, j.T, j.id);
  }

  lemma NewBlocksFresh(j: Job, disk: Disk, w: seq<bool>, pm: seq<nat>, ext: seq<Extent>)
    requires Written(j, disk, w, pm, ext)
    ensures forall b :: b in DataSet(ext) ==>
      j.g.DataFirst() <= b < j.g.total && b !in Others(j.T, j.id) && b != j.mapPhys
    ensures Agree(j.disk0, disk, Others(j.T, j.id))
  {
    hide TreeOk, Bmap, UsedOk, NewBlock, DataOk;
    forall b | b in DataSet(ext) ensures j.g.DataFirst() <= b < j.g.total && b !in Others(j.T, j.id) && b != j.mapPhys {
      var l: nat :| l < MAX_FILE_BLOCKS && Bmap(ext, l) != 0 && Bmap(ext, l) == b;
      MapAgrees(j, disk, w, pm, ext, l);
    }
  }

  // ---- gfs_write -------------------------------------------------------------------------------------------

  // The job describes this mount at the start of the call.
  ghost predicate Mine(fs: Gfs, j: Job)
    reads fs
  {
    && fs.Safe() && fs.writable && WriteBase(j)
    && j.g == fs.g && j.crc == fs.crc && j.w0 == fs.committed && j.mapPhys == fs.nodemap.phys
    && |j.pm0| == MAX_FILE_BLOCKS && j.data != [] && j.off + |j.data| <= MAX_FILE_SIZE
  }

  // ---- where the blocks go -----------------------------------------------------------------------------------

  // The k blocks that a write takes, each next to the one before it when it can.
  ghost function Placed(avail: set<nat>, hint: nat, k: nat): (bs: seq<nat>)
    requires |avail| >= k
    ensures |bs| == k
  {
    if k == 0 then []
    else
      var b := Pick(avail, hint);
      [b] + Placed(avail - {b}, b + 1, k - 1)
  }

  function Spliced(pm: seq<nat>, first: nat, bs: seq<nat>): (pm': seq<nat>)
    requires first + |bs| <= |pm|
    ensures |pm'| == |pm|
  {
    pm[..first] + bs + pm[first + |bs|..]
  }

  lemma SplicedNext(pm: seq<nat>, first: nat, bs: seq<nat>, b: nat)
    requires first + |bs| < |pm|
    ensures Spliced(pm, first, bs)[first + |bs| := b] == Spliced(pm, first, bs + [b])
  {}

  function PmapOf(ext: seq<Extent>): (pm: seq<nat>)
    ensures |pm| == MAX_FILE_BLOCKS
  {
    seq(MAX_FILE_BLOCKS, l requires 0 <= l => Bmap(ext, l))
  }

  // The file would have more than eight runs: the blocks of the write, placed among these, split it up too much.
  ghost predicate Splits(n: DNode, avail: set<nat>, off: nat, data: seq<byte>) {
    && data != [] && off + |data| <= MAX_FILE_SIZE && n.size <= MAX_FILE_SIZE && |avail| >= Needed(off, data)
    && Runs(Spliced(PmapOf(n.ext), off / BLOCK, Placed(avail, 0, Needed(off, data))),
            Nblocks(NewSize(n.size, off, data))) > INLINE_EXTENTS
  }

  // The same, for file id of a committed image.
  ghost predicate WriteSplits(L: Live, id: nat, off: nat, data: seq<byte>) {
    id < |L.T.nodes| && Splits(L.T.nodes[id], FreeSet(L.g, L.bm, L.bm), off, data)
  }

  // Write one block: build it, allocate near the hint, store it, give the old block back.
  method PutBlock(fs: Gfs, ghost j: Job, pm: seq<nat>, ghost first: nat, lbn: nat, off: nat, data: seq<byte>, hint: nat)
    returns (rc: Err, np: nat)
    requires Mine(fs, j) && off == j.off && data == j.data && first == off / BLOCK && lbn <= (off + |data| - 1) / BLOCK
    requires Writing(j, fs.disk, fs.working, pm, first, lbn)
    modifies fs`disk, fs`log, fs`faults, fs`working
    ensures fs.Steady(old(fs.faults)) && fs.Safe()
    ensures rc == OK ==>
      Mine(fs, j) && Writing(j, fs.disk, fs.working, pm[lbn := np], first, lbn + 1)
      && old(fs.Avail()) != {} && np == Pick(old(fs.Avail()), hint) && fs.Avail() == old(fs.Avail()) - {np}
    ensures rc != OK ==> (rc == EIO && fs.faults > old(fs.faults)) || (rc == ENOSPC && old(fs.Avail()) == {})
  {
    hide Image, View, Replay, Traced, TreeOk, Bmap, UsedOk, NewBlock, DataOk, FreeSet, BitsMoved, Range, BitCleared;
    ImageFacts(fs.crc, fs.disk, fs.live);
    OldBlockFacts(j, lbn);
    var oldp := pm[lbn];
    np := 0;
    var bytes;
    rc, bytes := NewContents(fs, j.disk0, j.n.ext, lbn, oldp, off, data);
    if rc != OK { return; }
    rc, np := fs.AllocNear(hint);
    if rc != OK { return; }
    WriteStep(j, fs.disk, old(fs.working), pm, first, lbn, np);
    FreeSetKept(fs.g, fs.committed, old(fs.working), np, oldp);
    rc := fs.BWrite(np, DataB(bytes));
    if rc != OK { return; }
    fs.FreeBlock(oldp);
  }

  method PutBlocks(fs: Gfs, ghost j: Job, pm0: seq<nat>, off: nat, data: seq<byte>) returns (rc: Err, pm: seq<nat>)
    requires Mine(fs, j) && off == j.off && data == j.data && pm0 == j.pm0 && fs.disk == j.disk0
      && fs.working == fs.committed
    requires forall l: nat :: l < MAX_FILE_BLOCKS ==> pm0[l] == Bmap(j.n.ext, l)
    modifies fs`disk, fs`log, fs`faults, fs`working
    ensures fs.Steady(old(fs.faults)) && fs.Safe()
    ensures rc == OK ==>
      && Mine(fs, j) && Writing(j, fs.disk, fs.working, pm, off / BLOCK, (off + |data| - 1) / BLOCK + 1)
      && |fs.Avail()| >= old(|fs.Avail()|) - Needed(off, data)
    ensures rc == OK && old(|fs.Avail()|) >= Needed(off, data) ==>
      pm == Spliced(pm0, off / BLOCK, Placed(old(fs.Avail()), 0, Needed(off, data)))
    ensures rc != OK ==>
      (rc == EIO && fs.faults > old(fs.faults)) || (rc == ENOSPC && old(|fs.Avail()|) < Needed(off, data))
  {
    hide Image, View, Replay, Traced, TreeOk, Bmap, UsedOk, NewBlock, DataOk, FreeSet, BitsMoved, BitCleared, WriteBase,
      Writing, Pick, Spliced;
    var first, last := off / BLOCK, (off + |data| - 1) / BLOCK;
    pm := pm0;
    WriteStart(j, fs.disk, fs.working, first);
    var hint := 0;
    var lbn := first;
    ghost var bs: seq<nat>, avail, total := [], fs.Avail(), last + 1 - first;
    SplicedNone(pm0, first);
    while lbn <= last
      invariant first <= lbn <= last + 1 && fs.Steady(old(fs.faults))
      invariant Mine(fs, j) && Writing(j, fs.disk, fs.working, pm, first, lbn) && |pm| == MAX_FILE_BLOCKS
      invariant |fs.Avail()| >= |avail| - (lbn - first) && avail == old(fs.Avail())
      invariant |bs| == lbn - first && pm == Spliced(pm0, first, bs)
      invariant |avail| >= total ==> Placed(avail, 0, total) == bs + Placed(fs.Avail(), hint, last + 1 - lbn)
    {
      ghost var before := fs.Avail();
      var np;
      rc, np := PutBlock(fs, j, pm, first, lbn, off, data, hint);
      if rc != OK { return; }
      SplicedNext(pm0, first, bs, np);
      if |avail| >= total { PlacedNext(before, hint, last + 1 - lbn, bs); }
      bs := bs + [np];
      pm := pm[lbn := np];
      hint := np + 1;
      lbn := lbn + 1;
    }
    assert |avail| >= total ==> Placed(fs.Avail(), hint, 0) == [] && bs + [] == bs;
    rc := OK;
  }

  lemma SplicedNone(pm: seq<nat>, first: nat)
    requires first <= |pm|
    ensures Spliced(pm, first, []) == pm
  {}

  lemma PlacedNext(avail: set<nat>, hint: nat, k: nat, bs: seq<nat>)
    requires 0 < k <= |avail|
    ensures var b := Pick(avail, hint);
      |avail - {b}| >= k - 1 && bs + Placed(avail, hint, k) == bs + [b] + Placed(avail - {b}, b + 1, k - 1)
  {
    var b := Pick(avail, hint);
    assert |avail - {b}| == |avail| - 1;
  }

  lemma WriteStart(j: Job, disk: Disk, w: seq<bool>, first: nat)
    requires disk == j.disk0 && w == j.w0 && first <= MAX_FILE_BLOCKS && |j.pm0| == MAX_FILE_BLOCKS
    requires forall l: nat :: l < MAX_FILE_BLOCKS ==> j.pm0[l] == Bmap(j.n.ext, l)
    ensures Writing(j, disk, w, j.pm0, first, first)
  {
    hide Bmap;
    assert Range(j.pm0, first, first) == {};
  }

  // Data blocks the write must allocate.
  function Needed(off: nat, data: seq<byte>): int {
    (off + |data| - 1) / BLOCK - off / BLOCK + 1
  }

  // Block l is among them exactly when some byte of the write falls into it.
  lemma NeededIs(off: nat, data: seq<byte>, l: nat)
    requires data != []
    ensures off / BLOCK <= l < off / BLOCK + Needed(off, data) <==>
      exists pos: nat :: off <= pos < off + |data| && pos / BLOCK == l
  {
    if off / BLOCK <= l < off / BLOCK + Needed(off, data) {
      var pos := if l == off / BLOCK then off else l * BLOCK;
      assert off <= pos < off + |data| && pos / BLOCK == l;
    }
  }

  // The write may leave the file with more than eight runs: one more, and one for each block written.
  predicate Fragmented(ext: seq<Extent>, off: nat, data: seq<byte>) {
    |ext| + 1 + Needed(off, data) > INLINE_EXTENTS
  }

  lemma RunsAfter(j: Job, disk: Disk, w: seq<bool>, pm: seq<nat>, n: nat)
    requires j.data != [] && n <= |pm| && Sorted(j.n.ext)
      && (forall i :: 0 <= i < |j.n.ext| ==> 1 <= j.n.ext[i].len && j.n.ext[i].phys > 0)
    requires Writing(j, disk, w, pm, j.off / BLOCK, (j.off + |j.data| - 1) / BLOCK + 1)
    ensures Runs(pm, n) <= |j.n.ext| + 1 + Needed(j.off, j.data)
  {
    hide Bmap, BitsMoved, NewBlock, Sorted;
    RunsAreExtents(j.n.ext, j.pm0, n);
    RunsChanged(j.pm0, pm, j.off / BLOCK, (j.off + |j.data| - 1) / BLOCK + 1, n);
  }

  // Store the new record and stage it in the tree.
  method PutRecord(fs: Gfs, ghost j: Job, pm: seq<nat>, ext: seq<Extent>, n': DNode, id: nat) returns (rc: Err)
    requires Mine(fs, j) && Written(j, fs.disk, fs.working, pm, ext) && n' == NewRecord(j, ext) && id == j.id
    requires fs.T == j.T && fs.mp == j.mp && fs.dirty == j.dirty == {}
    modifies fs`disk, fs`log, fs`faults, fs`working, fs`mp, fs`T, fs`dirty
    ensures fs.Steady(old(fs.faults)) && fs.Safe()
    ensures rc == OK ==>
      && fs.Work() && fs.dirty == {} && |fs.Avail()| >= old(|fs.Avail()|) - 1
      && CountFreeNodes(fs.T.nodes, fs.g.nodeCount) == old(CountFreeNodes(fs.T.nodes, fs.g.nodeCount))
      && fs.Now() == View(j.g, j.disk0, j.T)[j.id :=
           File(WriteBytes(Content(j.disk0, j.n.ext, j.n.size), j.off, j.data), j.n.nlink, j.n.mode)]
    ensures rc != OK ==> (rc == EIO && fs.faults > old(fs.faults)) || (rc == ENOSPC && old(fs.Avail()) == {})
  {
    hide Image, View, Replay, Traced, TreeOk, UsedOk, FreeSet, CountFreeNodes, Content, WriteBytes, Writing, Represents,
      Reown;
    ImageFacts(fs.crc, fs.disk, fs.live);
    OldRecordFacts(j);
    WriteDone(j, fs.disk, fs.working, pm, ext);
    FreeNodesChange(fs.T.nodes, id, n', fs.g.nodeCount);
    fs.T := SetNode(fs.T, id, n', []);
    fs.dirty := fs.dirty + {id};
    rc := fs.NodeWrite(id, n');
  }

  // gfs_write inside its transaction.
  method WriteTxn(fs: Gfs, id: nat, off: nat, data: seq<byte>) returns (rc: Err)
    requires fs.Work() && fs.dirty == {} && fs.working == fs.committed && data != [] && off + |data| <= MAX_FILE_SIZE
    modifies fs`disk, fs`log, fs`faults, fs`working, fs`mp, fs`T, fs`dirty
    ensures fs.Steady(old(fs.faults)) && fs.Safe()
    ensures rc == OK ==>
      && fs.Work() && fs.dirty == {} && fs.Avail() != {}
      && CountFreeNodes(fs.T.nodes, fs.g.nodeCount) == old(CountFreeNodes(fs.T.nodes, fs.g.nodeCount))
      && WriteAt(old(fs.Now()), id, off, data) == Ok(fs.Now())
    ensures rc != OK ==>
      || (rc == EFRAG && id < old(|fs.T.nodes|) && Fragmented(old(fs.T.nodes)[id].ext, off, data))
      || Refused(rc, WriteAt(old(fs.Now()), id, off, data), fs.faults > old(fs.faults), false,
        fs.freeBlocks < Needed(off, data) + 2)
    ensures rc == OK || rc == EFRAG ==>
      id < old(|fs.T.nodes|) && (rc == EFRAG <==> Splits(old(fs.T.nodes)[id], old(fs.Avail()), off, data))
  {
    hide Image, View, Replay, Traced, TreeOk, UsedOk, FreeSet, CountFreeNodes, CountFree, Content, WriteBytes, Writing,
      Represents, Bmap, Splits;
    ImageFacts(fs.crc, fs.disk, fs.live);
    ImageCounts(fs.crc, fs.disk, fs.live);
    TreeLengths(fs.g, fs.crc, fs.disk, fs.mp, fs.T, fs.dirty);
    var n;
    rc, n := OpenFile(fs, id);
    if rc != OK { return; }
    FileFacts(fs, id, n);
    rc := WriteOpened(fs, id, n, off, data);
  }

  // The write itself, once the file's record has been read.
  method WriteOpened(fs: Gfs, id: nat, n: DNode, off: nat, data: seq<byte>) returns (rc: Err)
    requires fs.Work() && fs.dirty == {} && fs.working == fs.committed && data != [] && off + |data| <= MAX_FILE_SIZE
    requires FileInView(fs, id, n)
    modifies fs`disk, fs`log, fs`faults, fs`working, fs`mp, fs`T, fs`dirty
    ensures fs.Steady(old(fs.faults)) && fs.Safe()
    ensures rc == OK ==>
      && fs.Work() && fs.dirty == {} && fs.Avail() != {}
      && CountFreeNodes(fs.T.nodes, fs.g.nodeCount) == old(CountFreeNodes(fs.T.nodes, fs.g.nodeCount))
      && |old(fs.Now())| > id
      && fs.Now() == old(fs.Now())[id := File(WriteBytes(Content(old(fs.disk), n.ext, n.size), off, data), n.nlink,
        n.mode)]
    ensures rc != OK ==>
      || (rc == EFRAG && Fragmented(n.ext, off, data))
      || (rc == EIO && fs.faults > old(fs.faults)) || (rc == ENOSPC && fs.freeBlocks < Needed(off, data) + 2)
    ensures rc == EFRAG ==> Splits(n, old(fs.Avail()), off, data)
    ensures rc == OK ==> !Splits(n, old(fs.Avail()), off, data)
  {
    hide Image, View, Replay, Traced, TreeOk, UsedOk, FreeSet, CountFreeNodes, CountFree, Content, WriteBytes, Writing,
      Represents, Bmap, Gfs.Safe, Spliced, Placed, Runs;
    ImageFacts(fs.crc, fs.disk, fs.live);
    ImageCounts(fs.crc, fs.disk, fs.live);
    FileFacts(fs, id, n);
    var size := if n.size > off + |data| then n.size else off + |data|;
    var blocks := (size + BLOCK - 1) / BLOCK;
    var pm0 := BuildPmap(n.ext);
    assert pm0 == PmapOf(n.ext);
    var free := fs.CountFreeBits();
    if free < (off + |data| - 1) / BLOCK - off / BLOCK + 1 + 2 { return ENOSPC; }
    ghost var j := Job(fs.g, fs.crc, fs.disk, fs.mp, fs.T, fs.dirty, fs.working, fs.nodemap.phys, id, n, off, data,
      pm0);
    var pm;
    rc, pm := PutBlocks(fs, j, pm0, off, data);
    if rc != OK { return; }
    WritingLength(j, fs.disk, fs.working, pm, off / BLOCK, (off + |data| - 1) / BLOCK + 1);
    var ext;
    RunsAfter(j, fs.disk, fs.working, pm, blocks);
    rc, ext := Coalesce(pm, blocks);
    if rc != OK { return; }
    rc := PutRecord(fs, j, pm, ext, n.(ext := ext, size := size), id);
  }

  lemma NothingSplits(L: Live, id: nat, off: nat, data: seq<byte>)
    requires data == []
    ensures !WriteSplits(L, id, off, data)
  {}

  lemma WritingLength(j: Job, disk: Disk, w: seq<bool>, pm: seq<nat>, first: nat, cur: nat)
    requires Writing(j, disk, w, pm, first, cur)
    ensures |pm| == MAX_FILE_BLOCKS
  {}

  // gfs_write.  The call returns the number of bytes written, all of data, or an error.  Once the
  // free-space test has passed, no allocation in the call can fail.
  method WriteFile(fs: Gfs, id: nat, off: nat, data: seq<byte>) returns (rc: Err)
    requires fs.Valid()
    modifies fs
    ensures fs.Valid() && fs.disk == Replay(old(fs.disk), fs.log) && fs.Steady(old(fs.faults))
    ensures Atomic(fs.crc, old(fs.disk), fs.log, old(fs.live), fs.live)
    ensures rc == OK ==> WriteAt(old(fs.Stored()), id, off, data) == Ok(fs.Stored())
    ensures rc != OK ==>
      && fs.live == old(fs.live) && fs.Stored() == old(fs.Stored())
      && (|| (rc == EFRAG && id < |old(fs.live).T.nodes| && Fragmented(old(fs.live).T.nodes[id].ext, off, data))
          || Refused(rc, WriteAt(old(fs.Stored()), id, off, data), fs.faults > old(fs.faults), !fs.writable,
                     old(fs.freeBlocks) < Needed(off, data) + 2))
    ensures old(fs.freeBlocks) >= Needed(off, data) + 2 ==> rc != ENOSPC
    ensures rc == OK || rc == EFRAG ==> (rc == EFRAG <==> WriteSplits(old(fs.live), id, off, data))
  {
    hide Image, View, Replay, Traced, TreeOk, UsedOk, FreeSet, CountFreeNodes, Published, Atomic, Splits, Fragmented,
      Needed;
    ImageFacts(fs.crc, fs.disk, fs.live);
    ImageCounts(fs.crc, fs.disk, fs.live);
    StartCall(fs);
    CallUndone(fs);
    if |data| == 0 {
      NothingSplits(fs.live, id, off, data);
      return OK;
    }
    if off + |data| > MAX_FILE_SIZE { return EFBIG; }
    rc := fs.TxnBegin();
    if rc == OK {
      rc := WriteTxn(fs, id, off, data);
    }
    if rc == OK {
      rc := fs.TxnCommit(0);
    }
    if rc != OK { CallUndone(fs); } else { CallDone(fs.crc, fs.base, fs.log, old(fs.live), fs.live); }
  }
}
