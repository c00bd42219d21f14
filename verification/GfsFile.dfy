// File contents: reading through the extents.
module GfsFile {
  import opened GfsTypes
  import opened Namespace
  import opened GfsDisk
  import opened GfsFrame
  import opened GfsCore
  import opened GfsStage

  lemma SameBlock(pos: nat, i: nat)
    requires pos % BLOCK + i < BLOCK
    ensures (pos + i) / BLOCK == pos / BLOCK && (pos + i) % BLOCK == pos % BLOCK + i
  {}

  // The part of a file that lies in one block.
  lemma ChunkIsContent(disk: Disk, ext: seq<Extent>, size: nat, pos: nat, chunk: nat)
    requires pos % BLOCK + chunk <= BLOCK && pos + chunk <= size
    requires Bmap(ext, pos / BLOCK) != 0 ==> IsData(disk, Bmap(ext, pos / BLOCK))
    ensures Content(disk, ext, size)[pos..pos + chunk] ==
      (var p := Bmap(ext, pos / BLOCK); if p == 0 then Zeros(chunk)
        else disk[p].bytes[pos % BLOCK..pos % BLOCK + chunk])
  {
    var p := Bmap(ext, pos / BLOCK);
    var c := Content(disk, ext, size)[pos..pos + chunk];
    var e := if p == 0 then Zeros(chunk) else disk[p].bytes[pos % BLOCK..pos % BLOCK + chunk];
    forall i: nat | i < chunk ensures c[i] == e[i] {
      SameBlock(pos, i);
    }
  }

  // A file whose in-memory record agrees with the tree.
  ghost predicate FileInView(fs: Gfs, id: nat, n: DNode)
    reads fs
  {
    fs.Loaded() && 0 < id < fs.g.nodeCount && n == fs.T.nodes[id] && n.typ == TData
  }

  lemma FileFacts(fs: Gfs, id: nat, n: DNode)
    requires FileInView(fs, id, n)
    ensures DataOk(fs.g, fs.disk, n) && fs.g.Ok() && fs.g.total <= |fs.disk| && fs.T.chains[id] == []
    ensures forall l: nat :: Bmap(n.ext, l) != 0 ==>
      fs.g.DataFirst() <= Bmap(n.ext, l) < fs.g.total && Owned(fs.T, Bmap(n.ext, l), ONode(id))
    ensures fs.Now()[id] == File(Content(fs.disk, n.ext, n.size), n.nlink, n.mode)
  {
    hide Image, TableOk, RecOk, OwnerOk, Edges, EntryMap, Bmap, Content, DataInj, TailZero;
    ImageFacts(fs.crc, fs.disk, fs.live);
    assert NodeOk(fs.g, fs.crc, fs.disk, fs.T, id);
    forall l: nat | Bmap(n.ext, l) != 0
      ensures fs.g.DataFirst() <= Bmap(n.ext, l) < fs.g.total && Owned(fs.T, Bmap(n.ext, l), ONode(id))
    {
      BmapInSet(fs.g, n.ext, n.size, l);
      assert Bmap(n.ext, l) in BlocksOf(n, fs.T.chains[id]);
      assert Owned(fs.T, Bmap(n.ext, l), ONode(id));
      OwnedInRange(fs.g, fs.crc, fs.disk, fs.mp, fs.T, fs.dirty, Bmap(n.ext, l));
    }
  }

  // Open a DATA node.
  method OpenFile(fs: Gfs, id: nat) returns (rc: Err, n: DNode)
    requires fs.Loaded() && fs.dirty == {}
    modifies fs`faults
    ensures fs.Steady(old(fs.faults))
    ensures rc == OK ==> FileInView(fs, id, n) && FileCheck(fs.Now(), id) == OK
    ensures rc != OK ==> (rc == EIO && fs.faults > old(fs.faults)) || rc == FileCheck(fs.Now(), id)
  {
    hide Image, View, Replay, Traced, TreeOk, ViewNode;
    ImageFacts(fs.crc, fs.disk, fs.live);
    TreeLengths(fs.g, fs.crc, fs.disk, fs.mp, fs.T, fs.dirty);
    rc, n := fs.NodeRead(id);
    if rc != OK { return; }
    ViewFree(fs.g, fs.disk, fs.T, id);
    if n.typ == TFree { return ENOENT, n; }
    if n.typ != TData { return EISDIR, n; }
  }

  // The bytes from pos on that lie in its block, at most len.
  method CopyChunk(fs: Gfs, ghost id: nat, n: DNode, pos: nat, len: nat) returns (rc: Err, bytes: seq<byte>)
    requires FileInView(fs, id, n) && 0 < len && pos + len <= n.size
    modifies fs`faults
    ensures fs.Steady(old(fs.faults))
    ensures rc == OK ==>
      0 < |bytes| <= len && bytes == Content(fs.disk, n.ext, n.size)[pos..pos + |bytes|] && fs.faults == old(fs.faults)
    ensures rc != OK ==> rc == EIO && fs.faults > old(fs.faults)
  {
    hide Image, View, Replay, Traced, TreeOk, ViewNode, Content, Bmap, DataInj, TailZero, ExtOk;
    FileFacts(fs, id, n);
    var boff := pos % BLOCK;
    var chunk := BLOCK - boff;
    if chunk > len { chunk := len; }
    var phys := Bmap(n.ext, pos / BLOCK);
    ChunkIsContent(fs.disk, n.ext, n.size, pos, chunk);
    if phys == 0 {
      rc, bytes := OK, Zeros(chunk);
    } else {
      var b;
      rc, b := fs.BRead(phys);
      if rc != OK { return rc, []; }
      bytes := b.bytes[boff..boff + chunk];
    }
  }

  // Copy len bytes from offset off, block by block.
  method CopyOut(fs: Gfs, ghost id: nat, n: DNode, off: nat, len: nat) returns (rc: Err, buf: seq<byte>)
    requires FileInView(fs, id, n) && off + len <= n.size
    modifies fs`faults
    ensures fs.Steady(old(fs.faults))
    ensures rc == OK ==> buf == Content(fs.disk, n.ext, n.size)[off..off + len]
    ensures rc != OK ==> rc == EIO && fs.faults > old(fs.faults)
  {
    hide Image, View, Replay, Traced, TreeOk, ViewNode, Content;
    ghost var c := Content(fs.disk, n.ext, n.size);
    buf, rc := [], OK;
    var done := 0;
    while done < len
      invariant 0 <= done <= len && rc == OK && fs.faults == old(fs.faults) && buf == c[off..off + done]
      decreases len - done
    {
      var bytes;
      rc, bytes := CopyChunk(fs, id, n, off + done, len - done);
      if rc != OK { return; }
      assert c[off..off + done] + bytes == c[off..off + done + |bytes|];
      buf := buf + bytes;
      done := done + |bytes|;
    }
  }

  method ReadFile(fs: Gfs, id: nat, off: nat, len: nat) returns (rc: Err, buf: seq<byte>)
    requires fs.Valid()
    modifies fs`faults, fs`mp, fs`T, fs`dirty
    ensures fs.Valid()
    ensures rc == OK ==> ReadAt(fs.Stored(), id, off, len) == Ok(buf)
    ensures rc != OK ==> (rc == EIO && fs.faults > old(fs.faults)) || ReadAt(fs.Stored(), id, off, len) == Fail(rc)
  {
    hide Image, View, Replay, Traced, TreeOk, ViewNode, Content, Bmap, DataOk;
    ImageFacts(fs.crc, fs.disk, fs.live);
    buf := [];
    rc := fs.MapLoad();
    if rc != OK { return; }
    var n;
    rc, n := OpenFile(fs, id);
    if rc != OK { return; }
    FileFacts(fs, id, n);
    if off >= n.size { return OK, []; }
    ghost var c := Content(fs.disk, n.ext, n.size);
    assert c[off..] == c[off..n.size];
    var want := if len > n.size - off then n.size - off else len;
    rc, buf := CopyOut(fs, id, n, off, want);
  }
}
