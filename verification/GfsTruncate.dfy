// gfs_truncate.
module GfsTruncate {
  import Counting
  import opened GfsTypes
  import opened Namespace
  import opened GfsDisk
  import opened GfsFrame
  import opened GfsUpdate
  import opened GfsCore
  import opened GfsCrash
  import opened GfsExtents
  import opened GfsStage
  import opened GfsOps
  import opened GfsFile
  import opened GfsPmap
  import opened GfsWrite

  // ---- dropping and trimming extents past the new end ------------------------------------------

  // What is left of one extent when only the first `keep` blocks of the file stay.
  function TrimOne(e: Extent, keep: nat): seq<Extent> {
    if e.logical >= keep then []
    else if e.logical + e.len > keep then [e.(len := keep - e.logical)]
    else [e]
  }

  // What is left of the first k extents.
  function Trimmed(ext: seq<Extent>, keep: nat, k: nat): seq<Extent>
    requires k <= |ext|
  {
    if k == 0 then [] else Trimmed(ext, keep, k - 1) + TrimOne(ext[k - 1], keep)
  }

  ghost predicate Runnable(ext: seq<Extent>) {
    Sorted(ext) && forall i :: 0 <= i < |ext| ==> 1 <= ext[i].len && ext[i].phys > 0
  }

  // Block b of the first k extents lies past the kept part.
  ghost predicate Cut(ext: seq<Extent>, k: nat, keep: nat, b: nat) {
    exists i: nat :: i < k && i < |ext| && CutIn(ext[i], keep, b)
  }

  predicate CutIn(e: Extent, keep: nat, b: nat) { InRun(e, b) && e.logical + (b - e.phys) >= keep }

  // `out` is what the first k extents leave.
  ghost predicate TrimState(ext: seq<Extent>, keep: nat, k: nat, out: seq<Extent>) {
    && k <= |ext| && |out| <= k && Runnable(out)
    && (forall i :: 0 <= i < |out| ==> out[i].logical + out[i].len <= keep)
    && (forall i, m :: 0 <= i < |out| && k <= m < |ext| ==> out[i].logical + out[i].len <= ext[m].logical)
    && (forall l: nat :: Bmap(out, l) == if l < keep then Bmap(ext[..k], l) else 0)
  }

  lemma TrimStep(ext: seq<Extent>, keep: nat, k: nat, out: seq<Extent>)
    requires Runnable(ext) && TrimState(ext, keep, k, out) && k < |ext|
    ensures TrimState(ext, keep, k + 1, out + TrimOne(ext[k], keep))
  {
    hide Bmap;
    var e := ext[k];
    var out' := out + TrimOne(e, keep);
    forall l: nat ensures Bmap(out', l) == if l < keep then Bmap(ext[..k + 1], l) else 0 {
      BmapSnoc(ext, k, l);
      if e.logical >= keep {
        assert out' == out;
      } else {
        BmapSnoc(out', |out|, l);
        assert out'[..|out| + 1] == out' && out'[..|out|] == out;
      }
    }
  }

  method Trim(fs: Gfs, ext: seq<Extent>, keep: nat) returns (out: seq<Extent>)
    requires Runnable(ext) && forall i :: 0 <= i < |ext| ==> ext[i].phys + ext[i].len <= |fs.working|
    modifies fs`working
    ensures |fs.working| == old(|fs.working|)
    ensures TrimState(ext, keep, |ext|, out) && out == Trimmed(ext, keep, |ext|)
    ensures forall b: nat :: b < |fs.working| ==> (fs.working[b] <==> old(fs.working)[b] && !Cut(ext, |ext|, keep, b))
  {
    hide Bmap, Sorted;
    out := [];
    forall l: nat ensures Bmap(out, l) == 0 && Bmap(ext[..0], l) == 0 { BmapHole(out, l); BmapHole(ext[..0], l); }
    SortedEmpty();
    var k := 0;
    while k < |ext|
      invariant 0 <= k <= |ext| && |fs.working| == old(|fs.working|)
      invariant TrimState(ext, keep, k, out) && out == Trimmed(ext, keep, k)
      invariant forall b: nat :: b < |fs.working| ==> (fs.working[b] <==> old(fs.working)[b] && !Cut(ext, k, keep, b))
    {
      var e := ext[k];
      TrimStep(ext, keep, k, out);
      if e.logical >= keep {
        FreeRun(fs, e.phys, e.phys + e.len);
      } else if e.logical + e.len > keep {
        FreeRun(fs, e.phys + (keep - e.logical), e.phys + e.len);
      }
      forall b: nat ensures Cut(ext, k + 1, keep, b) <==> Cut(ext, k, keep, b) || CutIn(e, keep, b) {
        CutSnoc(ext, k, keep, b);
      }
      out := out + TrimOne(e, keep);
      k := k + 1;
    }
  }

  lemma SortedEmpty()
    ensures Sorted([])
  {}

  lemma CutSnoc(ext: seq<Extent>, k: nat, keep: nat, b: nat)
    requires k < |ext|
    ensures Cut(ext, k + 1, keep, b) <==> Cut(ext, k, keep, b) || CutIn(ext[k], keep, b)
  {
    if Cut(ext, k + 1, keep, b) {
      var i: nat :| i < k + 1 && i < |ext| && CutIn(ext[i], keep, b);
      assert i < k || i == k;
    }
  }

  // A cut block is one that bmap finds past the kept part.
  lemma CutIsBmap(g: Geo, ext: seq<Extent>, size: nat, keep: nat, b: nat)
    requires ExtOk(g, ext, size)
    ensures Cut(ext, |ext|, keep, b) <==> exists l: nat :: keep <= l < MAX_FILE_BLOCKS && Bmap(ext, l) == b && b != 0
  {
    if Cut(ext, |ext|, keep, b) {
      var i: nat :| i < |ext| && CutIn(ext[i], keep, b);
      var l := ext[i].logical + (b - ext[i].phys);
      BmapAt(ext, i, l);
      assert keep <= l < MAX_FILE_BLOCKS;
    }
    if l: nat :| keep <= l < MAX_FILE_BLOCKS && Bmap(ext, l) == b && b != 0 {
      var i := BmapFrom(ext, l);
      assert CutIn(ext[i], keep, b);
    }
  }

  // ---- repointing the last block ---------------------------------------------------------------------

  // The last mapped block is the final block of the final extent.
  lemma LastHolds(ext: seq<Extent>, lbn: nat)
    requires Runnable(ext) && (forall i :: 0 <= i < |ext| ==> ext[i].logical + ext[i].len <= lbn + 1)
      && Bmap(ext, lbn) != 0
    ensures ext != [] && ext[|ext| - 1].logical + ext[|ext| - 1].len == lbn + 1
  {
    var k := BmapFrom(ext, lbn);
  }

  // An extent stays for each one that starts below the cut.
  lemma {:induction false} TrimmedAll(ext: seq<Extent>, keep: nat, k: nat)
    requires k <= |ext|
    ensures |Trimmed(ext, keep, k)| <= k
    ensures |Trimmed(ext, keep, k)| == k <==> forall i :: 0 <= i < k ==> ext[i].logical < keep
    ensures |Trimmed(ext, keep, k)| == k > 0 ==> Trimmed(ext, keep, k)[k - 1] == TrimOne(ext[k - 1], keep)[0]
  {
    if k > 0 { TrimmedAll(ext, keep, k - 1); }
  }

  // Cutting the file at size splits the last of eight extents: the new last block lies in it, behind its first block.
  predicate TailSplits(ext: seq<Extent>, size: nat) {
    && |ext| == INLINE_EXTENTS && size % BLOCK != 0
    && var last := ext[INLINE_EXTENTS - 1]; last.logical < size / BLOCK < last.logical + last.len
  }

  lemma TailSplitsIff(ext: seq<Extent>, size: nat, out: seq<Extent>)
    requires Runnable(ext) && |ext| <= INLINE_EXTENTS && size % BLOCK != 0 && out == Trimmed(ext, Nblocks(size), |ext|)
    requires TrimState(ext, Nblocks(size), |ext|, out)
    ensures TailSplits(ext, size) <==>
      Bmap(out, size / BLOCK) != 0 && |out| == INLINE_EXTENTS && out[INLINE_EXTENTS - 1].len != 1
  {
    hide Bmap;
    var lbn, keep := size / BLOCK, Nblocks(size);
    assert keep == lbn + 1 && ext[..|ext|] == ext;
    TrimmedAll(ext, keep, |ext|);
    if TailSplits(ext, size) {
      forall i | 0 <= i < |ext| ensures ext[i].logical < keep {
        assert i < 7 ==> ext[i].logical + ext[i].len <= ext[7].logical;
      }
      BmapAt(ext, 7, lbn);
    }
    if Bmap(out, lbn) != 0 && |out| == INLINE_EXTENTS && out[7].len != 1 { LastHolds(out, lbn); }
  }

  // The same, for file id of a committed image.
  ghost predicate CutSplits(L: Live, id: nat, size: nat) {
    id < |L.T.nodes| && size < L.T.nodes[id].size && TailSplits(L.T.nodes[id].ext, size)
  }

  // The final extent with its final block moved to np.
  function Repointed(ext: seq<Extent>, lbn: nat, np: nat): seq<Extent>
    requires ext != [] && ext[|ext| - 1].len >= 1
  {
    var z := |ext| - 1;
    if ext[z].len == 1 then ext[z := ext[z].(phys := np)]
    else ext[z := ext[z].(len := ext[z].len - 1)] + [Extent(lbn, np, 1)]
  }

  lemma RepointedShape(ext: seq<Extent>, lbn: nat, np: nat)
    requires Runnable(ext) && (forall i :: 0 <= i < |ext| ==> ext[i].logical + ext[i].len <= lbn + 1) && np > 0
    requires ext != [] && ext[|ext| - 1].logical + ext[|ext| - 1].len == lbn + 1
    ensures Runnable(Repointed(ext, lbn, np))
    ensures forall i :: 0 <= i < |Repointed(ext, lbn, np)| ==>
      Repointed(ext, lbn, np)[i].logical + Repointed(ext, lbn, np)[i].len <= lbn + 1
  {}

  lemma RepointedMap(ext: seq<Extent>, lbn: nat, np: nat, l: nat)
    requires Runnable(ext) && (forall i :: 0 <= i < |ext| ==> ext[i].logical + ext[i].len <= lbn + 1) && np > 0
    requires ext != [] && ext[|ext| - 1].logical + ext[|ext| - 1].len == lbn + 1
    ensures Bmap(Repointed(ext, lbn, np), l) == if l == lbn then np else Bmap(ext, l)
  {
    hide Bmap, Sorted;
    RepointedShape(ext, lbn, np);
    var r := Repointed(ext, lbn, np);
    var z := |ext| - 1;
    if l == lbn {
      BmapAt(r, |r| - 1, l);
    } else if Bmap(ext, l) != 0 {
      var k := BmapFrom(ext, l);
      BmapAt(r, k, l);
    } else {
      forall k | 0 <= k < |r| ensures !Holds(r[k], l) {
        if k <= z { NotHeld(ext, l, k); }
      }
      BmapHole(r, l);
    }
  }

  // ---- the file after truncation ------------------------------------------------------------------------

  // Reuses the job of module GfsWrite: off is the new size, and there is no data.
  function CutMap(j: Job, np: nat, l: nat): nat {
    if j.off < j.n.size && l >= Nblocks(j.off) then 0
    else if np != 0 && l == j.off / BLOCK then np
    else Bmap(j.n.ext, l)
  }

  function ZeroTail(b: seq<byte>, tail: nat): seq<byte>
    requires tail <= |b|
  {
    b[..tail] + Zeros(|b| - tail)
  }

  // The kept partial last block was rewritten into np, when there was one to rewrite.
  ghost predicate TailMoved(j: Job, disk: Disk, np: nat) {
    var oldp := Bmap(j.n.ext, j.off / BLOCK);
    var partial := j.off < j.n.size && j.off % BLOCK != 0 && oldp != 0;
    && (partial <==> np != 0)
    && (partial ==>
      && j.g.DataFirst() <= np < j.g.total && np < |j.w0| && !j.w0[np] && np < |disk|
      && IsData(j.disk0, oldp) && disk[np] == DataB(ZeroTail(j.disk0[oldp].bytes, j.off % BLOCK)))
  }

  ghost predicate Truncated(j: Job, disk: Disk, w: seq<bool>, ext: seq<Extent>, np: nat) {
    && WriteBase(j) && j.off <= MAX_FILE_SIZE
    && Runnable(ext) && |ext| <= INLINE_EXTENTS
    && (forall i :: 0 <= i < |ext| ==> ext[i].logical + ext[i].len <= Nblocks(j.off))
    && (forall l: nat :: Bmap(ext, l) == CutMap(j, np, l))
    && Agree(j.disk0, disk, j.T.owner.Keys)
    && TailMoved(j, disk, np)
    && BitsMoved(j.w0, w, DataSet(j.n.ext), DataSet(ext))
  }

  lemma CutBlock(j: Job, disk: Disk, w: seq<bool>, ext: seq<Extent>, np: nat, l: nat)
    requires Truncated(j, disk, w, ext, np)
    ensures Bmap(ext, l) != 0 ==>
      && IsData(disk, Bmap(ext, l)) && j.g.DataFirst() <= Bmap(ext, l) < j.g.total
      && Bmap(ext, l) !in Others(j.T, j.id) && Bmap(ext, l) != j.mapPhys
    ensures Bmap(ext, l) != 0 && !(np != 0 && l == j.off / BLOCK) ==>
      Bmap(ext, l) == Bmap(j.n.ext, l) && disk[Bmap(ext, l)] == j.disk0[Bmap(ext, l)]
    ensures DataOk(j.g, j.disk0, j.n)
  {
    hide TreeOk, Bmap, DataInj, TailZero;
    OldBlockFacts(j, l);
    OldBlockFacts(j, j.off / BLOCK);
  }

  // Below the new size nothing changes; above it there are only zeros.
  lemma CutBytes(j: Job, disk: Disk, w: seq<bool>, ext: seq<Extent>, np: nat, pos: nat)
    requires Truncated(j, disk, w, ext, np)
    ensures ByteAt(disk, ext, pos) == if pos < j.off then ByteAt(j.disk0, j.n.ext, pos) else 0
  {
    hide TreeOk, Bmap, DataInj, TailZero, UsedOk;
    var l := pos / BLOCK;
    CutBlock(j, disk, w, ext, np, l);
    OldBlockFacts(j, l);
    OldBlockFacts(j, j.off / BLOCK);
    if pos >= j.n.size { PastEnd(j.g, j.disk0, j.n, pos); }
  }

  lemma CutContent(j: Job, disk: Disk, w: seq<bool>, ext: seq<Extent>, np: nat)
    requires Truncated(j, disk, w, ext, np)
    ensures Content(disk, ext, j.off) == Resize(Content(j.disk0, j.n.ext, j.n.size), j.off)
  {
    hide TreeOk, Bmap, DataOk, ByteAt, Truncated;
    var a, b := Content(disk, ext, j.off), Resize(Content(j.disk0, j.n.ext, j.n.size), j.off);
    CutBlock(j, disk, w, ext, np, 0);
    forall i: nat | i < |a| ensures a[i] == b[i] {
      CutBytes(j, disk, w, ext, np, i);
      if i >= j.n.size { PastEnd(j.g, j.disk0, j.n, i); }
    }
  }

  lemma CutInj(j: Job, disk: Disk, w: seq<bool>, ext: seq<Extent>, np: nat, l: nat, m: nat)
    requires Truncated(j, disk, w, ext, np) && Bmap(ext, l) != 0 && Bmap(ext, l) == Bmap(ext, m)
    ensures l == m
  {
    hide TreeOk, Bmap, TailZero, UsedOk;
    OldBlockFacts(j, l);
    OldBlockFacts(j, m);
  }

  lemma CutTail(j: Job, disk: Disk, w: seq<bool>, ext: seq<Extent>, np: nat)
    requires Truncated(j, disk, w, ext, np)
    ensures TailZero(disk, ext, j.off)
  {
    hide TreeOk, Bmap, Truncated, DataOk;
    var p := Bmap(ext, j.off / BLOCK);
    if p != 0 && IsData(disk, p) {
      forall i | j.off % BLOCK <= i < BLOCK ensures disk[p].bytes[i] == 0 {
        var pos := j.off / BLOCK * BLOCK + i;
        assert pos / BLOCK == j.off / BLOCK && pos % BLOCK == i && pos >= j.off;
        CutBytes(j, disk, w, ext, np, pos);
        assert ByteAt(disk, ext, pos) == disk[p].bytes[i];
      }
    }
  }

  lemma CutFile(j: Job, disk: Disk, w: seq<bool>, ext: seq<Extent>, np: nat)
    requires Truncated(j, disk, w, ext, np)
    ensures DataOk(j.g, disk, j.n.(ext := ext, size := j.off))
  {
    hide TreeOk, Bmap, ByteAt, UsedOk, TailMoved, TailZero, CutMap;
    forall i | 0 <= i < |ext| ensures j.g.DataFirst() <= ext[i].phys {
      BmapAt(ext, i, ext[i].logical);
      CutBlock(j, disk, w, ext, np, ext[i].logical);
    }
    forall l: nat | Bmap(ext, l) != 0 ensures IsData(disk, Bmap(ext, l)) { CutBlock(j, disk, w, ext, np, l); }
    forall l: nat, m: nat | Bmap(ext, l) != 0 && Bmap(ext, l) == Bmap(ext, m)
      ensures l == m
    {
      CutInj(j, disk, w, ext, np, l, m);
    }
    CutTail(j, disk, w, ext, np);
  }

  lemma TruncateDone(j: Job, disk: Disk, w: seq<bool>, ext: seq<Extent>, np: nat)
    requires Truncated(j, disk, w, ext, np)
    ensures
      var n' := j.n.(ext := ext, size := j.off);
      var T' := SetNode(j.T, j.id, n', []);
      && TreeOk(j.g, j.crc, disk, j.mp, T', j.dirty + {j.id}) && UsedOk(j.g, w, j.mapPhys, T'.owner)
      && View(j.g, disk, T') == View(j.g, j.disk0, j.T)[j.id :=
           File(Resize(Content(j.disk0, j.n.ext, j.n.size), j.off), j.n.nlink, j.n.mode)]
  {
    hide TreeOk, Bmap, UsedOk, DataOk, View, SetNode, Content, Resize, DataSet, TailMoved, CutMap;
    var n' := j.n.(ext := ext, size := j.off);
    CutFile(j, disk, w, ext, np);
    CutContent(j, disk, w, ext, np);
    OldBlockFacts(j, 0);
    OldRecordFacts(j);
    assert BlocksOf(n', []) == DataSet(ext);
    assert BlocksOf(j.n, []) == DataSet(j.n.ext);
    CutFresh(j, disk, w, ext, np);
    NodeReplaced(j.g, j.crc, j.disk0, disk, j.mp, j.T, j.dirty, j.w0, w, j.mapPhys, j.id, n', []);
  }

  lemma CutFresh(j: Job, disk: Disk, w: seq<bool>, ext: seq<Extent>, np: nat)
    requires Truncated(j, disk, w, ext, np)
    ensures forall b :: b in DataSet(ext) ==>
      j.g.DataFirst() <= b < j.g.total && b !in Others(j.T, j.id) && b != j.mapPhys
    ensures Agree(j.disk0, disk, Others(j.T, j.id))
  {
    hide TreeOk, Bmap, UsedOk, DataOk, TailMoved, CutMap;
    forall b | b in DataSet(ext) ensures j.g.DataFirst() <= b < j.g.total && b !in Others(j.T, j.id) && b != j.mapPhys {
      var l: nat :| l < MAX_FILE_BLOCKS && Bmap(ext, l) != 0 && Bmap(ext, l) == b;
      CutBlock(j, disk, w, ext, np, l);
    }
  }

  // ---- the bitmap ------------------------------------------------------------------------------------------

  // Trimming freed the blocks past the kept part; a moved tail block swapped np for oldp.
  lemma CutBits(j: Job, w1: seq<bool>, w: seq<bool>, ext: seq<Extent>, np: nat, oldp: nat)
    requires WriteBase(j) && j.off < j.n.size && j.off <= MAX_FILE_SIZE
    requires forall l: nat :: Bmap(ext, l) == CutMap(j, np, l)
    requires |w1| == |j.w0| && forall b: nat :: b < |w1| ==>
      (w1[b] <==> j.w0[b] && !Cut(j.n.ext, |j.n.ext|, Nblocks(j.off), b))
    requires if np == 0 then w == w1
             else && np < |w1| && !j.w0[np] && oldp == Bmap(j.n.ext, j.off / BLOCK) != 0 && oldp < |w1|
                  && j.off % BLOCK != 0 && w == BitCleared(w1[np := true], oldp)
    ensures BitsMoved(j.w0, w, DataSet(j.n.ext), DataSet(ext))
  {
    hide TreeOk, Bmap, UsedOk, CutMap, Cut;
    forall b: nat | b < |j.w0| ensures w[b] <==> (j.w0[b] && b !in DataSet(j.n.ext)) || b in DataSet(ext) {
      CutBit(j, w1, w, ext, np, oldp, b);
    }
  }

  lemma CutBit(j: Job, w1: seq<bool>, w: seq<bool>, ext: seq<Extent>, np: nat, oldp: nat, b: nat)
    requires WriteBase(j) && j.off < j.n.size && j.off <= MAX_FILE_SIZE && b < |j.w0|
    requires forall l: nat :: Bmap(ext, l) == CutMap(j, np, l)
    requires |w1| == |j.w0| && (w1[b] <==> j.w0[b] && !Cut(j.n.ext, |j.n.ext|, Nblocks(j.off), b))
    requires if np == 0 then w == w1
             else && np < |w1| && !j.w0[np] && oldp == Bmap(j.n.ext, j.off / BLOCK) != 0 && oldp < |w1|
                  && j.off % BLOCK != 0 && w == BitCleared(w1[np := true], oldp)
    ensures |w| == |j.w0| && (w[b] <==> (j.w0[b] && b !in DataSet(j.n.ext)) || b in DataSet(ext))
  {
    hide TreeOk, Bmap, UsedOk, Cut, TailZero;
    var keep := Nblocks(j.off);
    OldBlockFacts(j, 0);
    OldBlockFacts(j, j.off / BLOCK);
    CutIsBmap(j.g, j.n.ext, j.n.size, keep, b);
    if b in DataSet(ext) {
      var l: nat :| l < MAX_FILE_BLOCKS && Bmap(ext, l) != 0 && Bmap(ext, l) == b;
      OldBlockFacts(j, l);
      assert l < keep;
      if b != np { assert Bmap(j.n.ext, l) == b; }
    } else {
      if np != 0 { assert Bmap(ext, j.off / BLOCK) == np; }
      if b in DataSet(j.n.ext) {
        var l: nat :| l < MAX_FILE_BLOCKS && Bmap(j.n.ext, l) != 0 && Bmap(j.n.ext, l) == b;
        OldBlockFacts(j, l);
        assert l >= keep || (np != 0 && l == j.off / BLOCK) by { assert Bmap(ext, l) == CutMap(j, np, l); }
      }
    }
  }

  // ---- gfs_truncate ----------------------------------------------------------------------------------------

  ghost predicate Cutting(fs: Gfs, j: Job)
    reads fs
  {
    && fs.Safe() && fs.writable && WriteBase(j) && j.off <= MAX_FILE_SIZE
    && j.g == fs.g && j.crc == fs.crc && j.w0 == fs.committed && j.mapPhys == fs.nodemap.phys && fs.disk == j.disk0
  }

  lemma RunnableFile(j: Job)
    requires WriteBase(j)
    ensures Runnable(j.n.ext) && forall i :: 0 <= i < |j.n.ext| ==> j.n.ext[i].phys + j.n.ext[i].len <= j.g.total
    ensures |j.n.ext| <= INLINE_EXTENTS && ExtOk(j.g, j.n.ext, j.n.size)
  {
    hide Bmap, TailZero, DataInj;
    OldBlockFacts(j, 0);
    forall i | 0 <= i < |j.n.ext| ensures j.n.ext[i].phys + j.n.ext[i].len <= j.g.total {
      var last := j.n.ext[i].logical + j.n.ext[i].len - 1;
      BmapAt(j.n.ext, i, last);
      OldBlockFacts(j, last);
    }
  }

  // Growing changes nothing but the size.
  lemma GrowIsTruncated(j: Job)
    requires WriteBase(j) && j.n.size < j.off <= MAX_FILE_SIZE
    ensures Truncated(j, j.disk0, j.w0, j.n.ext, 0)
  {
    hide Bmap, TreeOk;
    RunnableFile(j);
    OldBlockFacts(j, 0);
    forall b: nat | b < |j.w0| ensures j.w0[b] <==> (j.w0[b] && b !in DataSet(j.n.ext)) || b in DataSet(j.n.ext) {
      if b in DataSet(j.n.ext) {
        var l: nat :| l < MAX_FILE_BLOCKS && Bmap(j.n.ext, l) != 0 && Bmap(j.n.ext, l) == b;
        OldBlockFacts(j, l);
      }
    }
  }

  // The extents left by trimming, when the last block need not be rewritten.
  lemma TrimIsTruncated(j: Job, w: seq<bool>, ext: seq<Extent>)
    requires WriteBase(j) && j.off < j.n.size && j.off <= MAX_FILE_SIZE
    requires TrimState(j.n.ext, Nblocks(j.off), |j.n.ext|, ext)
    requires |w| == |j.w0| && forall b: nat :: b < |w| ==>
      (w[b] <==> j.w0[b] && !Cut(j.n.ext, |j.n.ext|, Nblocks(j.off), b))
    requires j.off % BLOCK == 0 || Bmap(ext, j.off / BLOCK) == 0
    ensures Truncated(j, j.disk0, w, ext, 0)
  {
    hide Bmap, TreeOk, Cut, UsedOk;
    RunnableFile(j);
    assert j.n.ext[..|j.n.ext|] == j.n.ext;
    CutBits(j, w, w, ext, 0, 0);
    OldBlockFacts(j, 0);
  }

  lemma MovedIsTruncated(j: Job, disk: Disk, w1: seq<bool>, w: seq<bool>, ext1: seq<Extent>, np: nat)
    requires WriteBase(j) && j.off < j.n.size && j.off <= MAX_FILE_SIZE && j.off % BLOCK != 0
    requires TrimState(j.n.ext, Nblocks(j.off), |j.n.ext|, ext1) && Bmap(ext1, j.off / BLOCK) != 0
    requires |w1| == |j.w0| && forall b: nat :: b < |w1| ==>
      (w1[b] <==> j.w0[b] && !Cut(j.n.ext, |j.n.ext|, Nblocks(j.off), b))
    requires j.g.DataFirst() <= np < j.g.total && np < |j.w0| && !j.w0[np] && j.g.total <= |j.disk0|
    requires IsData(j.disk0, Bmap(ext1, j.off / BLOCK))
    requires disk == j.disk0[np := DataB(ZeroTail(j.disk0[Bmap(ext1, j.off / BLOCK)].bytes, j.off % BLOCK))]
    requires Bmap(ext1, j.off / BLOCK) < |w1| && w == BitCleared(w1[np := true], Bmap(ext1, j.off / BLOCK))
    requires ext1 != [] && ext1[|ext1| - 1].len >= 1 && |Repointed(ext1, j.off / BLOCK, np)| <= INLINE_EXTENTS
    ensures Truncated(j, disk, w, Repointed(ext1, j.off / BLOCK, np), np)
  {
    hide Bmap, TreeOk, Cut, Repointed;
    var lbn := j.off / BLOCK;
    var ext := Repointed(ext1, lbn, np);
    assert j.n.ext[..|j.n.ext|] == j.n.ext && Nblocks(j.off) == lbn + 1;
    assert Bmap(ext1, lbn) == Bmap(j.n.ext, lbn);
    OldBlockFacts(j, lbn);
    LastHolds(ext1, lbn);
    RepointedShape(ext1, lbn, np);
    forall l: nat ensures Bmap(ext, l) == CutMap(j, np, l) { RepointedMap(ext1, lbn, np, l); }
    CutBits(j, w1, w, ext, np, Bmap(j.n.ext, lbn));
    forall b | b in j.T.owner.Keys && b < |j.disk0| ensures disk[b] == j.disk0[b] {
      OwnedInRange(j.g, j.crc, j.disk0, j.mp, j.T, j.dirty, b);
    }
  }

  // Rewrite the kept partial last block with its tail zeroed and repoint it.
  method MoveTail(fs: Gfs, ghost j: Job, ext1: seq<Extent>, size: nat, oldp: nat)
    returns (rc: Err, ext: seq<Extent>, np: nat)
    requires Cutting(fs, j) && size == j.off < j.n.size && size % BLOCK != 0
      && TrimState(j.n.ext, Nblocks(size), |j.n.ext|, ext1)
    requires oldp == Bmap(ext1, size / BLOCK) != 0 && |ext1| <= INLINE_EXTENTS
    requires |fs.working| == |j.w0| && forall b: nat :: b < |fs.working| ==>
      (fs.working[b] <==> j.w0[b] && !Cut(j.n.ext, |j.n.ext|, Nblocks(size), b))
    modifies fs`disk, fs`log, fs`faults, fs`working
    ensures fs.Steady(old(fs.faults)) && fs.Safe()
    ensures rc == OK ==> Truncated(j, fs.disk, fs.working, ext, np) && |fs.Avail()| >= old(|fs.Avail()|) - 1
    ensures rc != OK ==>
      (rc == EIO && fs.faults > old(fs.faults)) || (rc == ENOSPC && old(fs.Avail()) == {})
      || (rc == EFRAG && |ext1| == INLINE_EXTENTS)
    ensures rc == OK || rc == EFRAG ==>
      ext1 != [] && (rc == EFRAG <==> |ext1| == INLINE_EXTENTS && ext1[|ext1| - 1].len != 1)
  {
    hide Image, View, Replay, Traced, TreeOk, Bmap, UsedOk, DataOk, FreeSet, Cut, Truncated, ZeroTail;
    ImageFacts(fs.crc, fs.disk, fs.live);
    ghost var w1 := fs.working;
    assert j.n.ext[..|j.n.ext|] == j.n.ext;
    OldBlockFacts(j, size / BLOCK);
    LastHolds(ext1, size / BLOCK);
    ext, np := ext1, 0;
    var b;
    rc, b := fs.BRead(oldp);
    if rc != OK { return; }
    var bytes := ZeroTail(b.bytes, size % BLOCK);
    rc, np := fs.AllocBlock();
    if rc != OK { return; }
    FreeSetSwap(fs.g, fs.committed, w1, np, oldp);
    rc := fs.BWrite(np, DataB(bytes));
    if rc != OK { return; }
    fs.FreeBlock(oldp);
    if ext1[|ext1| - 1].len != 1 && |ext1| == INLINE_EXTENTS { return EFRAG, ext, np; }
    MovedIsTruncated(j, fs.disk, w1, fs.working, ext1, np);
    ext := Repointed(ext1, size / BLOCK, np);
  }

  // Shrink: drop or trim every extent past the new end, then see to the last block.
  method Shrink(fs: Gfs, ghost j: Job, n: DNode, size: nat) returns (rc: Err, ext: seq<Extent>, np: nat)
    requires Cutting(fs, j) && size == j.off < j.n.size && n == j.n && fs.working == fs.committed
    modifies fs`disk, fs`log, fs`faults, fs`working
    ensures fs.Steady(old(fs.faults)) && fs.Safe()
    ensures rc == OK ==> Truncated(j, fs.disk, fs.working, ext, np) && |fs.Avail()| >= old(|fs.Avail()|) - 1
    ensures rc != OK ==>
      || (rc == EIO && fs.faults > old(fs.faults)) || (rc == ENOSPC && old(fs.Avail()) == {})
      || (rc == EFRAG && |n.ext| == INLINE_EXTENTS && size % BLOCK != 0)
    ensures rc == OK || rc == EFRAG ==> (rc == EFRAG <==> TailSplits(n.ext, size))
  {
    hide Image, View, Replay, Traced, TreeOk, Bmap, UsedOk, DataOk, Cut, Truncated;
    ImageFacts(fs.crc, fs.disk, fs.live);
    RunnableFile(j);
    np, rc := 0, OK;
    ext := Trim(fs, n.ext, (size + BLOCK - 1) / BLOCK);
    Counting.SubsetCount(old(fs.Avail()), fs.Avail());
    if size % BLOCK != 0 { TailSplitsIff(n.ext, size, ext); }
    if size % BLOCK != 0 && Bmap(ext, size / BLOCK) != 0 {
      rc, ext, np := MoveTail(fs, j, ext, size, Bmap(ext, size / BLOCK));
    } else {
      TrimIsTruncated(j, fs.working, ext);
    }
  }

  method PutCut(fs: Gfs, ghost j: Job, n: DNode, size: nat, ext: seq<Extent>, ghost np: nat, id: nat) returns (rc: Err)
    requires fs.Safe() && fs.writable && Truncated(j, fs.disk, fs.working, ext, np) && n == j.n && size == j.off
      && id == j.id
    requires j.g == fs.g && j.crc == fs.crc && j.mapPhys == fs.nodemap.phys && fs.T == j.T && fs.mp == j.mp
      && fs.dirty == j.dirty == {}
    modifies fs`disk, fs`log, fs`faults, fs`working, fs`mp, fs`T, fs`dirty
    ensures fs.Steady(old(fs.faults)) && fs.Safe()
    ensures rc == OK ==>
      && fs.Work() && fs.dirty == {} && |fs.Avail()| >= old(|fs.Avail()|) - 1
      && CountFreeNodes(fs.T.nodes, fs.g.nodeCount) == old(CountFreeNodes(fs.T.nodes, fs.g.nodeCount))
      && fs.Now() == View(j.g, j.disk0,
        j.T)[j.id := File(Resize(Content(j.disk0, j.n.ext, j.n.size), j.off), j.n.nlink, j.n.mode)]
    ensures rc != OK ==> (rc == EIO && fs.faults > old(fs.faults)) || (rc == ENOSPC && old(fs.Avail()) == {})
  {
    hide Image, View, Replay, Traced, TreeOk, UsedOk, FreeSet, CountFreeNodes, Content, Resize, Reown, CutMap,
      TailMoved, Runnable, DataSet;
    ImageFacts(fs.crc, fs.disk, fs.live);
    OldRecordFacts(j);
    TruncateDone(j, fs.disk, fs.working, ext, np);
    var n' := n.(ext := ext, size := size);
    FreeNodesChange(fs.T.nodes, id, n', fs.g.nodeCount);
    fs.T := SetNode(fs.T, id, n', []);
    fs.dirty := fs.dirty + {id};
    rc := fs.NodeWrite(id, n');
  }

  method TruncateTxn(fs: Gfs, id: nat, size: nat) returns (rc: Err, noop: bool)
    requires fs.Work() && fs.dirty == {} && fs.working == fs.committed && size <= MAX_FILE_SIZE
    modifies fs`disk, fs`log, fs`faults, fs`working, fs`mp, fs`T, fs`dirty
    ensures fs.Steady(old(fs.faults)) && fs.Safe()
    ensures rc == OK && noop ==> TruncateTo(old(fs.Now()), id, size) == Ok(old(fs.Now()))
    ensures rc == OK && !noop ==>
      && fs.Work() && fs.dirty == {} && |fs.Avail()| >= old(|fs.Avail()|) - 2
      && CountFreeNodes(fs.T.nodes, fs.g.nodeCount) == old(CountFreeNodes(fs.T.nodes, fs.g.nodeCount))
      && TruncateTo(old(fs.Now()), id, size) == Ok(fs.Now())
    ensures rc != OK ==>
      || (rc == EFRAG && id < old(|fs.T.nodes|) && |old(fs.T.nodes)[id].ext| == INLINE_EXTENTS && size % BLOCK != 0)
      || Refused(rc, TruncateTo(old(fs.Now()), id, size), fs.faults > old(fs.faults), false, old(|fs.Avail()|) < 2)
    ensures rc == OK || rc == EFRAG ==>
      id < old(|fs.T.nodes|)
      && (rc == EFRAG <==> size < old(fs.T.nodes)[id].size && TailSplits(old(fs.T.nodes)[id].ext, size))
  {
    hide Image, View, Replay, Traced, TreeOk, UsedOk, FreeSet, CountFreeNodes, Content, Truncated, Bmap;
    ImageFacts(fs.crc, fs.disk, fs.live);
    TreeLengths(fs.g, fs.crc, fs.disk, fs.mp, fs.T, fs.dirty);
    noop := false;
    var n;
    rc, n := OpenFile(fs, id);
    if rc != OK { return; }
    FileFacts(fs, id, n);
    if size == n.size {
      ResizeSame(Content(fs.disk, n.ext, n.size));
      assert fs.Now()[id := fs.Now()[id]] == fs.Now();
      noop := true;
      return;
    }
    ghost var j := Job(fs.g, fs.crc, fs.disk, fs.mp, fs.T, fs.dirty, fs.working, fs.nodemap.phys, id, n, size, [], []);
    var ext, np := n.ext, 0;
    if size < n.size {
      rc, ext, np := Shrink(fs, j, n, size);
      if rc != OK { return; }
    } else {
      GrowIsTruncated(j);
    }
    rc := PutCut(fs, j, n, size, ext, np, id);
  }

  lemma ResizeSame(c: seq<byte>)
    ensures Resize(c, |c|) == c
  {}

  method TruncateFile(fs: Gfs, id: nat, size: nat) returns (rc: Err)
    requires fs.Valid()
    modifies fs
    ensures fs.Valid() && fs.disk == Replay(old(fs.disk), fs.log) && fs.Steady(old(fs.faults))
    ensures Atomic(fs.crc, old(fs.disk), fs.log, old(fs.live), fs.live)
    ensures rc == OK ==> TruncateTo(old(fs.Stored()), id, size) == Ok(fs.Stored())
    ensures rc != OK ==>
      && fs.live == old(fs.live) && fs.Stored() == old(fs.Stored())
      && (|| (rc == EFRAG && id < |old(fs.live).T.nodes| && |old(fs.live).T.nodes[id].ext| == INLINE_EXTENTS
        && size % BLOCK != 0)
          || Refused(rc, TruncateTo(old(fs.Stored()), id, size), fs.faults > old(fs.faults), !fs.writable,
            old(fs.freeBlocks) < 3))
    ensures rc == OK || rc == EFRAG ==> (rc == EFRAG <==> CutSplits(old(fs.live), id, size))
  {
    hide Image, View, Replay, Traced, TreeOk, UsedOk, FreeSet, CountFreeNodes, Published, Atomic, TruncateTo,
      TailSplits;
    ImageFacts(fs.crc, fs.disk, fs.live);
    ImageCounts(fs.crc, fs.disk, fs.live);
    StartCall(fs);
    CallUndone(fs);
    if size > MAX_FILE_SIZE {
      TooBig(fs.Stored(), id, size);
      return EFBIG;
    }
    rc := fs.TxnBegin();
    var noop := false;
    if rc == OK {
      rc, noop := TruncateTxn(fs, id, size);
      if rc == OK && noop { CallUndone(fs); return; }
    }
    if rc == OK {
      rc := fs.TxnCommit(0);
    }
    if rc != OK { CallUndone(fs); } else { CallDone(fs.crc, fs.base, fs.log, old(fs.live), fs.live); }
  }

  lemma TooBig(fs: Fs, id: nat, size: nat)
    requires size > MAX_FILE_SIZE
    ensures TruncateTo(fs, id, size) == Fail(EFBIG)
  {}
}
