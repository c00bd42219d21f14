// Extents: what bmap computes, and which blocks a file owns.
module GfsExtents {
  import opened GfsTypes
  import opened GfsDisk
  import opened GfsCore

  predicate Holds(e: Extent, l: nat) { e.logical <= l < e.logical + e.len }

  ghost predicate Sorted(ext: seq<Extent>) {
    forall i, j :: 0 <= i < j < |ext| ==> ext[i].logical + ext[i].len <= ext[j].logical
  }

  // In sorted, disjoint extents bmap finds the one extent that holds the block.
  lemma {:induction false} BmapAt(ext: seq<Extent>, k: nat, l: nat)
    requires Sorted(ext) && k < |ext| && Holds(ext[k], l)
    ensures Bmap(ext, l) == ext[k].phys + (l - ext[k].logical)
  {
    if k > 0 {
      assert !Holds(ext[0], l);
      assert ext[1..][k - 1] == ext[k];
      BmapAt(ext[1..], k - 1, l);
    }
  }

  lemma {:induction false} BmapFrom(ext: seq<Extent>, l: nat) returns (k: nat)
    requires Bmap(ext, l) != 0
    ensures k < |ext| && Holds(ext[k], l) && Bmap(ext, l) == ext[k].phys + (l - ext[k].logical)
  {
    if Holds(ext[0], l) {
      k := 0;
    } else {
      var m := BmapFrom(ext[1..], l);
      k := m + 1;
    }
  }

  lemma {:induction false} BmapHole(ext: seq<Extent>, l: nat)
    requires forall k :: 0 <= k < |ext| ==> !Holds(ext[k], l)
    ensures Bmap(ext, l) == 0
  {
    if ext != [] { BmapHole(ext[1..], l); }
  }

  predicate InRun(e: Extent, b: nat) { e.phys <= b < e.phys + e.len }

  // Some of the first n extents lists block b.
  ghost predicate Listed(ext: seq<Extent>, n: nat, b: nat) {
    exists k: nat :: k < n && k < |ext| && InRun(ext[k], b)
  }

  // The file's blocks are exactly the blocks its extents list.
  lemma ExtBlocks(g: Geo, ext: seq<Extent>, size: nat, b: nat)
    requires ExtOk(g, ext, size)
    ensures b in DataSet(ext) <==> Listed(ext, |ext|, b)
  {
    if b in DataSet(ext) {
      var l: nat :| l < MAX_FILE_BLOCKS && Bmap(ext, l) != 0 && Bmap(ext, l) == b;
      var k := BmapFrom(ext, l);
      assert InRun(ext[k], b);
    }
    if Listed(ext, |ext|, b) {
      var k: nat :| k < |ext| && InRun(ext[k], b);
      var l := ext[k].logical + (b - ext[k].phys);
      BmapAt(ext, k, l);
      assert l < Nblocks(size) <= MAX_FILE_BLOCKS;
    }
  }

  // Give back blocks [lo, hi).
  method FreeRun(fs: Gfs, lo: nat, hi: nat)
    requires 0 < lo <= hi <= |fs.working|
    modifies fs`working
    ensures |fs.working| == old(|fs.working|)
    ensures forall b :: 0 <= b < |fs.working| ==> (fs.working[b] <==> old(fs.working)[b] && !(lo <= b < hi))
  {
    var j := lo;
    while j < hi
      invariant lo <= j <= hi && |fs.working| == old(|fs.working|)
      invariant forall b :: 0 <= b < |fs.working| ==> (fs.working[b] <==> old(fs.working)[b] && !(lo <= b < j))
    {
      fs.FreeBlock(j);
      j := j + 1;
    }
  }

  // Give back every block the extents list.
  method FreeExtents(fs: Gfs, ext: seq<Extent>)
    requires forall k :: 0 <= k < |ext| ==> 0 < ext[k].phys && ext[k].phys + ext[k].len <= |fs.working|
    modifies fs`working
    ensures |fs.working| == old(|fs.working|)
    ensures forall b: nat :: b < |fs.working| ==> (fs.working[b] <==> old(fs.working)[b] && !Listed(ext, |ext|, b))
  {
    var k := 0;
    while k < |ext|
      invariant 0 <= k <= |ext| && |fs.working| == old(|fs.working|)
      invariant forall b: nat :: b < |fs.working| ==> (fs.working[b] <==> old(fs.working)[b] && !Listed(ext, k, b))
    {
      FreeRun(fs, ext[k].phys, ext[k].phys + ext[k].len);
      forall b: nat ensures Listed(ext, k + 1, b) <==> Listed(ext, k, b) || InRun(ext[k], b) {
        if Listed(ext, k + 1, b) {
          var i: nat :| i < k + 1 && i < |ext| && InRun(ext[i], b);
          assert i < k || i == k;
        }
      }
      k := k + 1;
    }
  }
}
