// The physical map of a file: extents to map and back.
module GfsPmap {
  import opened GfsTypes
  import opened GfsDisk
  import opened GfsExtents

  // ---- extents -> map ----------------------------------------------------------------------------

  lemma BmapSnoc(ext: seq<Extent>, k: nat, l: nat)
    requires Sorted(ext) && k < |ext| && forall i :: 0 <= i < |ext| ==> ext[i].phys > 0
    ensures Bmap(ext[..k + 1], l) == if Holds(ext[k], l) then ext[k].phys + (l - ext[k].logical) else Bmap(ext[..k], l)
  {
    var a, b := ext[..k + 1], ext[..k];
    if Holds(ext[k], l) {
      BmapAt(a, k, l);
    } else if Bmap(b, l) != 0 {
      var i := BmapFrom(b, l);
      assert a[i] == b[i];
      BmapAt(a, i, l);
    } else {
      forall i | 0 <= i < |a| ensures !Holds(a[i], l) {
        if i < k && Holds(b[i], l) { BmapAt(b, i, l); }
      }
      BmapHole(a, l);
    }
  }

  // Fill in one extent.
  method PutRun(pm: seq<nat>, e: Extent) returns (out: seq<nat>)
    requires |pm| == MAX_FILE_BLOCKS
    ensures |out| == MAX_FILE_BLOCKS
    ensures forall l :: 0 <= l < MAX_FILE_BLOCKS ==> out[l] == if Holds(e, l) then e.phys + (l - e.logical) else pm[l]
  {
    out := pm;
    var j := 0;
    while j < e.len
      invariant 0 <= j <= e.len && |out| == MAX_FILE_BLOCKS
      invariant forall l :: 0 <= l < MAX_FILE_BLOCKS ==>
        out[l] == if e.logical <= l < e.logical + j then e.phys + (l - e.logical) else pm[l]
    {
      var lbn := e.logical + j;
      if lbn < MAX_FILE_BLOCKS { out := out[lbn := e.phys + j]; }
      j := j + 1;
    }
  }

  // The physical map of every logical block.
  method BuildPmap(ext: seq<Extent>) returns (pm: seq<nat>)
    requires Sorted(ext) && forall i :: 0 <= i < |ext| ==> ext[i].phys > 0
    ensures |pm| == MAX_FILE_BLOCKS && forall l :: 0 <= l < MAX_FILE_BLOCKS ==> pm[l] == Bmap(ext, l)
  {
    hide Bmap, Sorted;
    pm := seq(MAX_FILE_BLOCKS, i => 0);
    forall l: nat ensures Bmap(ext[..0], l) == 0 { BmapHole(ext[..0], l); }
    var k := 0;
    while k < |ext|
      invariant 0 <= k <= |ext| && |pm| == MAX_FILE_BLOCKS
      invariant forall l :: 0 <= l < MAX_FILE_BLOCKS ==> pm[l] == Bmap(ext[..k], l)
    {
      forall l: nat ensures Bmap(ext[..k + 1], l) == if Holds(ext[k], l) then ext[k].phys + (l - ext[k].logical)
        else Bmap(ext[..k], l) {
        BmapSnoc(ext, k, l);
      }
      pm := PutRun(pm, ext[k]);
      k := k + 1;
    }
    assert ext[..k] == ext;
  }

  // ---- map -> extents -------------------------------------------------------------------------------

  // The extents describe exactly the first n entries of the map.
  ghost predicate Represents(ext: seq<Extent>, pm: seq<nat>, n: nat) {
    && n <= |pm|
    && Sorted(ext)
    && (forall i :: 0 <= i < |ext| ==> 1 <= ext[i].len && ext[i].logical + ext[i].len <= n && ext[i].phys > 0)
    && (forall l: nat :: Bmap(ext, l) == if l < n then pm[l] else 0)
  }

  // A block continues the run of the block before it.
  predicate Continues(pm: seq<nat>, l: nat)
    requires l < |pm|
  {
    l > 0 && pm[l - 1] != 0 && pm[l] == pm[l - 1] + 1
  }

  // Number of maximal runs among the first n entries.
  function Runs(pm: seq<nat>, n: nat): nat
    requires n <= |pm|
  {
    if n == 0 then 0 else Runs(pm, n - 1) + (if pm[n - 1] != 0 && !Continues(pm, n - 1) then 1 else 0)
  }

  lemma NotHeld(ext: seq<Extent>, l: nat, k: nat)
    requires Sorted(ext) && k < |ext| && ext[k].phys > 0 && Bmap(ext, l) == 0
    ensures !Holds(ext[k], l)
  {
    if Holds(ext[k], l) { BmapAt(ext, k, l); }
  }

  lemma AddHole(ext: seq<Extent>, pm: seq<nat>, n: nat)
    requires Represents(ext, pm, n) && n < |pm| && pm[n] == 0
    ensures Represents(ext, pm, n + 1)
  {
    hide Bmap;
    assert Bmap(ext, n) == 0;
  }

  lemma AddRun(ext: seq<Extent>, pm: seq<nat>, n: nat)
    requires Represents(ext, pm, n) && n < |pm| && pm[n] != 0
    ensures Represents(ext + [Extent(n, pm[n], 1)], pm, n + 1)
  {
    hide Bmap;
    var ext' := ext + [Extent(n, pm[n], 1)];
    forall l: nat ensures Bmap(ext', l) == if l < n + 1 then pm[l] else 0 {
      if l == n {
        BmapAt(ext', |ext|, l);
      } else if Bmap(ext, l) != 0 {
        var k := BmapFrom(ext, l);
        assert ext'[k] == ext[k];
        BmapAt(ext', k, l);
      } else {
        forall k | 0 <= k < |ext'| ensures !Holds(ext'[k], l) {
          if k < |ext| { NotHeld(ext, l, k); }
        }
        BmapHole(ext', l);
      }
    }
  }

  lemma GrowRun(ext: seq<Extent>, pm: seq<nat>, n: nat)
    requires Represents(ext, pm, n) && n < |pm| && pm[n] != 0 && ext != []
    requires ext[|ext| - 1].logical + ext[|ext| - 1].len == n && ext[|ext| - 1].phys + ext[|ext| - 1].len == pm[n]
    ensures Represents(ext[|ext| - 1 := ext[|ext| - 1].(len := ext[|ext| - 1].len + 1)], pm, n + 1)
  {
    hide Bmap;
    var z := |ext| - 1;
    var ext' := ext[z := ext[z].(len := ext[z].len + 1)];
    forall l: nat ensures Bmap(ext', l) == if l < n + 1 then pm[l] else 0 {
      if l == n {
        BmapAt(ext', z, l);
      } else if Bmap(ext, l) != 0 {
        var k := BmapFrom(ext, l);
        BmapAt(ext', k, l);
      } else {
        forall k | 0 <= k < |ext'| ensures !Holds(ext'[k], l) { NotHeld(ext, l, k); }
        BmapHole(ext', l);
      }
    }
  }

  // The run of the last extent reaches block n exactly when block n - 1 is mapped.
  lemma LastRun(ext: seq<Extent>, pm: seq<nat>, n: nat)
    requires Represents(ext, pm, n) && n < |pm|
    ensures Continues(pm, n) <==>
      ext != [] && ext[|ext| - 1].logical + ext[|ext| - 1].len == n && ext[|ext| - 1].phys + ext[|ext| - 1].len == pm[n]
  {
    hide Bmap;
    if ext != [] && ext[|ext| - 1].logical + ext[|ext| - 1].len == n {
      assert Holds(ext[|ext| - 1], n - 1);
      BmapAt(ext, |ext| - 1, n - 1);
      assert Bmap(ext, n - 1) == pm[n - 1];
    }
    if n > 0 && pm[n - 1] != 0 {
      assert Bmap(ext, n - 1) == pm[n - 1];
      var k := BmapFrom(ext, n - 1);
    }
  }

  // Coalesce the map back into inline extents; EFRAG when that takes more than eight runs.
  method Coalesce(pm: seq<nat>, n: nat) returns (rc: Err, ext: seq<Extent>)
    requires n <= |pm|
    ensures rc == OK ==> Represents(ext, pm, n) && |ext| == Runs(pm, n) && |ext| <= INLINE_EXTENTS
    ensures rc != OK ==> rc == EFRAG && Runs(pm, n) > INLINE_EXTENTS
  {
    hide Bmap;
    ext := [];
    forall l: nat ensures Bmap(ext, l) == 0 { BmapHole(ext, l); }
    var lbn := 0;
    while lbn < n
      invariant 0 <= lbn <= n && Represents(ext, pm, lbn) && |ext| == Runs(pm, lbn) && |ext| <= INLINE_EXTENTS
    {
      LastRun(ext, pm, lbn);
      if pm[lbn] == 0 {
        AddHole(ext, pm, lbn);
      } else if |ext| > 0 && ext[|ext| - 1].logical + ext[|ext| - 1].len == lbn
        && ext[|ext| - 1].phys + ext[|ext| - 1].len == pm[lbn] {
        GrowRun(ext, pm, lbn);
        ext := ext[|ext| - 1 := ext[|ext| - 1].(len := ext[|ext| - 1].len + 1)];
      } else if |ext| == INLINE_EXTENTS {
        RunsGrow(pm, lbn + 1, n);
        return EFRAG, ext;
      } else {
        AddRun(ext, pm, lbn);
        ext := ext + [Extent(lbn, pm[lbn], 1)];
      }
      lbn := lbn + 1;
    }
    rc := OK;
  }

  lemma {:induction false} RunsGrow(pm: seq<nat>, m: nat, n: nat)
    requires m <= n <= |pm|
    ensures Runs(pm, m) <= Runs(pm, n)
    decreases n
  {
    if m < n { RunsGrow(pm, m, n - 1); }
  }

  // ---- how many runs a write can make ------------------------------------------------------------------

  function StartsBelow(ext: seq<Extent>, n: nat): (c: nat)
    ensures c <= |ext|
  {
    if ext == [] then 0 else StartsBelow(ext[..|ext| - 1], n) + (if ext[|ext| - 1].logical < n then 1 else 0)
  }

  lemma {:induction false} StartsGrow(ext: seq<Extent>, n: nat)
    ensures StartsBelow(ext, n) <= StartsBelow(ext, n + 1)
    ensures forall i :: 0 <= i < |ext| && ext[i].logical == n ==> StartsBelow(ext, n) < StartsBelow(ext, n + 1)
  {
    if ext != [] { StartsGrow(ext[..|ext| - 1], n); }
  }

  // A run starts where an extent does, so there are no more runs than extents.
  lemma {:induction false} RunsAreExtents(ext: seq<Extent>, pm: seq<nat>, n: nat)
    requires Sorted(ext) && (forall i :: 0 <= i < |ext| ==> 1 <= ext[i].len && ext[i].phys > 0)
    requires n <= |pm| && forall l: nat :: l < |pm| ==> pm[l] == Bmap(ext, l)
    ensures Runs(pm, n) <= StartsBelow(ext, n)
  {
    hide Bmap;
    if n > 0 {
      RunsAreExtents(ext, pm, n - 1);
      StartsGrow(ext, n - 1);
      if pm[n - 1] != 0 {
        var k := BmapFrom(ext, n - 1);
        if ext[k].logical < n - 1 { BmapAt(ext, k, n - 2); }
      }
    }
  }

  function AtMost(a: int, b: int): int { if a < b then a else b }

  // Changing entries [a, b) adds at most one run for each of them and one for the entry behind them.
  lemma {:induction false} RunsChanged(pm: seq<nat>, pm': seq<nat>, a: nat, b: nat, n: nat)
    requires a <= b && |pm'| == |pm| && n <= |pm| && forall l :: 0 <= l < |pm| && !(a <= l < b) ==> pm'[l] == pm[l]
    ensures Runs(pm', n) <= Runs(pm, n) + (if n <= a then 0 else AtMost(n, b + 1) - a)
  {
    if n > 0 { RunsChanged(pm, pm', a, b, n - 1); }
  }
}
