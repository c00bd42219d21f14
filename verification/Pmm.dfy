// The physical frame pool: a bitmap with an exact free count, next-fit allocation that skips full
// bytes, and aligned runs.
module Pmm {
  const BITS: nat := 8   // frames per bitmap byte

  function CountFree(used: seq<bool>): nat {
    if used == [] then 0 else CountFree(used[..|used| - 1]) + (if used[|used| - 1] then 0 else 1)
  }

  lemma {:induction false} CountFlip(used: seq<bool>, f: nat)
    requires f < |used| && !used[f]
    ensures CountFree(used) == CountFree(used[f := true]) + 1
  {
    var n := |used| - 1;
    if f < n {
      CountFlip(used[..n], f);
      assert used[f := true][..n] == used[..n][f := true];
    } else {
      assert used[f := true][..n] == used[..n];
    }
  }

  lemma {:induction false} NoneFree(used: seq<bool>)
    ensures CountFree(used) == 0 <==> forall f :: 0 <= f < |used| ==> used[f]
  {
    if used != [] { NoneFree(used[..|used| - 1]); }
  }

  // The s-th frame of a search that starts at h and wraps once.
  function Circ(n: nat, h: nat, s: nat): nat
    requires h < n
  {
    if h + s < n then h + s else h + s - n
  }

  lemma CircIsMod(n: nat, h: nat, s: nat)
    requires h < n && s < n
    ensures Circ(n, h, s) == (h + s) % n
  {
    if h + s >= n {
      assert h + s == n + (h + s - n);
      ModOnce(n, h + s - n);
    }
  }

  lemma ModOnce(n: nat, r: nat)
    requires r < n
    ensures (n + r) % n == r
  {}

  // Every frame is met exactly once by a search that goes all the way round.
  lemma CircOnto(n: nat, h: nat, f: nat) returns (s: nat)
    requires h < n && f < n
    ensures s < n && Circ(n, h, s) == f
  {
    s := if h <= f then f - h else n - h + f;
  }

  predicate PowerOfTwo(a: nat) {
    a == 1 || (a > 1 && a % 2 == 0 && PowerOfTwo(a / 2))
  }

  // A run of count free frames at base.
  ghost predicate RunFree(used: seq<bool>, base: nat, count: nat) {
    base + count <= |used| && forall f :: base <= f < base + count ==> !used[f]
  }

  class Pool {
    var used: seq<bool>        // bitmap
    var freeFrames: nat
    var hint: nat

    ghost predicate Valid()
      reads this
    {
      freeFrames == CountFree(used) && (hint < |used| || hint == 0)
    }

    constructor (n: nat)
      ensures Valid() && |used| == n && freeFrames == 0 && forall f :: 0 <= f < n ==> used[f]
    {
      used, freeFrames, hint := seq(n, i => true), 0, 0;
      new;
      NoneFree(used);
    }

    method MarkUsed(first: nat, count: nat)
      requires Valid()
      modifies this`used, this`freeFrames
      ensures Valid() && |used| == |old(used)|
      ensures forall f :: 0 <= f < |used| ==> (used[f] <==> old(used)[f] || first <= f < first + count)
    {
      var f := first;
      while f < first + count && f < |used|
        invariant Valid() && |used| == |old(used)| && first <= f
        invariant f <= first + count
        invariant forall g :: 0 <= g < |used| ==> (used[g] <==> old(used)[g] || first <= g < f)
      {
        if !used[f] {
          CountFlip(used, f);
          used, freeFrames := used[f := true], freeFrames - 1;
        }
        f := f + 1;
      }
    }

    method MarkFree(first: nat, count: nat)
      requires Valid()
      modifies this`used, this`freeFrames
      ensures Valid() && |used| == |old(used)|
      ensures forall f :: 0 <= f < |used| ==> (used[f] <==> old(used)[f] && !(first <= f < first + count))
    {
      var f := first;
      while f < first + count && f < |used|
        invariant Valid() && |used| == |old(used)| && first <= f
        invariant f <= first + count
        invariant forall g :: 0 <= g < |used| ==> (used[g] <==> old(used)[g] && !(first <= g < f))
      {
        if used[f] {
          CountFlip(used[f := false], f);
          assert used[f := false][f := true] == used;
          used, freeFrames := used[f := false], freeFrames + 1;
        }
        f := f + 1;
      }
    }

    // The scan of pmm_core_alloc: the first free frame at or after the hint, wrapping once and
    // stepping over bitmap bytes that are 0xFF.
    method Scan() returns (r: int)
      requires hint < |used|
      ensures r == -1 ==> forall f :: 0 <= f < |used| ==> used[f]
      ensures r != -1 ==> r >= 0 && exists s: nat :: NextFit(used, hint, s, r)
    {
      hide Circ;
      var n := |used|;
      var scanned: nat := 0;
      while scanned < n
        invariant forall s: nat :: s < scanned && s < n ==> used[CircAt(used, hint, s)]
      {
        CircIsMod(n, hint, scanned);
        var f := (hint + scanned) % n;
        if f % BITS == 0 && f + BITS <= n && ByteFull(used, f) {
          SkipByte(used, hint, scanned, f);
          scanned := scanned + BITS;
        } else {
          if !used[f] {
            assert NextFit(used, hint, scanned, f);
            return f;
          }
          scanned := scanned + 1;
        }
      }
      AllUsed(used, hint, scanned);
      r := -1;
    }

    // Next-fit allocation; -1 exactly when no frame is free.
    method Alloc() returns (r: int)
      requires Valid()
      modifies this
      ensures Valid() && |used| == |old(used)|
      ensures r == -1 <==> forall f :: 0 <= f < |old(used)| ==> old(used)[f]
      ensures r == -1 ==> used == old(used) && freeFrames == old(freeFrames)
      ensures r != -1 ==> r >= 0 && exists s: nat :: NextFit(old(used), old(hint), s, r)
      ensures r != -1 ==>
        r < |used| && !old(used)[r] && used == old(used)[r := true] && freeFrames == old(freeFrames) - 1
    {
      NoneFree(used);
      if freeFrames == 0 { return -1; }
      r := Scan();
      if r != -1 {
        CountFlip(used, r);
        used, freeFrames := used[r := true], freeFrames - 1;
        hint := (r + 1) % |used|;
      }
    }

    // First fit on aligned bases; -1 exactly when the request is malformed or no run is free.
    method AllocRun(count: nat, align: nat) returns (r: int)
      requires Valid()
      modifies this
      ensures Valid() && |used| == |old(used)|
      ensures r == -1 ==> used == old(used)
      ensures r == -1 <==> count == 0 || !PowerOfTwo(align) || forall b: nat :: Aligned(b, align) ==>
        !RunFree(old(used), b, count)
      ensures r != -1 ==> r >= 0 && Aligned(r, align) && RunFree(old(used), r, count)
      ensures r != -1 ==> forall f :: 0 <= f < |used| ==> (used[f] <==> old(used)[f] || r <= f < r + count)
      ensures r != -1 ==> forall b: nat :: b < r && Aligned(b, align) ==> !RunFree(old(used), b, count)
    {
      if count == 0 || align == 0 || !PowerOfTwo(align) { return -1; }
      if count > freeFrames {
        forall b: nat ensures !RunFree(used, b, count) { RunCounts(used, b, count); }
        return -1;
      }
      var base := 0;
      while base + count <= |used|
        invariant Valid() && used == old(used) && Aligned(base, align)
        invariant forall b: nat :: b < base && Aligned(b, align) ==> !RunFree(used, b, count)
        decreases |used| - base
      {
        var run := 0;
        while run < count && !used[base + run]
          invariant run <= count && forall f :: base <= f < base + run ==> !used[f]
        {
          run := run + 1;
        }
        if run == count {
          assert RunFree(used, base, count);
          MarkUsed(base, count);
          return base;
        }
        assert !RunFree(used, base, count);
        forall b: nat | b < base + align && Aligned(b, align) ensures b <= base { NoneBetween(base, b, align); }
        base := base + align;
      }
      r := -1;
    }

    method Free(frame: nat) returns (ok: bool)
      requires Valid()
      modifies this`used, this`freeFrames
      ensures Valid() && |used| == |old(used)|
      ensures ok <==> frame < |used| && old(used)[frame]
      ensures used == if ok then old(used)[frame := false] else old(used)
    {
      if frame >= |used| || !used[frame] { return false; }
      CountFlip(used[frame := false], frame);
      assert used[frame := false][frame := true] == used;
      used, freeFrames := used[frame := false], freeFrames + 1;
      ok := true;
    }
  }

  function CircAt(used: seq<bool>, h: nat, s: nat): nat
    requires h < |used| && s < |used|
    ensures CircAt(used, h, s) < |used|
  {
    Circ(|used|, h, s)
  }

  predicate ByteFull(used: seq<bool>, f: nat) {
    f + BITS <= |used| && forall g :: f <= g < f + BITS ==> used[g]
  }

  lemma SkipByte(used: seq<bool>, h: nat, scanned: nat, f: nat)
    requires h < |used| && scanned < |used| && f == CircAt(used, h, scanned) && ByteFull(used, f)
    ensures forall s: nat :: scanned <= s < scanned + BITS && s < |used| ==> used[CircAt(used, h, s)]
  {
    forall s: nat | scanned <= s < scanned + BITS && s < |used| ensures used[CircAt(used, h, s)] {
      assert CircAt(used, h, s) == f + (s - scanned);
    }
  }

  // Frame r is the first free one in the search order.
  ghost predicate NextFit(used: seq<bool>, h: nat, s: nat, r: nat) {
    && h < |used| && s < |used| && r == CircAt(used, h, s) && !used[r]
    && forall t: nat :: t < s ==> used[CircAt(used, h, t)]
  }

  lemma AllUsed(used: seq<bool>, h: nat, scanned: nat)
    requires h < |used| <= scanned && forall s: nat :: s < scanned && s < |used| ==> used[CircAt(used, h, s)]
    ensures forall f :: 0 <= f < |used| ==> used[f]
  {
    forall f | 0 <= f < |used| ensures used[f] {
      var s := CircOnto(|used|, h, f);
      assert used[CircAt(used, h, s)];
    }
  }

  // A free run is counted in the free frames.
  lemma {:induction false} RunCounts(used: seq<bool>, base: nat, count: nat)
    ensures RunFree(used, base, count) ==> CountFree(used) >= count
    decreases |used|
  {
    if RunFree(used, base, count) && count > 0 {
      var n := |used| - 1;
      if base + count <= n {
        RunCounts(used[..n], base, count);
        assert RunFree(used[..n], base, count);
      } else {
        RunCounts(used[..n], base, count - 1);
        assert RunFree(used[..n], base, count - 1);
      }
    }
  }

  // b is a multiple of align.
  predicate Aligned(b: nat, align: nat)
    decreases b
  {
    b == 0 || (0 < align <= b && Aligned(b - align, align))
  }

  lemma {:induction false} AlignedIsMultiple(b: nat, align: nat) returns (k: nat)
    requires Aligned(b, align)
    ensures b == k * align
    decreases b
  {
    if b == 0 {
      k := 0;
    } else {
      k := AlignedIsMultiple(b - align, align);
      k := k + 1;
    }
  }

  lemma {:induction false} MultipleIsAligned(k: nat, align: nat)
    requires align > 0
    ensures k * align >= 0 && Aligned(k * align, align)
  {
    if k > 0 {
      MultipleIsAligned(k - 1, align);
      assert k * align == (k - 1) * align + align;
    }
  }

  function TwoTo(k: nat): nat { if k == 0 then 1 else 2 * TwoTo(k - 1) }

  lemma {:induction false} PowerOfTwoIs(a: nat, k: nat)
    ensures PowerOfTwo(TwoTo(k)) && (PowerOfTwo(a) ==> exists j: nat :: a == TwoTo(j))
    decreases a + k
  {
    if k > 0 { PowerOfTwoIs(0, k - 1); }
    if PowerOfTwo(a) {
      if a == 1 {
        assert a == TwoTo(0);
      } else {
        PowerOfTwoIs(a / 2, 0);
        var j: nat :| a / 2 == TwoTo(j);
        assert a == TwoTo(j + 1);
      }
    }
  }

  lemma {:induction false} NoneBetween(base: nat, b: nat, align: nat)
    requires Aligned(base, align) && Aligned(b, align) && b < base + align
    ensures b <= base
    decreases b
  {
    if b > 0 && base > 0 { NoneBetween(base - align, b - align, align); }
  }
}
