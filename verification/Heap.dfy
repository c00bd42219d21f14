// The slab heap: free lists inside slabs, partial lists of slabs, and large spans.
module Heap {
  import opened Counting

  const PG: nat := 4096
  const HDR: nat := 64            // HDR_SIZE
  const CLASSES: nat := 7
  const MAX_SMALL: nat := 1024
  const TWO64: nat := 0x1_0000_0000_0000_0000

  datatype Hdr =
    | Slab(cls: nat, inuse: nat, freeList: nat, next: nat, prev: nat)
    | Large(npages: nat)

  // class_size
  function SizeOf(cls: nat): (n: nat)
    ensures 16 <= n <= MAX_SMALL && n % 16 == 0
  {
    match cls
    case 0 => 16 case 1 => 32 case 2 => 64 case 3 => 128 case 4 => 256 case 5 => 512 case _ => 1024
  }

  // The classes double from 16 to 1024 bytes.
  lemma ClassSizes(cls: nat)
    requires cls < CLASSES - 1
    ensures SizeOf(0) == 16 && SizeOf(CLASSES - 1) == MAX_SMALL && SizeOf(cls + 1) == 2 * SizeOf(cls)
  {}

  // objects_per_slab
  function Count(cls: nat): (n: nat)
    ensures n >= 3 && HDR + n * SizeOf(cls) <= PG
  {
    (PG - HDR) / SizeOf(cls)
  }

  // cls is the first class that holds size bytes.
  predicate Serves(cls: nat, size: nat) { size <= SizeOf(cls) && forall c: nat :: c < cls ==> SizeOf(c) < size }

  // class_for: the smallest class that holds size bytes.
  method ClassFor(size: nat) returns (cls: nat)
    requires 0 < size <= MAX_SMALL
    ensures cls < CLASSES && Serves(cls, size) && size <= SizeOf(cls) && (cls > 0 ==> SizeOf(cls) < 2 * size)
  {
    cls := 0;
    while cls < CLASSES - 1 && size > SizeOf(cls)
      invariant cls < CLASSES && forall c: nat :: c < cls ==> SizeOf(c) < size
    {
      cls := cls + 1;
    }
    if cls > 0 { ClassSizes(cls - 1); }
  }

  // The header is found by masking the pointer.
  function Base(p: nat): nat { p - p % PG }

  function Slot(s: nat, cls: nat, i: nat): nat { s + HDR + i * SizeOf(cls) }

  // p is the address of an object of the slab at s.
  predicate IsSlot(s: nat, cls: nat, p: nat) {
    p >= s + HDR && (p - s - HDR) % SizeOf(cls) == 0 && (p - s - HDR) / SizeOf(cls) < Count(cls)
  }

  function IndexOf(s: nat, cls: nat, p: nat): nat
    requires p >= s + HDR
  {
    (p - s - HDR) / SizeOf(cls)
  }

  // Objects lie behind the header, inside the page, aligned, and apart.
  lemma SlotFacts(s: nat, cls: nat, p: nat)
    requires s % PG == 0 && IsSlot(s, cls, p)
    ensures Base(p) == s && p % 16 == 0 && s + HDR <= p && p + SizeOf(cls) <= s + PG
      && p == Slot(s, cls, IndexOf(s, cls, p))
  {
    var n, off := SizeOf(cls), p - s - HDR;
    SlotMath(n, off);
    PageMath(s, HDR + off);
  }

  lemma SlotMath(n: nat, off: nat)
    requires n == 16 || n == 32 || n == 64 || n == 128 || n == 256 || n == 512 || n == 1024
    requires off % n == 0 && off / n < (PG - HDR) / n
    ensures off / n * n == off && off + n <= PG - HDR && off % 16 == 0
  {
    if n == 16 {} else if n == 32 {} else if n == 64 {} else if n == 128 {} else if n == 256 {} else if n == 512 {}
  }

  lemma PageMath(s: nat, off: nat)
    requires s % 4096 == 0 && off < 4096 && off % 16 == 0
    ensures (s + off) % 4096 == off && (s + off) % 16 == 0
  {
    var k := s / 4096;
    assert s + off == 4096 * k + off == 16 * (256 * k + off / 16);
  }

  lemma MulLe(n: nat, a: nat, b: nat)
    requires a <= b
    ensures n * a <= n * b
  {}

  lemma SlotsApart(s: nat, cls: nat, p: nat, q: nat)
    requires s % PG == 0 && IsSlot(s, cls, p) && IsSlot(s, cls, q) && p < q
    ensures p + SizeOf(cls) <= q
  {
    var n, i, j := SizeOf(cls), IndexOf(s, cls, p), IndexOf(s, cls, q);
    SlotFacts(s, cls, p);
    SlotFacts(s, cls, q);
    if j <= i { MulLe(n, j, i); } else { MulLe(n, i + 1, j); }
  }

  lemma SlotIs(s: nat, cls: nat, i: nat)
    requires s % PG == 0 && i < Count(cls)
    ensures IsSlot(s, cls, Slot(s, cls, i)) && IndexOf(s, cls, Slot(s, cls, i)) == i
  {
    var n := SizeOf(cls);
    assert i * n % n == 0 && i * n / n == i by {
      if n == 16 {} else if n == 32 {} else if n == 64 {} else if n == 128 {} else if n == 256 {} else if n == 512 {}
    }
  }

  // ---- free lists -----------------------------------------------------------------------------------------------

  function At(q: seq<nat>, i: nat): nat { if i < |q| then q[i] else 0 }

  ghost predicate FreeLink(link: map<nat, nat>, q: seq<nat>, i: nat)
    requires i < |q|
  {
    q[i] in link && link[q[i]] == At(q, i + 1) && q[i] != 0
  }

  // head starts a list through the objects that holds exactly q.
  ghost predicate FreeList(link: map<nat, nat>, head: nat, q: seq<nat>) {
    && head == At(q, 0) && Distinct(q)
    && forall i: nat {:trigger FreeLink(link, q, i)} :: i < |q| ==> FreeLink(link, q, i)
  }

  lemma FreeListFrame(link: map<nat, nat>, link': map<nat, nat>, head: nat, q: seq<nat>)
    requires FreeList(link, head, q) && forall p :: p in q && p in link ==> p in link' && link'[p] == link[p]
    ensures FreeList(link', head, q)
  {
    forall i: nat | i < |q| ensures FreeLink(link', q, i) { assert FreeLink(link, q, i); }
  }

  lemma FreeListPush(link: map<nat, nat>, head: nat, q: seq<nat>, p: nat)
    requires FreeList(link, head, q) && p !in q && p != 0
    ensures FreeList(link[p := head], p, [p] + q)
  {
    var link', q' := link[p := head], [p] + q;
    forall i: nat | i < |q'| ensures FreeLink(link', q', i) {
      if i > 0 { assert FreeLink(link, q, i - 1); }
    }
  }

  lemma FreeListPop(link: map<nat, nat>, head: nat, q: seq<nat>)
    requires FreeList(link, head, q) && q != []
    ensures head == q[0] && head in link && head != 0 && FreeList(link, link[head], q[1..])
      && (link[head] == 0 <==> |q| == 1) && head !in q[1..]
  {
    assert FreeLink(link, q, 0);
    if |q| > 1 { assert FreeLink(link, q, 1); }
    var r := q[1..];
    forall i: nat | i < |r| ensures FreeLink(link, r, i) { assert FreeLink(link, q, i + 1); }
  }

  // ---- partial lists --------------------------------------------------------------------------------------------

  ghost predicate PartLink(hdr: map<nat, Hdr>, q: seq<nat>, i: nat)
    requires i < |q|
  {
    && q[i] in hdr && hdr[q[i]].Slab? && q[i] != 0
    && hdr[q[i]].next == At(q, i + 1) && hdr[q[i]].prev == if i == 0 then 0 else q[i - 1]
  }

  // head starts a doubly linked list of slabs that holds exactly q.
  ghost predicate PartList(hdr: map<nat, Hdr>, head: nat, q: seq<nat>) {
    && head == At(q, 0) && Distinct(q)
    && forall i: nat {:trigger PartLink(hdr, q, i)} :: i < |q| ==> PartLink(hdr, q, i)
  }

  // Changes to slabs off the list, or to other fields, do not show.
  ghost predicate SameLinks(hdr: map<nat, Hdr>, hdr': map<nat, Hdr>, s: nat) {
    s in hdr && hdr[s].Slab? ==>
      s in hdr' && hdr'[s].Slab? && hdr'[s].next == hdr[s].next && hdr'[s].prev == hdr[s].prev
  }

  lemma PartListFrame(hdr: map<nat, Hdr>, hdr': map<nat, Hdr>, head: nat, q: seq<nat>)
    requires PartList(hdr, head, q) && forall s :: s in q ==> SameLinks(hdr, hdr', s)
    ensures PartList(hdr', head, q)
  {
    forall i: nat | i < |q| ensures PartLink(hdr', q, i) {
      assert PartLink(hdr, q, i);
      assert SameLinks(hdr, hdr', q[i]);
    }
  }

  // partial_insert
  function Inserted(hdr: map<nat, Hdr>, head: nat, s: nat): map<nat, Hdr>
    requires s in hdr && hdr[s].Slab? && (head != 0 ==> head in hdr && hdr[head].Slab? && head != s)
  {
    var h1 := hdr[s := hdr[s].(prev := 0, next := head)];
    if head == 0 then h1 else h1[head := h1[head].(prev := s)]
  }

  lemma PartInsert(hdr: map<nat, Hdr>, head: nat, q: seq<nat>, s: nat)
    requires PartList(hdr, head, q) && s in hdr && hdr[s].Slab? && s !in q && s != 0
    ensures head != 0 ==> head in hdr && hdr[head].Slab? && head != s && head in q
    ensures PartList(Inserted(hdr, head, s), s, [s] + q)
  {
    if q != [] { assert PartLink(hdr, q, 0); }
    var hdr', q' := Inserted(hdr, head, s), [s] + q;
    forall i: nat | i < |q'| ensures PartLink(hdr', q', i) {
      if i > 0 { assert PartLink(hdr, q, i - 1); }
    }
  }

  // partial_remove
  function Removed(hdr: map<nat, Hdr>, s: nat): map<nat, Hdr>
    requires s in hdr && hdr[s].Slab?
    requires hdr[s].prev != 0 ==> hdr[s].prev in hdr && hdr[hdr[s].prev].Slab? && hdr[s].prev != s
    requires hdr[s].next != 0 ==>
      hdr[s].next in hdr && hdr[hdr[s].next].Slab? && hdr[s].next != s && hdr[s].next != hdr[s].prev
  {
    var p, n := hdr[s].prev, hdr[s].next;
    var h1 := if p != 0 then hdr[p := hdr[p].(next := n)] else hdr;
    var h2 := if n != 0 then h1[n := h1[n].(prev := p)] else h1;
    h2[s := h2[s].(next := 0, prev := 0)]
  }

  function Without(q: seq<nat>, k: nat): seq<nat>
    requires k < |q|
  {
    q[..k] + q[k + 1..]
  }

  lemma PartRemove(hdr: map<nat, Hdr>, head: nat, q: seq<nat>, k: nat)
    requires PartList(hdr, head, q) && k < |q|
    ensures var s := q[k];
      && s in hdr && hdr[s].Slab?
      && (hdr[s].prev != 0 ==> hdr[s].prev in hdr && hdr[hdr[s].prev].Slab? && hdr[s].prev != s && hdr[s].prev in q)
      && (hdr[s].next != 0 ==>
        hdr[s].next in hdr && hdr[hdr[s].next].Slab? && hdr[s].next != s && hdr[s].next != hdr[s].prev
        && hdr[s].next in q)
      && PartList(Removed(hdr, s), if hdr[s].prev != 0 then head else hdr[s].next, Without(q, k))
  {
    var s := q[k];
    assert PartLink(hdr, q, k);
    if k > 0 { assert PartLink(hdr, q, k - 1); }
    if k + 1 < |q| { assert PartLink(hdr, q, k + 1); }
    var hdr', q' := Removed(hdr, s), Without(q, k);
    forall i: nat | i < |q'| ensures PartLink(hdr', q', i) {
      if i < k { assert PartLink(hdr, q, i); } else { assert PartLink(hdr, q, i + 1); }
    }
  }

  // ---- the whole heap -------------------------------------------------------------------------------------------

  function PagesOf(h: Hdr): nat { if h.Large? then h.npages else 1 }

  // A slab's free list holds slots of that slab, and the rest is in use; a slab that is not young
  // has an object in use.
  ghost predicate SpanOk(hdr: map<nat, Hdr>, link: map<nat, nat>, free: map<nat, seq<nat>>, young: set<nat>, s: nat)
    requires s in hdr
  {
    && s != 0 && s % PG == 0
    && match hdr[s]
       case Large(n) => n > 0
       case Slab(cls, inuse, fl, _, _) =>
         && cls < CLASSES && s in free && FreeList(link, fl, free[s])
           && (forall p :: p in free[s] ==> IsSlot(s, cls, p))
         && inuse + |free[s]| == Count(cls) && (s !in young ==> inuse > 0)
  }

  // The partial list of a class holds exactly its slabs with a free slot.
  ghost predicate PartOk(hdr: map<nat, Hdr>, free: map<nat, seq<nat>>, head: nat, q: seq<nat>, c: nat) {
    PartList(hdr, head, q) && forall s :: s in q <==>
      s in hdr && hdr[s].Slab? && hdr[s].cls == c && s in free && free[s] != []
  }

  // p is the address of a live allocation.
  ghost predicate LivePtr(hdr: map<nat, Hdr>, free: map<nat, seq<nat>>, p: nat) {
    && Base(p) in hdr
    && match hdr[Base(p)]
       case Slab(cls, _, _, _, _) => IsSlot(Base(p), cls, p) && Base(p) in free && p !in free[Base(p)]
       case Large(_) => p == Base(p) + HDR
  }

  // size + HDR + PG - 1 does not fit 64 bits.
  predicate Wraps(size: nat) { size + HDR + PG - 1 >= TWO64 }

  // The allocation at p has room for size bytes.
  ghost predicate Fits(hdr: map<nat, Hdr>, p: nat, size: nat) {
    && Base(p) in hdr
    && match hdr[Base(p)]
       case Slab(cls, _, _, _, _) => 0 < size <= SizeOf(cls)
       case Large(n) => Wraps(size) || size + HDR <= n * PG
  }

  ghost predicate LiveOk(hdr: map<nat, Hdr>, free: map<nat, seq<nat>>, live: map<nat, nat>) {
    && (forall p: nat {:trigger LivePtr(hdr, free, p)} :: p in live <==> LivePtr(hdr, free, p))
    && (forall p {:trigger Fits(hdr, p, live[p])} :: p in live ==> Fits(hdr, p, live[p]))
  }

  // Every page held belongs to one span.
  ghost predicate PagesOk(hdr: map<nat, Hdr>, owner: map<nat, nat>) {
    && (forall s :: s in hdr ==> PagesOf(hdr[s]) > 0)
    && (forall s, g: nat {:trigger InSpan(s, hdr[s], g)} :: s in hdr && InSpan(s, hdr[s], g) ==>
      g in owner && owner[g] == s)
    && (forall g :: g in owner ==> owner[g] in hdr && InSpan(owner[g], hdr[owner[g]], g))
  }

  predicate InSpan(s: nat, h: Hdr, g: nat) { s / PG <= g < s / PG + PagesOf(h) }

  ghost function Small(hdr: map<nat, Hdr>, live: map<nat, nat>): set<nat> {
    set p | p in live && Base(p) in hdr && hdr[Base(p)].Slab?
  }

  ghost predicate SpansOk(hdr: map<nat, Hdr>, link: map<nat, nat>, free: map<nat, seq<nat>>, young: set<nat>) {
    forall s {:trigger SpanOk(hdr, link, free, young, s)} :: s in hdr ==> SpanOk(hdr, link, free, young, s)
  }

  ghost predicate PartsOk(hdr: map<nat, Hdr>, free: map<nat, seq<nat>>, partial: seq<nat>, part: seq<seq<nat>>) {
    && |partial| == CLASSES && |part| == CLASSES
    && forall c: nat {:trigger PartOk(hdr, free, partial[c], part[c], c)} :: c < CLASSES ==>
      PartOk(hdr, free, partial[c], part[c], c)
  }

  // ---- taking an object -----------------------------------------------------------------------------------------

  // The first free object of slab s goes out.
  function Popped(hdr: map<nat, Hdr>, link: map<nat, nat>, s: nat): map<nat, Hdr>
    requires s in hdr && hdr[s].Slab? && hdr[s].freeList in link
  {
    hdr[s := hdr[s].(freeList := link[hdr[s].freeList], inuse := hdr[s].inuse + 1)]
  }

  lemma PopSpans(hdr: map<nat, Hdr>, link: map<nat, nat>, free: map<nat, seq<nat>>, young: set<nat>, s: nat)
    requires SpansOk(hdr, link, free, young) && s in hdr && hdr[s].Slab? && s in free && free[s] != []
    ensures hdr[s].freeList == free[s][0] && hdr[s].freeList in link && hdr[s].freeList != 0
      && (link[hdr[s].freeList] == 0 <==> |free[s]| == 1)
    ensures SpansOk(Popped(hdr, link, s), link, free[s := free[s][1..]], young - {s})
    ensures IsSlot(s, hdr[s].cls, free[s][0]) && s % PG == 0 && s != 0 && hdr[s].cls < CLASSES
      && free[s][0] !in free[s][1..]
  {
    assert SpanOk(hdr, link, free, young, s);
    FreeListPop(link, hdr[s].freeList, free[s]);
    assert free[s][0] in free[s];
    var hdr', free', young' := Popped(hdr, link, s), free[s := free[s][1..]], young - {s};
    forall t | t in hdr' ensures SpanOk(hdr', link, free', young', t) { assert SpanOk(hdr, link, free, young, t); }
  }

  lemma PopLive(hdr: map<nat, Hdr>, link: map<nat, nat>, free: map<nat, seq<nat>>, live: map<nat, nat>, s: nat,
                size: nat)
    requires LiveOk(hdr, free, live) && s in hdr && hdr[s].Slab? && s in free && free[s] != []
      && hdr[s].freeList == free[s][0] && hdr[s].freeList in link
    requires s % PG == 0 && IsSlot(s, hdr[s].cls, free[s][0]) && 0 < size <= SizeOf(hdr[s].cls)
      && free[s][0] !in free[s][1..]
    ensures free[s][0] !in live && Base(free[s][0]) == s
    ensures LiveOk(Popped(hdr, link, s), free[s := free[s][1..]], live[free[s][0] := size])
  {
    hide IsSlot, Base;
    var p := free[s][0];
    SlotFacts(s, hdr[s].cls, p);
    assert !LivePtr(hdr, free, p);
    var hdr', free', live' := Popped(hdr, link, s), free[s := free[s][1..]], live[p := size];
    assert free[s] == [p] + free[s][1..];
    forall q: nat ensures q in live' <==> LivePtr(hdr', free', q) { assert q in live <==> LivePtr(hdr, free, q); }
    forall q | q in live' ensures Fits(hdr', q, live'[q]) { if q != p { assert Fits(hdr, q, live[q]); } }
  }

  // ---- relinking -----------------------------------------------------------------------------------------------

  // Only partial-list links may differ.
  ghost predicate SameBody(hdr: map<nat, Hdr>, hdr': map<nat, Hdr>) {
    && hdr'.Keys == hdr.Keys
    && forall s :: s in hdr ==>
      if hdr[s].Slab? then hdr'[s].Slab? && hdr'[s].(next := hdr[s].next, prev := hdr[s].prev) == hdr[s]
      else hdr'[s] == hdr[s]
  }

  lemma BodyKept(hdr: map<nat, Hdr>, hdr': map<nat, Hdr>, link: map<nat, nat>, free: map<nat, seq<nat>>,
                 young: set<nat>, live: map<nat, nat>, owner: map<nat, nat>)
    requires SameBody(hdr, hdr')
    ensures SpansOk(hdr, link, free, young) ==> SpansOk(hdr', link, free, young)
    ensures LiveOk(hdr, free, live) ==> LiveOk(hdr', free, live)
    ensures PagesOk(hdr, owner) ==> PagesOk(hdr', owner)
    ensures Small(hdr', live) == Small(hdr, live)
  {
    hide FreeList, IsSlot, Base;
    if SpansOk(hdr, link, free, young) {
      forall s | s in hdr' ensures SpanOk(hdr', link, free, young, s) { assert SpanOk(hdr, link, free, young, s); }
    }
    if LiveOk(hdr, free, live) {
      forall p: nat ensures p in live <==> LivePtr(hdr', free, p) { assert p in live <==> LivePtr(hdr, free, p); }
      forall p | p in live ensures Fits(hdr', p, live[p]) { assert Fits(hdr, p, live[p]); }
    }
    if PagesOk(hdr, owner) {
      forall s, g: nat | s in hdr' && InSpan(s, hdr'[s], g)
        ensures g in owner && owner[g] == s
      {
        assert InSpan(s, hdr[s], g);
      }
      forall g | g in owner
        ensures owner[g] in hdr' && InSpan(owner[g], hdr'[owner[g]], g)
      {
        assert InSpan(owner[g], hdr[owner[g]], g);
      }
    }
  }

  // A partial list is kept when its members' links are, and the same slabs belong on it.
  lemma PartKept(hdr: map<nat, Hdr>, hdr': map<nat, Hdr>, free: map<nat, seq<nat>>, free': map<nat, seq<nat>>,
                 head: nat, q: seq<nat>, c: nat)
    requires PartOk(hdr, free, head, q, c) && forall s :: s in q ==> SameLinks(hdr, hdr', s)
    requires forall s: nat :: (s in hdr' && hdr'[s].Slab? && hdr'[s].cls == c && s in free' && free'[s] != []) <==>
      (s in hdr && hdr[s].Slab? && hdr[s].cls == c && s in free && free[s] != [])
    ensures PartOk(hdr', free', head, q, c)
  {
    hide PartList;
    PartListFrame(hdr, hdr', head, q);
  }

  // Slabs of different classes are on different lists.
  lemma OtherClass(hdr: map<nat, Hdr>, free: map<nat, seq<nat>>, partial: seq<nat>, part: seq<seq<nat>>, c: nat, d: nat,
                   s: nat)
    requires PartsOk(hdr, free, partial, part) && c < CLASSES && d < CLASSES && c != d && s in part[c]
    ensures s !in part[d]
  {
    assert PartOk(hdr, free, partial[c], part[c], c) && PartOk(hdr, free, partial[d], part[d], d);
  }

  lemma InsertBody(hdr: map<nat, Hdr>, head: nat, s: nat)
    requires s in hdr && hdr[s].Slab? && (head != 0 ==> head in hdr && hdr[head].Slab? && head != s)
    ensures SameBody(hdr, Inserted(hdr, head, s)) && forall t :: t in hdr && t != s && t != head ==>
      Inserted(hdr, head, s)[t] == hdr[t]
  {}

  lemma RemoveBody(hdr: map<nat, Hdr>, s: nat)
    requires s in hdr && hdr[s].Slab?
    requires hdr[s].prev != 0 ==> hdr[s].prev in hdr && hdr[hdr[s].prev].Slab? && hdr[s].prev != s
    requires hdr[s].next != 0 ==>
      hdr[s].next in hdr && hdr[hdr[s].next].Slab? && hdr[s].next != s && hdr[s].next != hdr[s].prev
    ensures SameBody(hdr, Removed(hdr, s)) && forall t :: t in hdr && t != s && t != hdr[s].prev && t != hdr[s].next ==>
      Removed(hdr, s)[t] == hdr[t]
  {}

  // Slab s, with a free slot but not on its list yet, is put on it.
  lemma InsertParts(hdr: map<nat, Hdr>, free0: map<nat, seq<nat>>, free: map<nat, seq<nat>>, partial: seq<nat>,
                    part: seq<seq<nat>>, s: nat)
    requires PartsOk(hdr, free0, partial, part) && s in hdr && hdr[s].Slab? && hdr[s].cls < CLASSES && s != 0
    requires (s !in free0 || free0[s] == []) && s in free && free[s] != [] && forall t :: t != s ==>
      (t in free <==> t in free0) && (t in free ==> free[t] == free0[t])
    ensures var c := hdr[s].cls; var head := partial[c];
      && (head != 0 ==> head in hdr && hdr[head].Slab? && head != s)
      && PartsOk(Inserted(hdr, head, s), free, partial[c := s], part[c := [s] + part[c]])
  {
    hide PartList;
    var c := hdr[s].cls;
    var head := partial[c];
    assert PartOk(hdr, free0, partial[c], part[c], c);
    PartInsert(hdr, head, part[c], s);
    InsertBody(hdr, head, s);
    var hdr', partial', part' := Inserted(hdr, head, s), partial[c := s], part[c := [s] + part[c]];
    forall d: nat | d < CLASSES ensures PartOk(hdr', free, partial'[d], part'[d], d) {
      assert PartOk(hdr, free0, partial[d], part[d], d);
      if d != c {
        if head != 0 { OtherClass(hdr, free0, partial, part, c, d, head); }
        PartKept(hdr, hdr', free0, free, partial[d], part[d], d);
      }
    }
  }

  // Slab s, which is on its list but has no free slot or is going away, is taken off it.
  lemma RemoveParts(hdr: map<nat, Hdr>, free0: map<nat, seq<nat>>, free: map<nat, seq<nat>>, partial: seq<nat>,
                    part: seq<seq<nat>>, s: nat, k: nat)
    requires PartsOk(hdr, free0, partial, part) && s in hdr && hdr[s].Slab? && hdr[s].cls < CLASSES
    requires k < |part[hdr[s].cls]| && part[hdr[s].cls][k] == s
    requires (s !in free || free[s] == []) && forall t :: t != s ==>
      (t in free <==> t in free0) && (t in free ==> free[t] == free0[t])
    ensures var c := hdr[s].cls;
      && (hdr[s].prev != 0 ==> hdr[s].prev in hdr && hdr[hdr[s].prev].Slab? && hdr[s].prev != s)
      && (hdr[s].next != 0 ==>
        hdr[s].next in hdr && hdr[hdr[s].next].Slab? && hdr[s].next != s && hdr[s].next != hdr[s].prev)
      && PartsOk(Removed(hdr, s), free, partial[c := if hdr[s].prev != 0 then partial[c] else hdr[s].next],
        part[c := Without(part[c], k)])
  {
    hide PartList;
    var c := hdr[s].cls;
    assert PartOk(hdr, free0, partial[c], part[c], c);
    PartRemove(hdr, partial[c], part[c], k);
    RemoveBody(hdr, s);
    var hdr' := Removed(hdr, s);
    var partial', part' := partial[c := if hdr[s].prev != 0 then partial[c] else hdr[s].next],
      part[c := Without(part[c], k)];
    WithoutMember(hdr, partial[c], part[c], k);
    forall d: nat | d < CLASSES ensures PartOk(hdr', free, partial'[d], part'[d], d) {
      assert PartOk(hdr, free0, partial[d], part[d], d);
      if d != c {
        if hdr[s].prev != 0 { OtherClass(hdr, free0, partial, part, c, d, hdr[s].prev); }
        if hdr[s].next != 0 { OtherClass(hdr, free0, partial, part, c, d, hdr[s].next); }
        OtherClass(hdr, free0, partial, part, c, d, s);
        PartKept(hdr, hdr', free0, free, partial[d], part[d], d);
      }
    }
  }

  lemma WithoutMember(hdr: map<nat, Hdr>, head: nat, q: seq<nat>, k: nat)
    requires PartList(hdr, head, q) && k < |q|
    ensures forall x :: x in Without(q, k) <==> x in q && x != q[k]
  {
    assert q == q[..k] + [q[k]] + q[k + 1..];
  }

  // ---- pages ----------------------------------------------------------------------------------------------------

  // Pages g .. g + n - 1 given to span s.
  ghost function Claimed(owner: map<nat, nat>, g: nat, n: nat, s: nat): map<nat, nat> {
    if n == 0 then owner else Claimed(owner, g, n - 1, s)[g + n - 1 := s]
  }

  lemma {:induction false} ClaimedAt(owner: map<nat, nat>, g: nat, n: nat, s: nat, k: nat)
    ensures k in Claimed(owner, g, n, s) <==> k in owner || g <= k < g + n
    ensures k in Claimed(owner, g, n, s) ==> Claimed(owner, g, n, s)[k] == if g <= k < g + n then s else owner[k]
  {
    if n > 0 { ClaimedAt(owner, g, n - 1, s, k); }
  }

  lemma {:induction false} ClaimedSize(owner: map<nat, nat>, g: nat, n: nat, s: nat)
    requires forall k :: g <= k < g + n ==> k !in owner
    ensures |Claimed(owner, g, n, s)| == |owner| + n
  {
    if n > 0 {
      ClaimedSize(owner, g, n - 1, s);
      ClaimedAt(owner, g, n - 1, s, g + n - 1);
      MapAddSize(Claimed(owner, g, n - 1, s), g + n - 1, s);
    }
  }

  lemma MapAddSize(o: map<nat, nat>, k: nat, v: nat)
    requires k !in o
    ensures |o[k := v]| == |o| + 1
  {
    assert o[k := v].Keys == o.Keys + {k};
    assert |o[k := v]| == |o[k := v].Keys| && |o| == |o.Keys|;
  }

  lemma ClaimedFacts(owner: map<nat, nat>, g: nat, n: nat, s: nat)
    requires forall k :: g <= k < g + n ==> k !in owner
    ensures |Claimed(owner, g, n, s)| == |owner| + n
    ensures forall k: nat :: k in Claimed(owner, g, n, s) <==> k in owner || g <= k < g + n
    ensures forall k: nat :: k in Claimed(owner, g, n, s) ==> Claimed(owner, g, n, s)[k] == if g <= k < g + n then s
      else owner[k]
  {
    hide Claimed;
    ClaimedSize(owner, g, n, s);
    forall k: nat
      ensures k in Claimed(owner, g, n, s) <==> k in owner || g <= k < g + n
      ensures k in Claimed(owner, g, n, s) ==> Claimed(owner, g, n, s)[k] == if g <= k < g + n then s else owner[k]
    {
      ClaimedAt(owner, g, n, s, k);
    }
  }

  ghost function Released(owner: map<nat, nat>, s: nat): map<nat, nat> {
    map g | g in owner && owner[g] != s :: owner[g]
  }

  // The pages of a span are counted once.
  lemma ReleasedCount(hdr: map<nat, Hdr>, owner: map<nat, nat>, s: nat)
    requires PagesOk(hdr, owner) && s in hdr
    ensures |owner| == |Released(owner, s)| + PagesOf(hdr[s])
  {
    hide Claimed;
    var r, n := Released(owner, s), PagesOf(hdr[s]);
    forall k | s / PG <= k < s / PG + n ensures k !in r { assert InSpan(s, hdr[s], k); }
    ClaimedFacts(r, s / PG, n, s);
    var c := Claimed(r, s / PG, n, s);
    forall k: nat ensures k in c <==> k in owner { if InSpan(s, hdr[s], k) {} }
    assert c.Keys == owner.Keys;
    assert |c| == |c.Keys| && |owner| == |owner.Keys|;
  }

  // What the page backend may hand out: nothing, or n pages that are not held.
  ghost predicate Granted(owner: map<nat, nat>, s: nat, n: nat) {
    s != 0 ==> n > 0 && s % PG == 0 && forall g :: s / PG <= g < s / PG + n ==> g !in owner
  }

  lemma NewPages(hdr: map<nat, Hdr>, owner: map<nat, nat>, s: nat, h: Hdr)
    requires PagesOk(hdr, owner) && s != 0 && Granted(owner, s, PagesOf(h))
    ensures s !in hdr && PagesOk(hdr[s := h], Claimed(owner, s / PG, PagesOf(h), s))
      && |Claimed(owner, s / PG, PagesOf(h), s)| == |owner| + PagesOf(h)
  {
    hide Claimed, PagesOf, InSpan;
    var lo, n := s / PG, PagesOf(h);
    ClaimedFacts(owner, lo, n, s);
    assert s in hdr ==> InSpan(s, hdr[s], lo) by { if s in hdr { SpanIs(s, hdr[s]); } }
    SpanIs(s, h);
    var hdr', owner' := hdr[s := h], Claimed(owner, lo, n, s);
    forall t, g: nat | t in hdr' && InSpan(t, hdr'[t], g) ensures g in owner' && owner'[g] == t {
      if t != s { assert InSpan(t, hdr[t], g); }
    }
    forall g | g in owner' ensures owner'[g] in hdr' && InSpan(owner'[g], hdr'[owner'[g]], g) {
      if g in owner { assert owner[g] != s; }
    }
  }

  lemma SpanIs(s: nat, h: Hdr)
    ensures forall g: nat {:trigger InSpan(s, h, g)} :: InSpan(s, h, g) <==> s / PG <= g < s / PG + PagesOf(h)
  {}

  lemma DropPages(hdr: map<nat, Hdr>, owner: map<nat, nat>, s: nat)
    requires PagesOk(hdr, owner) && s in hdr
    ensures PagesOk(hdr - {s}, Released(owner, s)) && |owner| == |Released(owner, s)| + PagesOf(hdr[s])
  {
    ReleasedCount(hdr, owner, s);
    var hdr', owner' := hdr - {s}, Released(owner, s);
    forall t, g: nat | t in hdr' && InSpan(t, hdr'[t], g)
      ensures g in owner' && owner'[g] == t
    {
      assert InSpan(t, hdr[t], g);
    }
    forall g | g in owner'
      ensures owner'[g] in hdr' && InSpan(owner'[g], hdr'[owner'[g]], g)
    {
      assert InSpan(owner[g], hdr[owner[g]], g);
    }
  }

  // ---- counting slots ------------------------------------------------------------------------------------------

  ghost function Indices(s: nat, cls: nat, q: seq<nat>): (r: seq<nat>)
    requires forall i :: 0 <= i < |q| ==> q[i] >= s + HDR
    ensures |r| == |q| && forall i :: 0 <= i < |q| ==> q[i] >= s + HDR && r[i] == IndexOf(s, cls, q[i])
  {
    if q == [] then [] else Indices(s, cls, q[..|q| - 1]) + [IndexOf(s, cls, q[|q| - 1])]
  }

  lemma SlotCount(s: nat, cls: nat, q: seq<nat>)
    requires s % PG == 0 && Distinct(q) && forall p :: p in q ==> IsSlot(s, cls, p)
    ensures |q| <= Count(cls)
  {
    hide Count, SizeOf;
    assert forall i :: 0 <= i < |q| ==> IsSlot(s, cls, q[i]);
    var r := Indices(s, cls, q);
    forall i, j | 0 <= i < j < |r| ensures r[i] != r[j] { SlotFacts(s, cls, q[i]); SlotFacts(s, cls, q[j]); }
    DistinctCount(r);
    forall x | x in r ensures x < Count(cls) { var i :| 0 <= i < |r| && r[i] == x; assert q[i] in q; }
    Bounded(SetOf(r), Count(cls));
  }

  // With fewer free objects than slots, some slot is in use.
  lemma UsedSlot(s: nat, cls: nat, q: seq<nat>) returns (p: nat)
    requires s % PG == 0 && |q| < Count(cls) && forall p :: p in q ==> IsSlot(s, cls, p)
    ensures IsSlot(s, cls, p) && p !in q
  {
    hide Count, SizeOf, Slot;
    assert forall i :: 0 <= i < |q| ==> IsSlot(s, cls, q[i]);
    var r := Indices(s, cls, q);
    if forall i: nat :: i < Count(cls) ==> i in r { CoverSize(r, Count(cls)); }
    var i: nat :| i < Count(cls) && i !in r;
    SlotIs(s, cls, i);
    p := Slot(s, cls, i);
    forall j | 0 <= j < |q| ensures q[j] != p { assert r[j] in r; }
  }

  // ---- partial lists when only the body changes ------------------------------------------------------------------

  predicate Open(hdr: map<nat, Hdr>, free: map<nat, seq<nat>>, s: nat) {
    s in hdr && hdr[s].Slab? && s in free && free[s] != []
  }

  lemma PartsSame(hdr: map<nat, Hdr>, hdr': map<nat, Hdr>, free: map<nat, seq<nat>>, free': map<nat, seq<nat>>,
                  partial: seq<nat>, part: seq<seq<nat>>)
    requires PartsOk(hdr, free, partial, part)
    requires forall s: nat {:trigger Open(hdr, free, s)} {:trigger Open(hdr', free', s)} :: Open(hdr', free', s) <==>
      Open(hdr, free, s)
    requires forall s: nat {:trigger Open(hdr, free, s)} :: Open(hdr, free, s) ==>
      SameLinks(hdr, hdr', s) && s in hdr' && hdr'[s].Slab? && hdr'[s].cls == hdr[s].cls
    ensures PartsOk(hdr', free', partial, part)
  {
    hide PartList;
    forall c: nat | c < CLASSES ensures PartOk(hdr', free', partial[c], part[c], c) {
      assert PartOk(hdr, free, partial[c], part[c], c);
      var q := part[c];
      forall s | s in q ensures SameLinks(hdr, hdr', s) { assert Open(hdr, free, s); }
      PartListFrame(hdr, hdr', partial[c], q);
      forall s: nat ensures s in q <==> s in hdr' && hdr'[s].Slab? && hdr'[s].cls == c && s in free' && free'[s] != [] {
        assert Open(hdr, free, s) <==> Open(hdr', free', s);
      }
    }
  }

  lemma OpenIsListed(hdr: map<nat, Hdr>, free: map<nat, seq<nat>>, partial: seq<nat>, part: seq<seq<nat>>, c: nat,
                     s: nat)
    requires PartsOk(hdr, free, partial, part) && c < CLASSES
    ensures s in part[c] <==> Open(hdr, free, s) && hdr[s].cls == c
    ensures partial[c] == At(part[c], 0) && (partial[c] == 0 <==> part[c] == [])
  {
    assert PartOk(hdr, free, partial[c], part[c], c);
    if part[c] != [] { assert PartLink(hdr, part[c], 0); }
  }

  lemma PopParts(hdr: map<nat, Hdr>, link: map<nat, nat>, free: map<nat, seq<nat>>, partial: seq<nat>,
                 part: seq<seq<nat>>, s: nat)
    requires PartsOk(hdr, free, partial, part) && s in hdr && hdr[s].Slab? && hdr[s].freeList in link && s in free
      && free[s] != []
    ensures PartsOk(Popped(hdr, link, s), free, partial, part)
    ensures |free[s]| > 1 ==> PartsOk(Popped(hdr, link, s), free[s := free[s][1..]], partial, part)
  {
    hide PartsOk;
    PartsSame(hdr, Popped(hdr, link, s), free, free, partial, part);
    if |free[s]| > 1 { PartsSame(hdr, Popped(hdr, link, s), free, free[s := free[s][1..]], partial, part); }
  }

  // ---- giving an object back -----------------------------------------------------------------------------------

  function Pushed(hdr: map<nat, Hdr>, s: nat, p: nat): map<nat, Hdr>
    requires s in hdr && hdr[s].Slab? && hdr[s].inuse > 0
  {
    hdr[s := hdr[s].(freeList := p, inuse := hdr[s].inuse - 1)]
  }

  lemma InUse(hdr: map<nat, Hdr>, link: map<nat, nat>, free: map<nat, seq<nat>>, young: set<nat>, s: nat, p: nat)
    requires SpansOk(hdr, link, free, young) && s in hdr && hdr[s].Slab?
    ensures s % PG == 0 && s != 0 && hdr[s].cls < CLASSES && s in free && (hdr[s].freeList == 0 <==> free[s] == [])
    ensures hdr[s].inuse + |free[s]| == Count(hdr[s].cls) && forall q :: q in free[s] ==> IsSlot(s, hdr[s].cls, q)
    ensures IsSlot(s, hdr[s].cls, p) && p !in free[s] ==> hdr[s].inuse > 0
  {
    hide IsSlot, Count;
    assert SpanOk(hdr, link, free, young, s);
    if free[s] != [] { assert FreeLink(link, free[s], 0); }
    if IsSlot(s, hdr[s].cls, p) && p !in free[s] { SlotCount(s, hdr[s].cls, [p] + free[s]); }
  }

  lemma PushSpans(hdr: map<nat, Hdr>, link: map<nat, nat>, free: map<nat, seq<nat>>, s: nat, p: nat)
    requires SpansOk(hdr, link, free, {}) && s in hdr && hdr[s].Slab? && s in free && hdr[s].inuse > 0
    requires IsSlot(s, hdr[s].cls, p) && p !in free[s]
    ensures SpansOk(Pushed(hdr, s, p), link[p := hdr[s].freeList], free[s := [p] + free[s]], {s})
    ensures hdr[s].inuse > 1 ==> SpansOk(Pushed(hdr, s, p), link[p := hdr[s].freeList], free[s := [p] + free[s]], {})
  {
    hide IsSlot, FreeList, Base, Count;
    assert SpanOk(hdr, link, free, {}, s);
    SlotFacts(s, hdr[s].cls, p);
    FreeListPush(link, hdr[s].freeList, free[s], p);
    var hdr', link', free' := Pushed(hdr, s, p), link[p := hdr[s].freeList], free[s := [p] + free[s]];
    forall t | t in hdr' && t != s ensures SpanOk(hdr', link', free', {}, t) && SpanOk(hdr', link', free', {s}, t) {
      assert SpanOk(hdr, link, free, {}, t);
      if hdr[t].Slab? {
        if p in free[t] { SlotFacts(t, hdr[t].cls, p); }
        FreeListFrame(link, link', hdr[t].freeList, free[t]);
      }
    }
    assert SpanOk(hdr', link', free', {s}, s);
    assert hdr[s].inuse > 1 ==> SpanOk(hdr', link', free', {}, s);
  }

  lemma PushLive(hdr: map<nat, Hdr>, free: map<nat, seq<nat>>, live: map<nat, nat>, s: nat, p: nat)
    requires LiveOk(hdr, free, live) && s in hdr && hdr[s].Slab? && s in free && hdr[s].inuse > 0 && s % PG == 0
    requires IsSlot(s, hdr[s].cls, p) && p !in free[s]
    ensures p in live && Base(p) == s && LiveOk(Pushed(hdr, s, p), free[s := [p] + free[s]], live - {p})
  {
    hide IsSlot, Base;
    SlotFacts(s, hdr[s].cls, p);
    assert LivePtr(hdr, free, p);
    var hdr', free', live' := Pushed(hdr, s, p), free[s := [p] + free[s]], live - {p};
    forall q: nat ensures q in live' <==> LivePtr(hdr', free', q) { assert q in live <==> LivePtr(hdr, free, q); }
    forall q | q in live' ensures Fits(hdr', q, live'[q]) { assert Fits(hdr, q, live[q]); }
  }

  // ---- adding and dropping spans ----------------------------------------------------------------------------------

  lemma AddSlab(hdr: map<nat, Hdr>, link: map<nat, nat>, link': map<nat, nat>, free: map<nat, seq<nat>>, s: nat, h: Hdr,
                q: seq<nat>)
    requires SpansOk(hdr, link, free, {}) && s !in hdr && s != 0 && s % PG == 0
    requires h.Slab? && h.cls < CLASSES && h.inuse == 0 && FreeList(link', h.freeList, q) && |q| == Count(h.cls)
      && forall p :: p in q ==> IsSlot(s, h.cls, p)
    requires forall p :: p in link && !IsSlot(s, h.cls, p) ==> p in link' && link'[p] == link[p]
    ensures SpansOk(hdr[s := h], link', free[s := q], {s})
  {
    hide IsSlot, FreeList, Base, Count;
    var hdr', free' := hdr[s := h], free[s := q];
    forall t | t in hdr' ensures SpanOk(hdr', link', free', {s}, t) {
      if t != s {
        assert SpanOk(hdr, link, free, {}, t);
        if hdr[t].Slab? {
          forall p | p in free[t] ensures !IsSlot(s, h.cls, p) {
            SlotFacts(t, hdr[t].cls, p);
            if IsSlot(s, h.cls, p) { SlotFacts(s, h.cls, p); }
          }
          FreeListFrame(link, link', hdr[t].freeList, free[t]);
        }
      }
    }
  }

  // A new slab whose slots are all free adds no allocation.
  lemma AddSlabLive(hdr: map<nat, Hdr>, free: map<nat, seq<nat>>, live: map<nat, nat>, s: nat, h: Hdr, q: seq<nat>)
    requires LiveOk(hdr, free, live) && s !in hdr && s % PG == 0 && h.Slab? && |q| == Count(h.cls) && Distinct(q)
    requires forall p :: p in q ==> IsSlot(s, h.cls, p)
    ensures LiveOk(hdr[s := h], free[s := q], live) && Small(hdr[s := h], live) == Small(hdr, live)
  {
    hide IsSlot, Base;
    var hdr', free' := hdr[s := h], free[s := q];
    forall p: nat ensures p in live <==> LivePtr(hdr', free', p) {
      assert p in live <==> LivePtr(hdr, free, p);
      if IsSlot(s, h.cls, p) && p !in q { SlotCount(s, h.cls, [p] + q); }
    }
    forall p | p in live ensures Fits(hdr', p, live[p]) && Base(p) != s { assert Fits(hdr, p, live[p]); }
  }

  lemma AddLargeLive(hdr: map<nat, Hdr>, free: map<nat, seq<nat>>, live: map<nat, nat>, s: nat, n: nat, size: nat)
    requires LiveOk(hdr, free, live) && s !in hdr && s % PG == 0 && (Wraps(size) || size + HDR <= n * PG)
    ensures s + HDR !in live && Base(s + HDR) == s && LiveOk(hdr[s := Large(n)], free, live[s + HDR := size])
    ensures Small(hdr[s := Large(n)], live[s + HDR := size]) == Small(hdr, live)
  {
    var a := s + HDR;
    assert Base(a) == s;
    AddLargeAt(hdr, free, live, s, n, size, a);
  }

  lemma AddLargeAt(hdr: map<nat, Hdr>, free: map<nat, seq<nat>>, live: map<nat, nat>, s: nat, n: nat, size: nat, a: nat)
    requires LiveOk(hdr, free, live) && s !in hdr && (Wraps(size) || size + HDR <= n * PG) && a == s + HDR
      && Base(a) == s
    ensures a !in live && LiveOk(hdr[s := Large(n)], free, live[a := size])
    ensures Small(hdr[s := Large(n)], live[a := size]) == Small(hdr, live)
  {
    hide IsSlot, Base;
    var hdr', live' := hdr[s := Large(n)], live[a := size];
    assert a in live <==> LivePtr(hdr, free, a);
    forall p: nat ensures p in live' <==> LivePtr(hdr', free, p) { assert p in live <==> LivePtr(hdr, free, p); }
    forall p | p in live' ensures Fits(hdr', p, live'[p]) { if p != a { assert Fits(hdr, p, live[p]); } }
    forall p: nat
      ensures p in Small(hdr', live') <==> p in Small(hdr, live)
    {
      if p in live { assert Fits(hdr, p, live[p]); }
    }
  }

  lemma DropSpan(hdr: map<nat, Hdr>, link: map<nat, nat>, free: map<nat, seq<nat>>, s: nat)
    requires SpansOk(hdr, link, free, {s})
    ensures SpansOk(hdr - {s}, link, free - {s}, {})
  {
    hide FreeList, IsSlot, Count;
    var hdr', free' := hdr - {s}, free - {s};
    forall t | t in hdr' ensures SpanOk(hdr', link, free', {}, t) { assert SpanOk(hdr, link, free, {s}, t); }
  }

  // The span at s goes once nothing in it is live.
  lemma DropLive(hdr: map<nat, Hdr>, free: map<nat, seq<nat>>, live: map<nat, nat>, s: nat)
    requires LiveOk(hdr, free, live) && forall p :: p in live ==> Base(p) != s
    ensures LiveOk(hdr - {s}, free - {s}, live) && Small(hdr - {s}, live) == Small(hdr, live)
  {
    hide IsSlot, Base;
    var hdr', free' := hdr - {s}, free - {s};
    forall p: nat ensures p in live <==> LivePtr(hdr', free', p) { assert p in live <==> LivePtr(hdr, free, p); }
    forall p | p in live ensures Fits(hdr', p, live[p]) { assert Fits(hdr, p, live[p]); }
  }

  lemma DropParts(hdr: map<nat, Hdr>, free: map<nat, seq<nat>>, partial: seq<nat>, part: seq<seq<nat>>, s: nat)
    requires PartsOk(hdr, free, partial, part) && s !in free
    ensures PartsOk(hdr - {s}, free, partial, part)
  {
    hide PartsOk;
    PartsSame(hdr, hdr - {s}, free, free, partial, part);
  }

  // Without an object in use, a slab holds no live allocation; with one, it does.
  lemma IdleIff(hdr: map<nat, Hdr>, link: map<nat, nat>, free: map<nat, seq<nat>>, young: set<nat>, live: map<nat, nat>,
                s: nat)
    requires SpansOk(hdr, link, free, young) && LiveOk(hdr, free, live) && s in hdr && hdr[s].Slab?
    ensures hdr[s].inuse == 0 <==> forall p :: p in live ==> Base(p) != s
  {
    hide IsSlot, Base, Count;
    InUse(hdr, link, free, young, s, 0);
    if hdr[s].inuse == 0 {
      forall p | p in live ensures Base(p) != s {
        assert LivePtr(hdr, free, p);
        InUse(hdr, link, free, young, s, p);
      }
    } else {
      var p := UsedSlot(s, hdr[s].cls, free[s]);
      SlotFacts(s, hdr[s].cls, p);
      assert LivePtr(hdr, free, p);
    }
  }

  // ---- counters -------------------------------------------------------------------------------------------------

  lemma SmallAdded(hdr: map<nat, Hdr>, hdr': map<nat, Hdr>, live: map<nat, nat>, p: nat, size: nat)
    requires p !in live && SameKinds(hdr, hdr') && Base(p) in hdr && hdr[Base(p)].Slab?
    ensures |Small(hdr', live[p := size])| == |Small(hdr, live)| + 1
  {
    hide Base;
    assert Small(hdr', live[p := size]) == Small(hdr, live) + {p};
  }

  lemma SmallDropped(hdr: map<nat, Hdr>, hdr': map<nat, Hdr>, live: map<nat, nat>, p: nat)
    requires p in live && SameKinds(hdr, hdr') && Base(p) in hdr && hdr[Base(p)].Slab?
    ensures |Small(hdr', live - {p})| == |Small(hdr, live)| - 1
  {
    hide Base;
    assert Small(hdr', live - {p}) == Small(hdr, live) - {p} && p in Small(hdr, live);
  }

  ghost predicate SameKinds(hdr: map<nat, Hdr>, hdr': map<nat, Hdr>) {
    hdr'.Keys == hdr.Keys && forall s :: s in hdr ==> (hdr'[s].Slab? <==> hdr[s].Slab?)
  }

  // ---- slots of a new slab ---------------------------------------------------------------------------------------

  ghost function SlotsFrom(s: nat, cls: nat, i: nat): (q: seq<nat>)
    requires i <= Count(cls)
    ensures |q| == Count(cls) - i
    decreases Count(cls) - i
  {
    if i == Count(cls) then [] else [Slot(s, cls, i)] + SlotsFrom(s, cls, i + 1)
  }

  lemma {:induction false} SlotsFromFacts(s: nat, cls: nat, i: nat)
    requires i <= Count(cls) && s % PG == 0
    ensures forall p :: p in SlotsFrom(s, cls, i) ==> IsSlot(s, cls, p) && IndexOf(s, cls, p) >= i
    decreases Count(cls) - i
  {
    hide Count, SizeOf, IsSlot, IndexOf, Slot;
    if i < Count(cls) {
      SlotsFromFacts(s, cls, i + 1);
      SlotIs(s, cls, i);
    }
  }

  // How many pages alloc_large asks for.
  function PagesFor(size: nat): nat { if size <= MAX_SMALL then 1 else (size + HDR + PG - 1) % TWO64 / PG }

  ghost predicate SlabsOnly(hdr: map<nat, Hdr>, free: map<nat, seq<nat>>) { forall s :: s in free ==>
    s in hdr && hdr[s].Slab? }

  class SlabHeap {
    var hdr: map<nat, Hdr>          // span headers by page address
    var link: map<nat, nat>         // first word of every free object
    var partial: seq<nat>
    var liveObjects: int
    var livePages: int
    ghost var free: map<nat, seq<nat>>
    ghost var part: seq<seq<nat>>
    ghost var live: map<nat, nat>   // allocations, with the size asked for
    ghost var owner: map<nat, nat>  // pages held, with their span

    ghost predicate Inv(young: set<nat>)
      reads this
    {
      && SpansOk(hdr, link, free, young) && PartsOk(hdr, free, partial, part) && LiveOk(hdr, free, live)
        && PagesOk(hdr, owner)
      && SlabsOnly(hdr, free) && liveObjects == |Small(hdr, live)| && livePages == |owner|
    }

    ghost predicate Valid()
      reads this
    {
      Inv({})
    }

    // heap_core_init
    constructor ()
      ensures Valid() && live == map[] && owner == map[]
    {
      hdr, link, partial, liveObjects, livePages := map[], map[], seq<nat>(CLASSES, _ => 0), 0, 0;
      free, part, live, owner := map[], seq<seq<nat>>(CLASSES, _ => []), map[], map[];
      new;
      assert Small(hdr, live) == {};
    }

    // partial_insert
    method PartialInsert(cls: nat, s: nat)
      requires cls < |partial| && s in hdr && hdr[s].Slab?
        && (partial[cls] != 0 ==> partial[cls] in hdr && hdr[partial[cls]].Slab? && partial[cls] != s)
      modifies this`hdr, this`partial
      ensures hdr == Inserted(old(hdr), old(partial[cls]), s) && partial == old(partial)[cls := s]
    {
      hdr := hdr[s := hdr[s].(prev := 0)];
      hdr := hdr[s := hdr[s].(next := partial[cls])];
      var n := hdr[s].next;
      if n != 0 { hdr := hdr[n := hdr[n].(prev := s)]; }
      partial := partial[cls := s];
    }

    // partial_remove
    method PartialRemove(cls: nat, s: nat)
      requires cls < |partial| && s in hdr && hdr[s].Slab?
      requires hdr[s].prev != 0 ==> hdr[s].prev in hdr && hdr[hdr[s].prev].Slab? && hdr[s].prev != s
      requires hdr[s].next != 0 ==>
        hdr[s].next in hdr && hdr[hdr[s].next].Slab? && hdr[s].next != s && hdr[s].next != hdr[s].prev
      modifies this`hdr, this`partial
      ensures hdr == Removed(old(hdr), s)
      ensures partial == old(partial)[cls := if old(hdr[s]).prev != 0 then old(partial[cls]) else old(hdr[s]).next]
    {
      var p, n := hdr[s].prev, hdr[s].next;
      if p != 0 { hdr := hdr[p := hdr[p].(next := n)]; } else { partial := partial[cls := n]; }
      if n != 0 { hdr := hdr[n := hdr[n].(prev := p)]; }
      hdr := hdr[s := hdr[s].(next := 0)];
      hdr := hdr[s := hdr[s].(prev := 0)];
    }

    // The loop of slab_create: every object goes on the free list, first object first.
    method ChainObjects(s: nat, cls: nat)
      requires s in hdr && hdr[s].Slab? && hdr[s].freeList == 0 && s != 0 && s % PG == 0
      modifies this`hdr, this`link
      ensures hdr.Keys == old(hdr).Keys && (forall t :: t in hdr && t != s ==> hdr[t] == old(hdr)[t])
      ensures hdr[s].Slab? && hdr[s].(freeList := 0) == old(hdr[s])
        && FreeList(link, hdr[s].freeList, SlotsFrom(s, cls, 0))
      ensures forall p :: p in old(link) && !IsSlot(s, cls, p) ==> p in link && link[p] == old(link)[p]
    {
      hide Count, SizeOf, IsSlot, Slot, FreeList, IndexOf;
      var i: nat := Count(cls);
      assert FreeList(link, 0, SlotsFrom(s, cls, i)) by { EmptyList(link); }
      while i > 0
        invariant i <= Count(cls) && hdr.Keys == old(hdr).Keys
          && (forall t :: t in hdr && t != s ==> hdr[t] == old(hdr)[t])
        invariant s in hdr && hdr[s].Slab? && hdr[s].(freeList := 0) == old(hdr[s])
          && FreeList(link, hdr[s].freeList, SlotsFrom(s, cls, i))
        invariant forall p :: p in old(link) && !IsSlot(s, cls, p) ==> p in link && link[p] == old(link)[p]
      {
        i := i - 1;
        var obj := Slot(s, cls, i);
        SlotIs(s, cls, i);
        SlotFacts(s, cls, obj);
        SlotsFromFacts(s, cls, i + 1);
        FreeListPush(link, hdr[s].freeList, SlotsFrom(s, cls, i + 1), obj);
        link := link[obj := hdr[s].freeList];
        hdr := hdr[s := hdr[s].(freeList := obj)];
      }
    }

    // slab_create: the page backend answers with page, or 0.
    method SlabCreate(cls: nat, page: nat) returns (s: nat)
      requires Valid() && cls < CLASSES && Granted(owner, page, 1)
      modifies this`hdr, this`link, this`livePages, this`free, this`owner
      ensures s == page
      ensures s == 0 ==> unchanged(this)
      ensures s != 0 ==>
        s !in old(hdr) && s in hdr && hdr[s].Slab? && hdr[s].cls == cls && s !in old(free) && s in free && free[s] != []
      ensures s != 0 ==>
        SpansOk(hdr, link, free, {s}) && PartsOk(hdr, old(free), partial, part) && LiveOk(hdr, free, live)
        && PagesOk(hdr, owner)
      ensures s != 0 ==>
        SlabsOnly(hdr, free) && liveObjects == |Small(hdr, live)| && livePages == |owner|
        && free == old(free)[s := free[s]]
      ensures s != 0 ==> owner == Claimed(old(owner), s / PG, 1, s)
    {
      hide SpansOk, PartsOk, LiveOk, PagesOk, Claimed, FreeList, IsSlot, Count, Granted, Small;
      s := page;
      if s != 0 {
        assert s % PG == 0 by { GrantAligned(owner, s, 1); }
        livePages := livePages + 1;
        NewPages(hdr, owner, s, Slab(cls, 0, 0, 0, 0));
        hdr := hdr[s := Slab(cls, 0, 0, 0, 0)];
        ChainObjects(s, cls);
        ghost var q := SlotsFrom(s, cls, 0);
        SlotsFromFacts(s, cls, 0);
        assert hdr == old(hdr)[s := hdr[s]];
        NewPages(old(hdr), owner, s, hdr[s]);
        AddSlab(old(hdr), old(link), link, free, s, hdr[s], q);
        assert Distinct(q) by { ListDistinct(link, hdr[s].freeList, q); }
        AddSlabLive(old(hdr), free, live, s, hdr[s], q);
        NewParts(old(hdr), free, partial, part, s, hdr[s]);
        owner := Claimed(owner, s / PG, 1, s);
        free := free[s := q];
      }
    }

    // partial_remove of a slab that had a free object (free0) and will not count as having one (free1).
    method Unlist(s: nat, ghost young: set<nat>, ghost free0: map<nat, seq<nat>>, ghost free1: map<nat, seq<nat>>)
      requires SpansOk(hdr, link, free, young) && PartsOk(hdr, free0, partial, part) && LiveOk(hdr, free, live)
        && PagesOk(hdr, owner)
      requires SlabsOnly(hdr, free) && Open(hdr, free0, s) && hdr[s].cls < CLASSES && (s !in free1 || free1[s] == [])
        && free0 - {s} == free1 - {s}
      modifies this`hdr, this`partial, this`part
      ensures SpansOk(hdr, link, free, young) && PartsOk(hdr, free1, partial, part) && LiveOk(hdr, free, live)
        && PagesOk(hdr, owner)
      ensures SlabsOnly(hdr, free) && Small(hdr, live) == old(Small(hdr, live)) && SameBody(old(hdr), hdr)
    {
      hide SpansOk, PartsOk, LiveOk, PagesOk, Small, IsSlot, Count, Removed, SameBody, SlabsOnly;
      var cls := hdr[s].cls;
      PartsShape(hdr, free0, partial, part);
      OpenIsListed(hdr, free0, partial, part, cls, s);
      ghost var k :| 0 <= k < |part[cls]| && part[cls][k] == s;
      assert forall t :: t != s ==> (t in free1 <==> t in free1 - {s}) && (t in free0 <==> t in free0 - {s});
      assert forall t :: t != s && t in free1 ==> free1[t] == (free1 - {s})[t] && free0[t] == (free0 - {s})[t];
      RemoveParts(hdr, free0, free1, partial, part, s, k);
      RemoveBody(hdr, s);
      BodyKept(hdr, Removed(hdr, s), link, free, young, live, owner);
      BodyKinds(hdr, Removed(hdr, s), free);
      PartialRemove(cls, s);
      part := part[cls := Without(part[cls], k)];
    }

    // The first object of the first slab on the list goes out; a slab that is full then leaves the list.
    method TakeObject(cls: nat, s: nat, ghost size: nat) returns (obj: nat)
      requires cls < CLASSES && Inv({s}) && cls < |partial| && s == partial[cls] && s != 0 && 0 < size <= SizeOf(cls)
      modifies this`hdr, this`partial, this`liveObjects, this`free, this`part, this`live
      ensures Valid() && obj != 0 && obj !in old(live) && live == old(live)[obj := size]
    {
      hide SpansOk, PartsOk, LiveOk, PagesOk, IsSlot, Count, Small, SizeOf, Base, SlabsOnly, Removed, SameBody;
      TakeAll(hdr, link, free, partial, part, live, owner, cls, s, size);
      obj := hdr[s].freeList;
      ghost var free0 := free;
      free := free[s := free[s][1..]];
      live := live[obj := size];
      hdr := hdr[s := hdr[s].(freeList := link[obj])];
      hdr := hdr[s := hdr[s].(inuse := hdr[s].inuse + 1)];
      liveObjects := liveObjects + 1;
      assert hdr == Popped(old(hdr), link, s);
      if hdr[s].freeList == 0 {
        assert free0 - {s} == free - {s};
        Unlist(s, {}, free0, free);
      }
    }

    // alloc_large: the page backend answers with page, or 0.
    method AllocLarge(size: nat, page: nat) returns (p: nat)
      requires Valid() && MAX_SMALL < size < TWO64 && Granted(owner, page, PagesFor(size))
      modifies this`hdr, this`livePages, this`live, this`owner
      ensures Valid() && (p == 0 <==> page == 0)
      ensures p == 0 ==> unchanged(this)
      ensures p != 0 ==>
        p == page + HDR && p !in old(live) && live == old(live)[p := size]
        && owner == Claimed(old(owner), page / PG, PagesFor(size), page)
    {
      hide SpansOk, PartsOk, LiveOk, PagesOk, Claimed, Granted, Small, Base;
      var npages := (size + HDR + PG - 1) % TWO64 / PG;
      assert npages == PagesFor(size);
      if page == 0 { return 0; }
      var h := Large(npages);
      assert page % PG == 0 && npages > 0 by { GrantAligned(owner, page, npages); }
      NewPages(hdr, owner, page, h);
      NewParts(hdr, free, partial, part, page, h);
      AddLargeSpan(hdr, link, free, page, npages);
      LargeRoom(size);
      AddLargeLive(hdr, free, live, page, npages, size);
      livePages := livePages + npages;
      hdr := hdr[page := h];
      owner := Claimed(owner, page / PG, npages, page);
      p := page + HDR;
      live := live[p := size];
    }

    // heap_core_alloc: no memory only when the backend has none and no slab of the class has a free object.
    method Alloc(size: nat, page: nat) returns (p: nat)
      requires Valid() && size < TWO64 && Granted(owner, page, PagesFor(size))
      modifies this
      ensures Valid()
      ensures p == 0 ==> unchanged(this) && (size == 0 || page == 0)
      ensures p == 0 && 0 < size <= MAX_SMALL ==> forall s :: s in hdr && hdr[s].Slab? && Serves(hdr[s].cls, size) ==>
        s in free && free[s] == []
      ensures p != 0 ==> size > 0 && p !in old(live) && live == old(live)[p := size]
      ensures owner == old(owner)
        || (p != 0 && page != 0 && owner == Claimed(old(owner), page / PG, PagesFor(size), page))
    {
      hide SpansOk, PartsOk, LiveOk, PagesOk, Claimed, Granted, Small, Base, SizeOf;
      if size == 0 { return 0; }
      if size > MAX_SMALL {
        p := AllocLarge(size, page);
        return;
      }
      var cls := ClassFor(size);
      assert 0 < size <= SizeOf(cls);
      assert |partial| == CLASSES && |part| == CLASSES by { PartsShape(hdr, free, partial, part); }
      var s := partial[cls];
      if s == 0 {
        NoneOpen(hdr, link, free, partial, part, cls, size);
        s := SlabCreate(cls, page);
        if s == 0 { return 0; }
        InsertParts(hdr, old(free), free, partial, part, s);
        InsertBody(hdr, partial[cls], s);
        BodyKept(hdr, Inserted(hdr, partial[cls], s), link, free, {s}, live, owner);
        PartialInsert(cls, s);
        part := part[cls := [s] + part[cls]];
      } else {
        YoungMore(hdr, link, free, s);
      }
      p := TakeObject(cls, s, size);
    }

    // What a caller may pass to free: nothing that is already on a free list.
    ghost predicate MayFree(ptr: nat)
      reads this
    {
      ptr != 0 ==>
        Base(ptr) in hdr && (hdr[Base(ptr)].Slab? && IsSlot(Base(ptr), hdr[Base(ptr)].cls, ptr) ==>
        Base(ptr) in free && ptr !in free[Base(ptr)])
    }

    // The large branch of heap_core_free.
    method FreeLarge(ptr: nat) returns (rc: int)
      requires Valid() && Base(ptr) in hdr && hdr[Base(ptr)].Large?
      modifies this`hdr, this`livePages, this`live, this`owner
      ensures Valid() && live == old(live) - {ptr} && rc == (if ptr in old(live) then 0 else -1)
      ensures rc == -1 ==> unchanged(this)
      ensures rc == 0 ==> (forall q :: q in live ==> Base(q) != Base(ptr)) && owner == Released(old(owner), Base(ptr))
    {
      hide SpansOk, PartsOk, LiveOk, PagesOk, Released, Small, Base;
      var s := Base(ptr);
      LargeAlone(hdr, free, live, s, ptr);
      if ptr != s + HDR { assert live - {ptr} == live; return -1; }
      var npages := hdr[s].npages;
      DropPages(hdr, owner, s);
      LargeDrop(hdr, link, free, live, s, ptr);
      LargeParts(hdr, link, free, partial, part, s);
      hdr := hdr - {s};
      live := live - {ptr};
      owner := Released(owner, s);
      livePages := livePages - npages;
      rc := 0;
    }

    // A slab left without an object in use leaves its list and goes back to the page backend.
    method ReleaseSlab(s: nat)
      requires Inv({s}) && Open(hdr, free, s) && hdr[s].inuse == 0 && hdr[s].cls < |partial|
      modifies this`hdr, this`partial, this`livePages, this`free, this`part, this`owner
      ensures Valid() && owner == Released(old(owner), s)
    {
      hide SpansOk, PartsOk, LiveOk, PagesOk, Released, Small, Base, IsSlot, Count;
      PartsShape(hdr, free, partial, part);
      assert free - {s} - {s} == free - {s};
      Unlist(s, {s}, free, free - {s});
      IdleIff(hdr, link, free, {s}, live, s);
      DropSpan(hdr, link, free, s);
      DropLive(hdr, free, live, s);
      DropParts(hdr, free - {s}, partial, part, s);
      DropPages(hdr, owner, s);
      free := free - {s};
      hdr := hdr - {s};
      owner := Released(owner, s);
      livePages := livePages - 1;
    }

    // A slab that was full goes on its list.
    method ListSlab(s: nat, ghost free0: map<nat, seq<nat>>)
      requires SpansOk(hdr, link, free, {}) && PartsOk(hdr, free0, partial, part) && LiveOk(hdr, free, live)
        && PagesOk(hdr, owner)
      requires SlabsOnly(hdr, free) && liveObjects == |Small(hdr, live)| && livePages == |owner|
      requires s != 0 && Open(hdr, free, s) && hdr[s].cls < CLASSES && s in free0 && free0[s] == []
        && free == free0[s := free[s]]
      modifies this`hdr, this`partial, this`part
      ensures Valid()
    {
      hide SpansOk, PartsOk, LiveOk, PagesOk, Small, IsSlot, Count;
      var cls := hdr[s].cls;
      PartsShape(hdr, free0, partial, part);
      InsertParts(hdr, free0, free, partial, part, s);
      InsertBody(hdr, partial[cls], s);
      BodyKept(hdr, Inserted(hdr, partial[cls], s), link, free, {}, live, owner);
      part := part[cls := [s] + part[cls]];
      PartialInsert(cls, s);
    }

    // The object goes to the front of its slab's free list.
    method PushObject(s: nat, ptr: nat) returns (wasFull: bool)
      requires Valid() && s in hdr && hdr[s].Slab? && s in free && IsSlot(s, hdr[s].cls, ptr) && ptr !in free[s]
      modifies this`hdr, this`link, this`liveObjects, this`free, this`live
      ensures SpansOk(hdr, link, free, {s}) && PartsOk(hdr, old(free), partial, part) && LiveOk(hdr, free, live)
        && PagesOk(hdr, owner)
      ensures SlabsOnly(hdr, free) && liveObjects == |Small(hdr, live)| && livePages == |owner|
      ensures Open(hdr, free, s) && hdr[s].cls < CLASSES && (hdr[s].inuse > 0 ==> SpansOk(hdr, link, free, {}))
      ensures free == old(free)[s := free[s]] && (wasFull <==> old(free)[s] == [])
      ensures if wasFull then hdr[s].inuse > 0 else PartsOk(hdr, free, partial, part)
      ensures ptr in old(live) && Base(ptr) == s && s != 0 && live == old(live) - {ptr}
    {
      hide SpansOk, PartsOk, LiveOk, PagesOk, Small, Base, IsSlot, Count, SlabsOnly;
      PushAll(hdr, link, free, partial, part, live, owner, s, ptr);
      wasFull := hdr[s].freeList == 0;
      link := link[ptr := hdr[s].freeList];
      hdr := hdr[s := hdr[s].(freeList := ptr)];
      hdr := hdr[s := hdr[s].(inuse := hdr[s].inuse - 1)];
      assert hdr == Pushed(old(hdr), s, ptr);
      liveObjects := liveObjects - 1;
      free := free[s := [ptr] + free[s]];
      live := live - {ptr};
    }

    // heap_core_free: rejects exactly what is not live, and a span's pages go back with its last allocation.
    method Free(ptr: nat) returns (rc: int)
      requires Valid() && MayFree(ptr)
      modifies this
      ensures Valid() && live == old(live) - {ptr} && rc == (if ptr in old(live) then 0 else -1)
      ensures rc == -1 ==> unchanged(this)
      ensures rc == 0 ==> owner == if exists q :: q in live && Base(q) == Base(ptr) then old(owner)
        else Released(old(owner), Base(ptr))
    {
      hide SpansOk, PartsOk, LiveOk, PagesOk, Released, Small, Base, IsSlot, Count;
      if ptr == 0 {
        NullNotLive(hdr, link, free, live);
        assert live - {ptr} == live;
        return -1;
      }
      var s := Base(ptr);
      if hdr[s].Large? {
        rc := FreeLarge(ptr);
        return;
      }
      InUse(hdr, link, free, {}, s, ptr);
      LiveSlot(hdr, free, live, s, ptr);
      PartsShape(hdr, free, partial, part);
      if !IsSlot(s, hdr[s].cls, ptr) || hdr[s].inuse == 0 {
        assert live - {ptr} == live;
        return -1;
      }
      var wasFull := PushObject(s, ptr);
      IdleIff(hdr, link, free, {s}, live, s);
      if hdr[s].inuse == 0 {
        // A slab that was full has other objects in use, so this one is on its list.
        assert !wasFull;
        ReleaseSlab(s);
      } else if wasFull {
        ListSlab(s, old(free));
      }
      rc := 0;
    }
  }

  lemma NullNotLive(hdr: map<nat, Hdr>, link: map<nat, nat>, free: map<nat, seq<nat>>, live: map<nat, nat>)
    requires SpansOk(hdr, link, free, {}) && LiveOk(hdr, free, live)
    ensures 0 !in live
  {
    assert 0 in hdr ==> SpanOk(hdr, link, free, {}, 0);
    assert 0 in live <==> LivePtr(hdr, free, 0);
  }

  lemma LiveSlot(hdr: map<nat, Hdr>, free: map<nat, seq<nat>>, live: map<nat, nat>, s: nat, p: nat)
    requires LiveOk(hdr, free, live) && s in hdr && hdr[s].Slab? && Base(p) == s
    ensures p in live <==> IsSlot(s, hdr[s].cls, p) && s in free && p !in free[s]
  {
    assert p in live <==> LivePtr(hdr, free, p);
  }

  // A large span holds one allocation.
  lemma LargeAlone(hdr: map<nat, Hdr>, free: map<nat, seq<nat>>, live: map<nat, nat>, s: nat, p: nat)
    requires LiveOk(hdr, free, live) && s in hdr && hdr[s].Large? && Base(p) == s
    ensures p in live <==> p == s + HDR
    ensures forall q :: q in live && Base(q) == s ==> q == s + HDR
  {
    hide Base;
    assert p in live <==> LivePtr(hdr, free, p);
    forall q | q in live && Base(q) == s ensures q == s + HDR { assert LivePtr(hdr, free, q); }
  }

  lemma LargeDrop(hdr: map<nat, Hdr>, link: map<nat, nat>, free: map<nat, seq<nat>>, live: map<nat, nat>, s: nat,
                  p: nat)
    requires SpansOk(hdr, link, free, {}) && LiveOk(hdr, free, live) && s in hdr && hdr[s].Large? && p == s + HDR
      && Base(p) == s
    ensures SpansOk(hdr - {s}, link, free, {}) && LiveOk(hdr - {s}, free, live - {p})
      && Small(hdr - {s}, live - {p}) == Small(hdr, live)
  {
    hide Base, IsSlot, Count, FreeList;
    LargeAlone(hdr, free, live, s, p);
    var hdr', live' := hdr - {s}, live - {p};
    forall t | t in hdr' ensures SpanOk(hdr', link, free, {}, t) { assert SpanOk(hdr, link, free, {}, t); }
    forall q: nat ensures q in live' <==> LivePtr(hdr', free, q) { assert q in live <==> LivePtr(hdr, free, q); }
    forall q | q in live' ensures Fits(hdr', q, live'[q]) { assert Fits(hdr, q, live[q]); }
  }

  lemma LargeParts(hdr: map<nat, Hdr>, link: map<nat, nat>, free: map<nat, seq<nat>>, partial: seq<nat>,
                   part: seq<seq<nat>>, s: nat)
    requires PartsOk(hdr, free, partial, part) && s in hdr && hdr[s].Large?
    ensures PartsOk(hdr - {s}, free, partial, part)
  {
    hide PartsOk;
    PartsSame(hdr, hdr - {s}, free, free, partial, part);
  }

  lemma PushParts(hdr: map<nat, Hdr>, free: map<nat, seq<nat>>, partial: seq<nat>, part: seq<seq<nat>>, s: nat, p: nat)
    requires PartsOk(hdr, free, partial, part) && s in hdr && hdr[s].Slab? && hdr[s].inuse > 0 && s in free
    ensures PartsOk(Pushed(hdr, s, p), free, partial, part)
    ensures free[s] != [] ==> PartsOk(Pushed(hdr, s, p), free[s := [p] + free[s]], partial, part)
  {
    hide PartsOk;
    PartsSame(hdr, Pushed(hdr, s, p), free, free, partial, part);
    if free[s] != [] { PartsSame(hdr, Pushed(hdr, s, p), free, free[s := [p] + free[s]], partial, part); }
  }

  // Everything but the partial list after an object is given back.
  lemma PushAll(hdr: map<nat, Hdr>, link: map<nat, nat>, free: map<nat, seq<nat>>, partial: seq<nat>,
                part: seq<seq<nat>>, live: map<nat, nat>, owner: map<nat, nat>, s: nat, p: nat)
    requires SpansOk(hdr, link, free, {}) && PartsOk(hdr, free, partial, part) && LiveOk(hdr, free, live)
      && PagesOk(hdr, owner) && SlabsOnly(hdr, free)
    requires s in hdr && hdr[s].Slab? && s in free && IsSlot(s, hdr[s].cls, p) && p !in free[s]
    ensures hdr[s].inuse > 0 && s != 0 && hdr[s].cls < CLASSES && (hdr[s].freeList == 0 <==> free[s] == [])
      && (free[s] == [] ==> hdr[s].inuse > 1)
    ensures p in live && Base(p) == s && |Small(Pushed(hdr, s, p), live - {p})| == |Small(hdr, live)| - 1
    ensures var hdr', link', free' := Pushed(hdr, s, p), link[p := hdr[s].freeList], free[s := [p] + free[s]];
      && SpansOk(hdr', link', free', {s}) && (hdr[s].inuse > 1 ==> SpansOk(hdr', link', free', {}))
      && LiveOk(hdr', free', live - {p}) && PagesOk(hdr', owner) && SlabsOnly(hdr', free')
      && PartsOk(hdr', free, partial, part) && (free[s] != [] ==> PartsOk(hdr', free', partial, part))
  {
    hide SpansOk, PartsOk, LiveOk, PagesOk, Small, Base, IsSlot, Count;
    InUse(hdr, link, free, {}, s, p);
    CountMany(hdr[s].cls);
    PushSpans(hdr, link, free, s, p);
    PushLive(hdr, free, live, s, p);
    SmallDropped(hdr, Pushed(hdr, s, p), live, p);
    PagesSame(hdr, Pushed(hdr, s, p), owner);
    PushParts(hdr, free, partial, part, s, p);
  }

  lemma CountMany(cls: nat)
    ensures Count(cls) >= 3
  {}

  lemma PartsShape(hdr: map<nat, Hdr>, free: map<nat, seq<nat>>, partial: seq<nat>, part: seq<seq<nat>>)
    requires PartsOk(hdr, free, partial, part)
    ensures |partial| == CLASSES && |part| == CLASSES
  {}

  lemma YoungMore(hdr: map<nat, Hdr>, link: map<nat, nat>, free: map<nat, seq<nat>>, s: nat)
    requires SpansOk(hdr, link, free, {})
    ensures SpansOk(hdr, link, free, {s})
  {
    hide FreeList, IsSlot, Count;
    forall t | t in hdr ensures SpanOk(hdr, link, free, {s}, t) { assert SpanOk(hdr, link, free, {}, t); }
  }

  lemma OneClass(a: nat, b: nat, size: nat)
    requires Serves(a, size) && Serves(b, size)
    ensures a == b
  {}

  // An empty partial list means that the class has no free object.
  lemma NoneOpen(hdr: map<nat, Hdr>, link: map<nat, nat>, free: map<nat, seq<nat>>, partial: seq<nat>,
                 part: seq<seq<nat>>, cls: nat, size: nat)
    requires SpansOk(hdr, link, free, {}) && PartsOk(hdr, free, partial, part) && cls < CLASSES && partial[cls] == 0
    requires Serves(cls, size)
    ensures forall s :: s in hdr && hdr[s].Slab? && Serves(hdr[s].cls, size) ==> s in free && free[s] == []
  {
    hide IsSlot, Count, PartsOk, SpansOk, Serves;
    forall s | s in hdr && hdr[s].Slab? && Serves(hdr[s].cls, size)
      ensures s in free && free[s] == []
    {
      InUse(hdr, link, free, {}, s, 0);
      OneClass(cls, hdr[s].cls, size);
      OpenIsListed(hdr, free, partial, part, cls, s);
    }
  }

  lemma BodyKinds(hdr: map<nat, Hdr>, hdr': map<nat, Hdr>, free: map<nat, seq<nat>>)
    requires SameBody(hdr, hdr') && SlabsOnly(hdr, free)
    ensures SlabsOnly(hdr', free)
  {}

  // Everything but the partial list after the first object of the first slab is taken.
  lemma TakeAll(hdr: map<nat, Hdr>, link: map<nat, nat>, free: map<nat, seq<nat>>, partial: seq<nat>,
                part: seq<seq<nat>>, live: map<nat, nat>, owner: map<nat, nat>, cls: nat, s: nat, size: nat)
    requires SpansOk(hdr, link, free, {s}) && PartsOk(hdr, free, partial, part) && LiveOk(hdr, free, live)
      && PagesOk(hdr, owner) && SlabsOnly(hdr, free)
    requires cls < CLASSES && cls < |partial| && s == partial[cls] && s != 0 && 0 < size <= SizeOf(cls)
    ensures |partial| == CLASSES && |part| == CLASSES && |part[cls]| > 0 && part[cls][0] == s && Open(hdr, free, s)
      && hdr[s].cls == cls
    ensures hdr[s].freeList in link && hdr[s].freeList != 0 && hdr[s].freeList !in live
      && (link[hdr[s].freeList] == 0 <==> free[s][1..] == [])
    ensures |Small(Popped(hdr, link, s), live[hdr[s].freeList := size])| == |Small(hdr, live)| + 1
    ensures var hdr', free' := Popped(hdr, link, s), free[s := free[s][1..]];
      && SpansOk(hdr', link, free', {}) && LiveOk(hdr', free', live[hdr[s].freeList := size]) && PagesOk(hdr', owner)
        && SlabsOnly(hdr', free')
      && PartsOk(hdr', free, partial, part) && (free[s][1..] != [] ==> PartsOk(hdr', free', partial, part))
  {
    hide SpansOk, PartsOk, LiveOk, PagesOk, IsSlot, Count, Small, SizeOf, Base;
    PartsShape(hdr, free, partial, part);
    OpenIsListed(hdr, free, partial, part, cls, s);
    assert s == part[cls][0] && Open(hdr, free, s);
    PopSpans(hdr, link, free, {s}, s);
    PopLive(hdr, link, free, live, s, size);
    PopParts(hdr, link, free, partial, part, s);
    PopRest(hdr, link, s, live, size, owner);
    assert {s} - {s} == {};
  }

  lemma PopRest(hdr: map<nat, Hdr>, link: map<nat, nat>, s: nat, live: map<nat, nat>, size: nat, owner: map<nat, nat>)
    requires s in hdr && hdr[s].Slab? && hdr[s].freeList in link && Base(hdr[s].freeList) == s
      && hdr[s].freeList !in live && PagesOk(hdr, owner)
    ensures PagesOk(Popped(hdr, link, s), owner)
    ensures |Small(Popped(hdr, link, s), live[hdr[s].freeList := size])| == |Small(hdr, live)| + 1
  {
    hide Base, Small;
    SmallAdded(hdr, Popped(hdr, link, s), live, hdr[s].freeList, size);
    PagesSame(hdr, Popped(hdr, link, s), owner);
  }

  lemma PagesSame(hdr: map<nat, Hdr>, hdr': map<nat, Hdr>, owner: map<nat, nat>)
    requires PagesOk(hdr, owner) && hdr'.Keys == hdr.Keys && forall s :: s in hdr ==>
      PagesOf(hdr'[s]) == PagesOf(hdr[s])
    ensures PagesOk(hdr', owner)
  {
    forall s, g: nat | s in hdr' && InSpan(s, hdr'[s], g)
      ensures g in owner && owner[g] == s
    {
      assert InSpan(s, hdr[s], g);
    }
    forall g | g in owner
      ensures owner[g] in hdr' && InSpan(owner[g], hdr'[owner[g]], g)
    {
      assert InSpan(owner[g], hdr[owner[g]], g);
    }
  }

  lemma AddLargeSpan(hdr: map<nat, Hdr>, link: map<nat, nat>, free: map<nat, seq<nat>>, s: nat, n: nat)
    requires SpansOk(hdr, link, free, {}) && s !in hdr && s != 0 && s % PG == 0 && n > 0
    ensures SpansOk(hdr[s := Large(n)], link, free, {})
  {
    hide FreeList, IsSlot, Count;
    var hdr' := hdr[s := Large(n)];
    forall t | t in hdr'
      ensures SpanOk(hdr', link, free, {}, t)
    {
      if t != s { assert SpanOk(hdr, link, free, {}, t); }
    }
  }

  // The pages asked for hold the header and size bytes exactly when the sum does not wrap.
  lemma LargeRoom(size: nat)
    requires MAX_SMALL < size < TWO64
    ensures size + HDR <= PagesFor(size) * PG <==> !Wraps(size)
  {}

  lemma EmptyList(link: map<nat, nat>)
    ensures FreeList(link, 0, [])
  {}

  lemma ListDistinct(link: map<nat, nat>, head: nat, q: seq<nat>)
    requires FreeList(link, head, q)
    ensures Distinct(q)
  {}

  lemma GrantAligned(owner: map<nat, nat>, s: nat, n: nat)
    requires Granted(owner, s, n) && s != 0
    ensures s % PG == 0 && n > 0
  {}

  lemma NewParts(hdr: map<nat, Hdr>, free: map<nat, seq<nat>>, partial: seq<nat>, part: seq<seq<nat>>, s: nat, h: Hdr)
    requires PartsOk(hdr, free, partial, part) && s !in hdr && s !in free
    ensures PartsOk(hdr[s := h], free, partial, part)
  {
    hide PartsOk;
    PartsSame(hdr, hdr[s := h], free, free, partial, part);
  }

  // ---- what holds of every reachable heap ------------------------------------------------------------------------

  // Where a live allocation lies: aligned, behind the header of its span, and inside the span when it did not wrap.
  lemma AllocationPlaced(hdr: map<nat, Hdr>, link: map<nat, nat>, free: map<nat, seq<nat>>, live: map<nat, nat>, p: nat)
    requires SpansOk(hdr, link, free, {}) && LiveOk(hdr, free, live) && p in live
    ensures p % 16 == 0 && Base(p) in hdr && Base(p) + HDR <= p
    ensures !Wraps(live[p]) ==> p + live[p] <= Base(p) + PagesOf(hdr[Base(p)]) * PG
  {
    hide IsSlot, FreeList, Count;
    var s := Base(p);
    assert LivePtr(hdr, free, p);
    assert Fits(hdr, p, live[p]);
    assert SpanOk(hdr, link, free, {}, s);
    if hdr[s].Slab? { SlotFacts(s, hdr[s].cls, p); }
  }

  // Spans do not overlap.
  lemma SpansApart(hdr: map<nat, Hdr>, owner: map<nat, nat>, s: nat, t: nat)
    requires PagesOk(hdr, owner) && s in hdr && t in hdr && s < t && s % PG == 0 && t % PG == 0
    ensures s + PagesOf(hdr[s]) * PG <= t
  {
    hide PagesOf;
    assert s == s / PG * PG && t == t / PG * PG;
    assert InSpan(t, hdr[t], t / PG);
    assert !InSpan(s, hdr[s], t / PG);
  }

  // Two live allocations share no byte, and neither touches a span header.
  lemma AllocationsApart(hdr: map<nat, Hdr>, link: map<nat, nat>, free: map<nat, seq<nat>>, live: map<nat, nat>,
                         owner: map<nat, nat>, p: nat, q: nat)
    requires SpansOk(hdr, link, free, {}) && LiveOk(hdr, free, live) && PagesOk(hdr, owner) && p in live && q in live
      && p < q && !Wraps(live[p])
    ensures p + live[p] <= q
  {
    hide IsSlot, FreeList, Count, Base, PagesOk, PagesOf;
    AllocationPlaced(hdr, link, free, live, p);
    AllocationPlaced(hdr, link, free, live, q);
    var s, t := Base(p), Base(q);
    assert LivePtr(hdr, free, p) && LivePtr(hdr, free, q);
    assert Fits(hdr, p, live[p]);
    assert SpanOk(hdr, link, free, {}, s) && SpanOk(hdr, link, free, {}, t);
    if s == t { SlotsApart(s, hdr[s].cls, p, q); } else { BaseOrder(p, q); SpansApart(hdr, owner, s, t); }
  }

  lemma BaseOrder(p: nat, q: nat)
    requires p < q
    ensures Base(p) <= Base(q)
  {}

  lemma HeadersClear(hdr: map<nat, Hdr>, link: map<nat, nat>, free: map<nat, seq<nat>>, live: map<nat, nat>,
                     owner: map<nat, nat>, p: nat, t: nat)
    requires SpansOk(hdr, link, free, {}) && LiveOk(hdr, free, live) && PagesOk(hdr, owner) && p in live && t in hdr
      && !Wraps(live[p])
    ensures p + live[p] <= t || t + HDR <= p
  {
    hide IsSlot, FreeList, Count, Base, PagesOk, PagesOf;
    AllocationPlaced(hdr, link, free, live, p);
    var s := Base(p);
    assert SpanOk(hdr, link, free, {}, s) && SpanOk(hdr, link, free, {}, t);
    if s < t { SpansApart(hdr, owner, s, t); }
  }

  // Every slot of a slab is live or on its free list, and not both; the list holds it once.
  lemma SlotLiveOrFree(hdr: map<nat, Hdr>, link: map<nat, nat>, free: map<nat, seq<nat>>, live: map<nat, nat>, s: nat,
                       p: nat)
    requires SpansOk(hdr, link, free, {}) && LiveOk(hdr, free, live) && s in hdr && hdr[s].Slab?
      && IsSlot(s, hdr[s].cls, p)
    ensures s in free && FreeList(link, hdr[s].freeList, free[s]) && Distinct(free[s]) && (p in live <==> p !in free[s])
  {
    hide IsSlot, Count;
    assert SpanOk(hdr, link, free, {}, s);
    SlotFacts(s, hdr[s].cls, p);
    assert p in live <==> LivePtr(hdr, free, p);
  }

  // No span is kept without a live allocation in it.
  lemma SpanHasLive(hdr: map<nat, Hdr>, link: map<nat, nat>, free: map<nat, seq<nat>>, live: map<nat, nat>, s: nat)
    requires SpansOk(hdr, link, free, {}) && LiveOk(hdr, free, live) && s in hdr
    ensures exists p :: p in live && Base(p) == s
  {
    hide IsSlot, FreeList, Count, Base;
    assert SpanOk(hdr, link, free, {}, s);
    if hdr[s].Slab? {
      IdleIff(hdr, link, free, {}, live, s);
    } else {
      HeaderBase(s);
      assert LivePtr(hdr, free, s + HDR);
    }
  }

  // Freeing everything returns every page.
  lemma AllFreed(hdr: map<nat, Hdr>, link: map<nat, nat>, free: map<nat, seq<nat>>, live: map<nat, nat>,
                 owner: map<nat, nat>)
    requires SpansOk(hdr, link, free, {}) && LiveOk(hdr, free, live) && PagesOk(hdr, owner) && live == map[]
    ensures hdr == map[] && owner == map[]
  {
    hide SpansOk, LiveOk, Base;
    forall s ensures s !in hdr { if s in hdr { SpanHasLive(hdr, link, free, live, s); } }
  }

  ghost function Follow(link: map<nat, nat>, p: nat, n: nat): nat {
    if n == 0 then p else var q := Follow(link, p, n - 1); if q in link then link[q] else 0
  }

  // An object pushed while it is on the list closes a cycle: following the list from it comes back to it.
  lemma DoubleFreeCycles(link: map<nat, nat>, head: nat, q: seq<nat>, p: nat)
    requires FreeList(link, head, q) && p in q
    ensures var link' := link[p := head]; exists n: nat :: 0 < n <= |q| && Follow(link', p, n) == p
  {
    var k :| 0 <= k < |q| && q[k] == p;
    FollowAt(link, head, q, p, k, k);
  }

  lemma {:induction false} FollowAt(link: map<nat, nat>, head: nat, q: seq<nat>, p: nat, k: nat, i: nat)
    requires FreeList(link, head, q) && k < |q| && q[k] == p && i <= k
    ensures Follow(link[p := head], p, i + 1) == q[i]
  {
    assert FreeLink(link, q, i);
    if i > 0 {
      FollowAt(link, head, q, p, k, i - 1);
      assert FreeLink(link, q, i - 1);
    } else {
      assert Follow(link[p := head], p, 0) == p;
    }
  }

  lemma HeaderBase(s: nat)
    requires s % PG == 0
    ensures Base(s + HDR) == s
  {}

  // An allocation of 2^64 - 1 bytes asks for one page and gets it.
  lemma WrappedIsSmall()
    ensures var size := TWO64 - 1;
      PagesFor(size) == 1 && Wraps(size) && Granted(map[], PG, PagesFor(size)) && size + HDR > PagesFor(size) * PG
  {}
}
