// ELF64 executables: what the validator accepts, and why the loader may rely on it.
module Elf {
  import opened Paging

  type byte = x: int | 0 <= x < 256

  const PG: nat := 4096
  const EHDR: nat := 64          // sizeof(struct elf64_ehdr)
  const PHDR: nat := 56          // sizeof(struct elf64_phdr)
  const PHNUM_MAX: nat := 16
  const TWO64: nat := 0x1_0000_0000_0000_0000
  const VA_LIMIT: nat := 0x8000_0000_0000   // USER_VA_LIMIT

  datatype ElfErr =
    | OK | ETRUNC | EMAGIC | ECLASS | EENDIAN | EVERSION | ETYPE | EMACHINE | EPHENTSIZE | EPHNUM | EPHOFF
    | ESEGFILE | ESEGSIZE | ESEGVA | ESEGALIGN | EOVERLAP | EWX | ENOLOAD | EENTRY | NOMEM

  // ---- 64-bit arithmetic --------------------------------------------------------------------------------------

  function Add64(a: nat, b: nat): nat { (a + b) % TWO64 }

  function PageDown(a: nat): nat { a - a % PG }

  function PageUp(a: nat): nat { PageDown(Add64(a, PG - 1)) }

  // ---- fields --------------------------------------------------------------------------------------------------

  // A little-endian field of n bytes.
  function Le(s: seq<byte>, off: nat, n: nat): nat
    requires off + n <= |s|
    decreases n
  {
    if n == 0 then 0 else s[off] + 256 * Le(s, off + 1, n - 1)
  }

  datatype Ehdr = Ehdr(typ: nat, machine: nat, version: nat, entry: nat, phoff: nat, phentsize: nat, phnum: nat)

  function EhdrOf(image: seq<byte>): Ehdr
    requires |image| >= EHDR
  {
    Ehdr(Le(image, 16, 2), Le(image, 18, 2), Le(image, 20, 4), Le(image, 24, 8), Le(image, 32, 8), Le(image, 54, 2),
      Le(image, 56, 2))
  }

  datatype Phdr = Phdr(load: bool, x: bool, w: bool, offset: nat, vaddr: nat, filesz: nat, memsz: nat)

  // The program header table lies inside the image.
  predicate TableIn(image: seq<byte>) {
    |image| >= EHDR && EhdrOf(image).phnum <= PHNUM_MAX && EhdrOf(image).phoff + EhdrOf(image).phnum * PHDR <= |image|
  }

  // elf64_phdr_get
  function PhdrAt(image: seq<byte>, i: nat): Phdr
    requires TableIn(image) && i < EhdrOf(image).phnum
  {
    var o := EhdrOf(image).phoff + i * PHDR;
    var flags := Le(image, o + 4, 4);
    Phdr(Le(image, o, 4) == 1, flags % 2 == 1, flags / 2 % 2 == 1, Le(image, o + 8, 8), Le(image, o + 16, 8),
      Le(image, o + 32, 8), Le(image, o + 40, 8))
  }

  // ---- what is accepted ------------------------------------------------------------------------------------------

  predicate Magic(image: seq<byte>) {
    |image| >= EHDR && image[0] == 0x7F && image[1] == 0x45 && image[2] == 0x4C && image[3] == 0x46
  }

  ghost predicate HeaderOk(image: seq<byte>) {
    && Magic(image) && image[4] == 2 && image[5] == 1 && image[6] == 1
    && var eh := EhdrOf(image);
       && eh.version == 1 && eh.typ == 2 && eh.machine == 62 && eh.phentsize == PHDR && 0 < eh.phnum <= PHNUM_MAX
       && TableIn(image)
  }

  predicate Loads(ph: Phdr) { ph.load && ph.memsz > 0 }

  // Never writable and executable; file bytes inside the image; memory inside the bounds; file
  // and memory congruent modulo the page size.
  ghost predicate SegOk(ph: Phdr, size: nat, vaMin: nat, vaLimit: nat) {
    ph.load ==>
      && !(ph.w && ph.x) && ph.filesz <= ph.memsz
      && (ph.memsz > 0 ==>
        && ph.offset + ph.filesz <= size
        && vaMin <= ph.vaddr && ph.vaddr + ph.memsz <= vaLimit
        && ph.vaddr % PG == ph.offset % PG)
  }

  // What a loadable header did to earn the error.
  ghost predicate SegFault(err: ElfErr, ph: Phdr, size: nat, vaMin: nat, vaLimit: nat) {
    && ph.load
    && (err == EWX ==> ph.w && ph.x)
    && (err == ESEGSIZE ==> ph.filesz > ph.memsz)
    && (err == ESEGFILE ==> ph.offset + ph.filesz > size)
    && (err == ESEGVA ==> ph.vaddr < vaMin || ph.vaddr + ph.memsz > vaLimit)
    && (err == ESEGALIGN ==> ph.vaddr % PG != ph.offset % PG)
    && err in {EWX, ESEGSIZE, ESEGFILE, ESEGVA, ESEGALIGN}
  }

  // What a file header did to earn the error.
  ghost predicate HeaderFault(err: ElfErr, image: seq<byte>) {
    && (err == ETRUNC <==> |image| < EHDR)
    && (err == EMAGIC ==> !Magic(image))
    && (err == ECLASS ==> Magic(image) && image[4] != 2)
    && (err == EENDIAN ==> Magic(image) && image[5] != 1)
    && (err == EVERSION ==> Magic(image) && (image[6] != 1 || EhdrOf(image).version != 1))
    && (err == ETYPE ==> |image| >= EHDR && EhdrOf(image).typ != 2)
    && (err == EMACHINE ==> |image| >= EHDR && EhdrOf(image).machine != 62)
    && (err == EPHENTSIZE ==> |image| >= EHDR && EhdrOf(image).phentsize != PHDR)
    && (err == EPHNUM ==> |image| >= EHDR && (EhdrOf(image).phnum == 0 || EhdrOf(image).phnum > PHNUM_MAX))
    && (err == EPHOFF ==> |image| >= EHDR && !TableIn(image))
    && err in {ETRUNC, EMAGIC, ECLASS, EENDIAN, EVERSION, ETYPE, EMACHINE, EPHENTSIZE, EPHNUM, EPHOFF}
  }

  // Header i is the first one to fail, and this is why.
  ghost predicate FirstFault(err: ElfErr, image: seq<byte>, vaMin: nat, vaLimit: nat, i: nat)
    requires TableIn(image)
  {
    i < EhdrOf(image).phnum && SegsOk(image, vaMin, vaLimit, i)
      && SegFault(err, PhdrAt(image, i), |image|, vaMin, vaLimit)
  }

  function SpanStart(ph: Phdr): nat { PageDown(ph.vaddr) }

  function SpanEnd(ph: Phdr): nat { PageUp(ph.vaddr + ph.memsz) }

  // The pages of two segments do not meet.
  predicate Clear(a: Phdr, b: Phdr) { !(SpanStart(a) < SpanEnd(b) && SpanStart(b) < SpanEnd(a)) }

  predicate EntryIn(ph: Phdr, entry: nat) { Loads(ph) && ph.x && ph.vaddr <= entry < ph.vaddr + ph.filesz }

  ghost predicate SegsOk(image: seq<byte>, vaMin: nat, vaLimit: nat, n: nat)
    requires TableIn(image) && n <= EhdrOf(image).phnum
  {
    && (forall i: nat :: i < n ==> SegOk(PhdrAt(image, i), |image|, vaMin, vaLimit))
    && (forall i: nat, j: nat :: i < j < n && Loads(PhdrAt(image, i)) && Loads(PhdrAt(image, j)) ==>
      Clear(PhdrAt(image, i), PhdrAt(image, j)))
  }

  ghost predicate Accepted(image: seq<byte>, vaMin: nat, vaLimit: nat) {
    && HeaderOk(image) && SegsOk(image, vaMin, vaLimit, EhdrOf(image).phnum)
    && HasEntry(image, EhdrOf(image).phnum)
  }

  // ---- the validator ---------------------------------------------------------------------------------------------

  // The header checks, each relying on the ones before it.
  method CheckHeader(image: seq<byte>) returns (err: ElfErr)
    ensures err == OK <==> HeaderOk(image)
    ensures err != OK ==> HeaderFault(err, image)
  {
    hide EhdrOf;
    if |image| < EHDR { return ETRUNC; }
    var eh := EhdrOf(image);
    if !Magic(image) { return EMAGIC; }
    if image[4] != 2 { return ECLASS; }
    if image[5] != 1 { return EENDIAN; }
    if image[6] != 1 || eh.version != 1 { return EVERSION; }
    if eh.typ != 2 { return ETYPE; }
    if eh.machine != 62 { return EMACHINE; }
    if eh.phentsize != PHDR { return EPHENTSIZE; }
    if eh.phnum == 0 || eh.phnum > PHNUM_MAX { return EPHNUM; }
    var bytes := eh.phnum * PHDR;
    if eh.phoff > |image| || bytes > |image| - eh.phoff { return EPHOFF; }
    err := OK;
  }

  // The checks on one PT_LOAD header, in the source's order.
  method CheckSegment(ph: Phdr, size: nat, vaMin: nat, vaLimit: nat) returns (err: ElfErr)
    requires ph.load
    ensures err == OK <==> SegOk(ph, size, vaMin, vaLimit)
    ensures err != OK ==> SegFault(err, ph, size, vaMin, vaLimit)
  {
    if ph.w && ph.x { return EWX; }
    if ph.filesz > ph.memsz { return ESEGSIZE; }
    if ph.memsz == 0 { return OK; }
    if ph.offset > size || ph.filesz > size - ph.offset { return ESEGFILE; }
    if ph.vaddr < vaMin || ph.vaddr >= vaLimit { return ESEGVA; }
    if ph.memsz > vaLimit - ph.vaddr { return ESEGVA; }
    if ph.vaddr % PG != ph.offset % PG { return ESEGALIGN; }
    err := OK;
  }

  // Spans of the loads among the first n headers, in order.
  ghost predicate Spans(image: seq<byte>, n: nat, idx: seq<nat>, starts: seq<nat>, ends: seq<nat>)
    requires TableIn(image) && n <= EhdrOf(image).phnum
  {
    && |idx| == |starts| == |ends| <= n
    && (forall k: nat :: k < |idx| ==>
      idx[k] < n && Loads(PhdrAt(image, idx[k])) && starts[k] == SpanStart(PhdrAt(image, idx[k]))
        && ends[k] == SpanEnd(PhdrAt(image, idx[k])))
    && (forall i: nat :: i < n && Loads(PhdrAt(image, i)) ==> i in idx)
  }

  ghost predicate HasEntry(image: seq<byte>, n: nat)
    requires TableIn(image) && n <= EhdrOf(image).phnum
  {
    exists k: nat :: k < n && EntryIn(PhdrAt(image, k), EhdrOf(image).entry)
  }

  ghost predicate Overlapping(image: seq<byte>)
    requires TableIn(image)
  {
    exists i: nat, j: nat ::
      i < j < EhdrOf(image).phnum && Loads(PhdrAt(image, i)) && Loads(PhdrAt(image, j))
        && !Clear(PhdrAt(image, i), PhdrAt(image, j))
  }

  // The loop over the program headers.
  method CheckSegments(image: seq<byte>, vaMin: nat, vaLimit: nat) returns (err: ElfErr, nloads: nat, entryOk: bool)
    requires HeaderOk(image)
    ensures err == OK <==> SegsOk(image, vaMin, vaLimit, EhdrOf(image).phnum)
    ensures err == EOVERLAP ==> Overlapping(image)
    ensures err == OK ==> (entryOk <==> HasEntry(image, EhdrOf(image).phnum))
    ensures err == OK ==> (nloads == 0 <==> forall i: nat :: i < EhdrOf(image).phnum ==> !Loads(PhdrAt(image, i)))
    ensures err !in {OK, EOVERLAP} ==> exists i: nat :: FirstFault(err, image, vaMin, vaLimit, i)
    ensures err in {OK, EWX, ESEGSIZE, ESEGFILE, ESEGVA, ESEGALIGN, EOVERLAP}
  {
    hide EhdrOf, PhdrAt, SegOk, Clear, SpanStart, SpanEnd, TableIn, SegsOk, Spans, HasEntry, Overlapping, Loads;
    var eh := EhdrOf(image);
    var starts: seq<nat>, ends: seq<nat> := [], [];
    ghost var idx: seq<nat> := [];
    entryOk, nloads := false, 0;
    var i: nat := 0;
    NoneYet(image, vaMin, vaLimit);
    while i < eh.phnum
      invariant i <= eh.phnum && SegsOk(image, vaMin, vaLimit, i) && Spans(image, i, idx, starts, ends)
        && |starts| == |ends| == nloads
      invariant entryOk <==> HasEntry(image, i)
    {
      var ph := PhdrAt(image, i);
      if ph.load {
        err := CheckSegment(ph, |image|, vaMin, vaLimit);
        if err != OK {
          BadSegment(image, vaMin, vaLimit, i);
          assert FirstFault(err, image, vaMin, vaLimit, i);
          return;
        }
      }
      EntryNext(image, i);
      if Loads(ph) {
        var start, end := SpanStart(ph), SpanEnd(ph);
        var clash := Overlaps(starts, ends, start, end);
        NoClash(image, i, idx, starts, ends, clash);
        if clash { Clash(image, vaMin, vaLimit, i); return EOVERLAP, nloads, entryOk; }
        SpansNext(image, i, idx, starts, ends);
        starts, ends, idx := starts + [start], ends + [end], idx + [i];
        nloads := nloads + 1;
        if EntryIn(ph, eh.entry) { entryOk := true; }
      } else {
        SpansSkip(image, i, idx, starts, ends);
      }
      NotLoad(ph, |image|, vaMin, vaLimit);
      SegsNext(image, vaMin, vaLimit, i);
      i := i + 1;
    }
    CountLoads(image, idx, starts, ends);
    err := OK;
  }

  // elf64_validate: it accepts exactly the images that satisfy Accepted.
  method Validate(image: seq<byte>, vaMin: nat, vaLimit: nat) returns (err: ElfErr, entry: nat, phnum: nat)
    ensures (err == OK <==> Accepted(image, vaMin, vaLimit)) && err != NOMEM
    ensures err == OK ==> entry == EhdrOf(image).entry && phnum == EhdrOf(image).phnum
    ensures err == ENOLOAD ==> HeaderOk(image) && forall i: nat :: i < EhdrOf(image).phnum ==> !Loads(PhdrAt(image, i))
    ensures err == EENTRY ==> HeaderOk(image) && !HasEntry(image, EhdrOf(image).phnum)
    ensures err == EOVERLAP ==> HeaderOk(image) && Overlapping(image)
    ensures err in {EWX, ESEGSIZE, ESEGFILE, ESEGVA, ESEGALIGN} ==>
      HeaderOk(image) && exists i: nat :: FirstFault(err, image, vaMin, vaLimit, i)
    ensures err !in {OK, ENOLOAD, EENTRY, EOVERLAP, EWX, ESEGSIZE, ESEGFILE, ESEGVA, ESEGALIGN} ==>
      HeaderFault(err, image)
  {
    hide EhdrOf, PhdrAt, SegsOk, TableIn, Overlapping;
    entry, phnum := 0, 0;
    err := CheckHeader(image);
    if err != OK { return; }
    var nloads, entryOk;
    err, nloads, entryOk := CheckSegments(image, vaMin, vaLimit);
    if err != OK { return; }
    if nloads == 0 { return ENOLOAD, entry, phnum; }
    if !entryOk { return EENTRY, entry, phnum; }
    entry, phnum := EhdrOf(image).entry, EhdrOf(image).phnum;
  }

  lemma NoneYet(image: seq<byte>, vaMin: nat, vaLimit: nat)
    requires TableIn(image)
    ensures SegsOk(image, vaMin, vaLimit, 0) && Spans(image, 0, [], [], []) && !HasEntry(image, 0)
  {}

  lemma BadSegment(image: seq<byte>, vaMin: nat, vaLimit: nat, i: nat)
    requires TableIn(image) && i < EhdrOf(image).phnum && !SegOk(PhdrAt(image, i), |image|, vaMin, vaLimit)
    ensures !SegsOk(image, vaMin, vaLimit, EhdrOf(image).phnum)
  {}

  lemma Clash(image: seq<byte>, vaMin: nat, vaLimit: nat, i: nat)
    requires TableIn(image) && i < EhdrOf(image).phnum && Loads(PhdrAt(image, i))
    requires exists k: nat :: k < i && Loads(PhdrAt(image, k)) && !Clear(PhdrAt(image, k), PhdrAt(image, i))
    ensures Overlapping(image) && !SegsOk(image, vaMin, vaLimit, EhdrOf(image).phnum)
  {
    hide PhdrAt, Clear;
  }

  lemma SegsNext(image: seq<byte>, vaMin: nat, vaLimit: nat, i: nat)
    requires TableIn(image) && i < EhdrOf(image).phnum && SegsOk(image, vaMin, vaLimit, i)
      && SegOk(PhdrAt(image, i), |image|, vaMin, vaLimit)
    requires Loads(PhdrAt(image, i)) ==> !exists k: nat ::
      k < i && Loads(PhdrAt(image, k)) && !Clear(PhdrAt(image, k), PhdrAt(image, i))
    ensures SegsOk(image, vaMin, vaLimit, i + 1)
  {
    hide PhdrAt, Clear, SegOk;
  }

  lemma EntryNext(image: seq<byte>, i: nat)
    requires TableIn(image) && i < EhdrOf(image).phnum
    ensures HasEntry(image, i + 1) <==> HasEntry(image, i) || EntryIn(PhdrAt(image, i), EhdrOf(image).entry)
    ensures EntryIn(PhdrAt(image, i), EhdrOf(image).entry) ==> Loads(PhdrAt(image, i))
  {
    hide PhdrAt;
  }

  lemma SpansNext(image: seq<byte>, i: nat, idx: seq<nat>, starts: seq<nat>, ends: seq<nat>)
    requires TableIn(image) && i < EhdrOf(image).phnum && Spans(image, i, idx, starts, ends) && Loads(PhdrAt(image, i))
    ensures Spans(image, i + 1, idx + [i], starts + [SpanStart(PhdrAt(image, i))], ends + [SpanEnd(PhdrAt(image, i))])
  {
    hide PhdrAt, SpanStart, SpanEnd;
  }

  lemma SpansSkip(image: seq<byte>, i: nat, idx: seq<nat>, starts: seq<nat>, ends: seq<nat>)
    requires TableIn(image) && i < EhdrOf(image).phnum && Spans(image, i, idx, starts, ends) && !Loads(PhdrAt(image, i))
    ensures Spans(image, i + 1, idx, starts, ends)
  {
    hide PhdrAt, SpanStart, SpanEnd;
  }

  lemma CountLoads(image: seq<byte>, idx: seq<nat>, starts: seq<nat>, ends: seq<nat>)
    requires TableIn(image) && Spans(image, EhdrOf(image).phnum, idx, starts, ends)
    ensures |starts| == 0 <==> forall i: nat :: i < EhdrOf(image).phnum ==> !Loads(PhdrAt(image, i))
  {
    hide PhdrAt, SpanStart, SpanEnd;
    if |starts| > 0 { assert Loads(PhdrAt(image, idx[0])); }
  }

  lemma NotLoad(ph: Phdr, size: nat, vaMin: nat, vaLimit: nat)
    ensures !ph.load ==> SegOk(ph, size, vaMin, vaLimit)
  {}

  // The pairwise overlap check against the loads seen so far.
  method Overlaps(starts: seq<nat>, ends: seq<nat>, start: nat, end: nat) returns (clash: bool)
    requires |starts| == |ends|
    ensures clash <==> exists j: nat :: j < |starts| && start < ends[j] && starts[j] < end
  {
    var j := 0;
    while j < |starts|
      invariant j <= |starts| && forall k: nat :: k < j ==> !(start < ends[k] && starts[k] < end)
    {
      if start < ends[j] && starts[j] < end { return true; }
      j := j + 1;
    }
    clash := false;
  }

  lemma NoClash(image: seq<byte>, i: nat, idx: seq<nat>, starts: seq<nat>, ends: seq<nat>, clash: bool)
    requires TableIn(image) && i < EhdrOf(image).phnum && Spans(image, i, idx, starts, ends)
    requires clash <==> exists j: nat ::
      j < |starts| && SpanStart(PhdrAt(image, i)) < ends[j] && starts[j] < SpanEnd(PhdrAt(image, i))
    ensures clash <==> exists k: nat :: k < i && Loads(PhdrAt(image, k)) && !Clear(PhdrAt(image, k), PhdrAt(image, i))
  {
    hide PhdrAt, SpanStart, SpanEnd;
    if clash {
      var j: nat :| j < |starts| && SpanStart(PhdrAt(image, i)) < ends[j] && starts[j] < SpanEnd(PhdrAt(image, i));
      assert !Clear(PhdrAt(image, idx[j]), PhdrAt(image, i));
    }
    if k: nat :| k < i && Loads(PhdrAt(image, k)) && !Clear(PhdrAt(image, k), PhdrAt(image, i)) {
      var j: nat :| j < |idx| && idx[j] == k;
      assert SpanStart(PhdrAt(image, i)) < ends[j] && starts[j] < SpanEnd(PhdrAt(image, i));
    }
  }

  // ---- the loader --------------------------------------------------------------------------------------------------

  // Nothing the loader computes on an accepted segment overflows, and its pages are whole and
  // inside the bounds.
  lemma SpanFacts(ph: Phdr, size: nat)
    requires SegOk(ph, size, PG, VA_LIMIT) && Loads(ph)
    ensures Add64(ph.vaddr, ph.memsz) == ph.vaddr + ph.memsz && Add64(ph.vaddr, ph.filesz) == ph.vaddr + ph.filesz
    ensures SpanStart(ph) % PG == 0 && SpanEnd(ph) % PG == 0 && PG <= SpanStart(ph) <= ph.vaddr < SpanStart(ph) + PG
    ensures ph.vaddr + ph.memsz <= SpanEnd(ph) < ph.vaddr + ph.memsz + PG && SpanEnd(ph) <= VA_LIMIT
  {}

  // Page pv belongs to segment j.
  ghost predicate PageOf(image: seq<byte>, j: nat, pv: nat)
    requires TableIn(image)
  {
    j < EhdrOf(image).phnum && Loads(PhdrAt(image, j)) && pv % PG == 0
      && SpanStart(PhdrAt(image, j)) <= pv < SpanEnd(PhdrAt(image, j))
  }

  // File bytes where the segment has them, zeros elsewhere.
  ghost function PageBytes(image: seq<byte>, ph: Phdr, pv: nat): Bytes
    requires ph.offset + ph.filesz <= |image|
  {
    seq(PG, k requires 0 <= k < PG => if ph.vaddr <= pv + k < ph.vaddr +
      ph.filesz then image[ph.offset + (pv + k - ph.vaddr)] else 0)
  }

  // What page pv of segment j must look like.
  ghost function Want(image: seq<byte>, j: nat, pv: nat): View
    requires TableIn(image) && j < EhdrOf(image).phnum
  {
    var ph := PhdrAt(image, j);
    if ph.offset + ph.filesz <= |image| then Mapped(true, ph.w, !ph.x, PageBytes(image, ph, pv)) else Unmapped
  }

  // fill_page into a zeroed frame.
  method FillPage(image: seq<byte>, ph: Phdr, page: nat) returns (dst: Bytes)
    requires SegOk(ph, |image|, PG, VA_LIMIT) && Loads(ph) && page <= VA_LIMIT
    ensures dst == PageBytes(image, ph, page)
  {
    hide SegOk;
    SegFacts(ph, |image|);
    SpanFacts(ph, |image|);
    dst := seq<int>(PG, k => 0);
    var lo := if page > ph.vaddr then page else ph.vaddr;
    var fileEnd := Add64(ph.vaddr, ph.filesz);
    var hi := if Add64(page, PG) < fileEnd then Add64(page, PG) else fileEnd;
    if hi > lo {
      var i := lo;
      while i < hi
        invariant lo <= i <= hi && |dst| == PG
        invariant forall k :: 0 <= k < PG ==>
          dst[k] == if lo <= page + k < i then image[ph.offset + (page + k - ph.vaddr)] else 0
      {
        dst := dst[i - page := image[ph.offset + (i - ph.vaddr)]];
        i := i + 1;
      }
    }
  }

  lemma SegFacts(ph: Phdr, size: nat)
    requires SegOk(ph, size, PG, VA_LIMIT) && Loads(ph)
    ensures ph.offset + ph.filesz <= size && ph.filesz <= ph.memsz && !(ph.w && ph.x) && PG <= ph.vaddr
      && ph.vaddr + ph.memsz <= VA_LIMIT
  {}

  // Segments before i, and the pages of segment i below page.
  ghost predicate Before(i: nat, page: nat, j: nat, pv: nat) { j < i || (j == i && pv < page) }

  // Exactly the pages loaded so far are mapped, each as it must be.
  ghost predicate LoadedTo(m: Mmu, a: AddrSpace, image: seq<byte>, i: nat, page: nat)
    requires TableIn(image)
    reads m, a
  {
    && (forall j: nat, pv: nat :: PageOf(image, j, pv) && Before(i, page, j, pv) ==>
      m.Page(a, PathOf(pv)) == Want(image, j, pv))
    && (forall q :: m.Page(a, q) != Unmapped ==> exists j: nat, pv: nat ::
      PageOf(image, j, pv) && Before(i, page, j, pv) && q == PathOf(pv))
  }

  lemma UserAddress(virt: nat)
    requires virt < VA_LIMIT
    ensures IndexAt(virt, 4) < USER
  {
    var vpn := virt / PAGE;
    assert vpn < 0x8_0000_0000;
    assert vpn / 134217728 < 256;
  }

  // Two pages of an accepted image with one path are one page of one segment.
  lemma OnePage(image: seq<byte>, i: nat, page: nat, j: nat, pv: nat)
    requires TableIn(image) && SegsOk(image, PG, VA_LIMIT, EhdrOf(image).phnum)
    requires PageOf(image, i, page) && PageOf(image, j, pv) && PathOf(pv) == PathOf(page)
    ensures i == j && pv == page
  {
    hide PhdrAt, EhdrOf, IndexAt, SegOk, PathOf, SpanStart, SpanEnd;
    SpanFacts(PhdrAt(image, i), |image|);
    SpanFacts(PhdrAt(image, j), |image|);
    PathInjective(pv, page);
    assert pv == page;
  }

  // One page of segment i.  The assertion that mapping it cannot fail other than for memory holds.
  method LoadPage(m: Mmu, a: AddrSpace, image: seq<byte>, i: nat, page: nat) returns (err: ElfErr)
    requires m.Sound(a) && a.limit == USER && TableIn(image) && SegsOk(image, PG, VA_LIMIT, EhdrOf(image).phnum)
    requires PageOf(image, i, page) && LoadedTo(m, a, image, i, page)
    modifies m, m.pool, a`at
    ensures m.Sound(a) && m.Stock(a) == old(m.Stock(a)) && err in {OK, NOMEM} && (err == NOMEM ==> m.Exhausted())
    ensures err == OK ==> LoadedTo(m, a, image, i, page + PG)
  {
    hide PhdrAt, EhdrOf, IndexAt, SegOk, PathOf, Wf, Leaf, m.Page, m.Sound, SpanStart, SpanEnd, TableIn, PageBytes;
    var ph := PhdrAt(image, i);
    SegFacts(ph, |image|);
    SpanFacts(ph, |image|);
    UserAddress(page);
    var content := FillPage(image, ph, page);
    ghost var q := PathOf(page);
    NotYet(m, a, image, i, page);
    var rc := m.AddPage(a, page, content, ph.w, !ph.x);
    if rc == PErr.ENOMEM { return NOMEM; }
    assert rc == POK;
    forall j: nat, pv: nat | PageOf(image, j, pv) && Before(i, page + PG, j, pv)
      ensures m.Page(a, PathOf(pv)) == Want(image, j, pv) {
      if PathOf(pv) == q { OnePage(image, i, page, j, pv); } else if j == i { AlignedBelow(page, pv); }
    }
    forall r | m.Page(a, r) != Unmapped ensures exists j: nat, pv: nat ::
      PageOf(image, j, pv) && Before(i, page + PG, j, pv) && r == PathOf(pv) {
      if r == q {
        assert Before(i, page + PG, i, page);
      } else {
        var j: nat, pv: nat :| PageOf(image, j, pv) && Before(i, page, j, pv) && r == PathOf(pv);
        assert Before(i, page + PG, j, pv);
      }
    }
    err := OK;
  }

  lemma AlignedBelow(page: nat, pv: nat)
    requires page % PG == 0 && pv % PG == 0 && pv < page + PG
    ensures pv <= page
  {}

  lemma NotYet(m: Mmu, a: AddrSpace, image: seq<byte>, i: nat, page: nat)
    requires TableIn(image) && SegsOk(image, PG, VA_LIMIT, EhdrOf(image).phnum) && PageOf(image, i, page)
      && LoadedTo(m, a, image, i, page)
    ensures m.Page(a, PathOf(page)) == Unmapped
  {
    hide PhdrAt, EhdrOf, IndexAt, SegOk, PathOf, m.Page, SpanStart, SpanEnd;
    if m.Page(a, PathOf(page)) != Unmapped {
      var j: nat, pv: nat :| PageOf(image, j, pv) && Before(i, page, j, pv) && PathOf(page) == PathOf(pv);
      OnePage(image, i, page, j, pv);
    }
  }

  // Every page of segment i.
  method LoadSegment(m: Mmu, a: AddrSpace, image: seq<byte>, i: nat) returns (err: ElfErr)
    requires m.Sound(a) && a.limit == USER && TableIn(image) && SegsOk(image, PG, VA_LIMIT, EhdrOf(image).phnum)
    requires i < EhdrOf(image).phnum && Loads(PhdrAt(image, i)) && LoadedTo(m, a, image, i, 0)
    modifies m, m.pool, a`at
    ensures m.Sound(a) && m.Stock(a) == old(m.Stock(a)) && err in {OK, NOMEM} && (err == NOMEM ==> m.Exhausted())
    ensures err == OK ==> LoadedTo(m, a, image, i + 1, 0)
  {
    hide PhdrAt, EhdrOf, SegOk, m.Sound, LoadedTo, Loads;
    var ph := PhdrAt(image, i);
    SpanFacts(ph, |image|);
    var segEnd := Add64(ph.vaddr, ph.memsz);
    var page := PageDown(ph.vaddr);
    LoadedStart(m, a, image, i, page);
    while page < segEnd
      invariant m.Sound(a) && m.Stock(a) == old(m.Stock(a)) && page % PG == 0 && SpanStart(ph) <= page <= SpanEnd(ph)
      invariant LoadedTo(m, a, image, i, page)
      decreases segEnd - page
    {
      PageInside(ph, |image|, page);
      err := LoadPage(m, a, image, i, page);
      if err != OK { return; }
      page := Add64(page, PG);
    }
    LoadedEnd(m, a, image, i, page);
    err := OK;
  }

  lemma PageInside(ph: Phdr, size: nat, page: nat)
    requires SegOk(ph, size, PG, VA_LIMIT) && Loads(ph) && page % PG == 0 && SpanStart(ph) <= page < ph.vaddr + ph.memsz
    ensures page + PG <= SpanEnd(ph) && Add64(page, PG) == page + PG && (page + PG) % PG == 0
  {
    SpanFacts(ph, size);
  }

  lemma LoadedStart(m: Mmu, a: AddrSpace, image: seq<byte>, i: nat, page: nat)
    requires TableIn(image) && i < EhdrOf(image).phnum && LoadedTo(m, a, image, i, 0)
      && page == SpanStart(PhdrAt(image, i))
    ensures LoadedTo(m, a, image, i, page)
  {
    hide PhdrAt, EhdrOf, PathOf, m.Page;
    forall r | m.Page(a, r) != Unmapped ensures exists j: nat, pv: nat ::
      PageOf(image, j, pv) && Before(i, page, j, pv) && r == PathOf(pv) {
      var j: nat, pv: nat :| PageOf(image, j, pv) && Before(i, 0, j, pv) && r == PathOf(pv);
      assert Before(i, page, j, pv);
    }
  }

  lemma LoadedEnd(m: Mmu, a: AddrSpace, image: seq<byte>, i: nat, page: nat)
    requires TableIn(image) && i < EhdrOf(image).phnum && LoadedTo(m, a, image, i, page)
    requires Loads(PhdrAt(image, i)) && SegOk(PhdrAt(image, i), |image|, PG, VA_LIMIT)
    requires page % PG == 0 && page >= PhdrAt(image, i).vaddr + PhdrAt(image, i).memsz
    ensures LoadedTo(m, a, image, i + 1, 0)
  {
    hide PhdrAt, EhdrOf, PathOf, m.Page;
    SpanFacts(PhdrAt(image, i), |image|);
    forall j: nat, pv: nat | PageOf(image, j, pv) && Before(i + 1, 0, j, pv) ensures Before(i, page, j, pv) {
      if j == i { AlignedBelow(SpanEnd(PhdrAt(image, i)) - PG, pv); }
    }
    forall r | m.Page(a, r) != Unmapped ensures exists j: nat, pv: nat ::
      PageOf(image, j, pv) && Before(i + 1, 0, j, pv) && r == PathOf(pv) {
      var j: nat, pv: nat :| PageOf(image, j, pv) && Before(i, page, j, pv) && r == PathOf(pv);
      assert Before(i + 1, 0, j, pv);
    }
  }

  lemma LoadedSkip(m: Mmu, a: AddrSpace, image: seq<byte>, i: nat)
    requires TableIn(image) && i < EhdrOf(image).phnum && LoadedTo(m, a, image, i, 0) && !Loads(PhdrAt(image, i))
    ensures LoadedTo(m, a, image, i + 1, 0)
  {
    hide PhdrAt, EhdrOf, PathOf, m.Page;
    forall r | m.Page(a, r) != Unmapped ensures exists j: nat, pv: nat ::
      PageOf(image, j, pv) && Before(i + 1, 0, j, pv) && r == PathOf(pv) {
      var j: nat, pv: nat :| PageOf(image, j, pv) && Before(i, 0, j, pv) && r == PathOf(pv);
      assert Before(i + 1, 0, j, pv);
    }
  }

  // elf64_load into an empty user half: on success the mapped pages are exactly the pages of the
  // loadable segments, with their bytes and permissions.
  method Load(m: Mmu, a: AddrSpace, image: seq<byte>) returns (err: ElfErr, entry: nat)
    requires m.Sound(a) && a.limit == USER && forall q :: m.Page(a, q) == Unmapped
    modifies m, m.pool, a`at
    ensures m.Sound(a) && m.Stock(a) == old(m.Stock(a))
    ensures err == OK || err == NOMEM <==> Accepted(image, PG, VA_LIMIT)
    ensures err == NOMEM ==> m.Exhausted()
    ensures err !in {OK, NOMEM} ==> m.Now() == old(m.Now()) && a.at == old(a.at)
    ensures err == OK ==> LoadedTo(m, a, image, EhdrOf(image).phnum, 0) && entry == EhdrOf(image).entry
  {
    hide PhdrAt, EhdrOf, SegOk, m.Sound, Loads, m.Page;
    var phnum;
    err, entry, phnum := Validate(image, PG, VA_LIMIT);
    if err != OK { return; }
    var i := 0;
    while i < phnum
      invariant i <= phnum && err == OK && m.Sound(a) && m.Stock(a) == old(m.Stock(a)) && LoadedTo(m, a, image, i, 0)
    {
      if Loads(PhdrAt(image, i)) {
        err := LoadSegment(m, a, image, i);
        if err != OK { return; }
      } else {
        LoadedSkip(m, a, image, i);
      }
      i := i + 1;
    }
  }

  // After a successful load no page is both writable and executable, and the entry point is a
  // file byte in an executable page.
  lemma LoadedIsSafe(m: Mmu, a: AddrSpace, image: seq<byte>)
    requires Accepted(image, PG, VA_LIMIT) && LoadedTo(m, a, image, EhdrOf(image).phnum, 0)
    ensures forall q :: m.Page(a, q).Mapped? ==> !(m.Page(a, q).write && !m.Page(a, q).nx)
    ensures var entry := EhdrOf(image).entry;
      exists k: nat :: k < EhdrOf(image).phnum && EntryIn(PhdrAt(image, k), entry)
        && var ph := PhdrAt(image, k); var v := m.Page(a, PathOf(PageDown(entry)));
           ph.offset + ph.filesz <= |image| && v.Mapped? && !v.nx && |v.content| == PG
             && v.content[entry % PG] == image[ph.offset + (entry - ph.vaddr)]
  {
    hide PhdrAt, EhdrOf, PathOf, m.Page;
    var n, entry := EhdrOf(image).phnum, EhdrOf(image).entry;
    forall q | m.Page(a, q).Mapped? ensures !(m.Page(a, q).write && !m.Page(a, q).nx) {
      var j: nat, pv: nat :| PageOf(image, j, pv) && Before(n, 0, j, pv) && q == PathOf(pv);
      SegFacts(PhdrAt(image, j), |image|);
    }
    var k: nat :| k < n && EntryIn(PhdrAt(image, k), entry);
    var ph := PhdrAt(image, k);
    SegFacts(ph, |image|);
    EntryPage(image, ph, entry);
    assert PageOf(image, k, PageDown(entry)) && Before(n, 0, k, PageDown(entry));
  }

  lemma EntryPage(image: seq<byte>, ph: Phdr, entry: nat)
    requires SegOk(ph, |image|, PG, VA_LIMIT) && EntryIn(ph, entry)
    ensures PageDown(entry) % PG == 0 && SpanStart(ph) <= PageDown(entry) < SpanEnd(ph)
      && ph.offset + ph.filesz <= |image|
    ensures PageBytes(image, ph, PageDown(entry))[entry % PG] == image[ph.offset + (entry - ph.vaddr)]
  {
    SpanFacts(ph, |image|);
  }
}
