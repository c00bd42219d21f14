// The ELF-64 file format, written out: what the validator and the loader make of the bytes of a file whose headers are
// laid down field by field.
module ElfFormat {
  import opened Paging
  import opened Elf

  const PT_LOAD: nat := 1
  const PF_X: nat := 1
  const PF_W: nat := 2
  const ET_EXEC: nat := 2
  const EM_X86_64: nat := 62

  // ---- fields ---------------------------------------------------------------------------------------------

  function Pow256(n: nat): nat { if n == 0 then 1 else 256 * Pow256(n - 1) }

  // v in n bytes, least significant first.
  function Field(v: nat, n: nat): (s: seq<byte>)
    ensures |s| == n
  {
    if n == 0 then [] else [v % 256] + Field(v / 256, n - 1)
  }

  lemma {:induction false} LeReadsField(s: seq<byte>, off: nat, v: nat, n: nat)
    requires off + n <= |s| && s[off..off + n] == Field(v, n) && v < Pow256(n)
    ensures Le(s, off, n) == v
    decreases n
  {
    if n > 0 {
      var f := s[off..off + n];
      assert s[off] == f[0] == v % 256;
      assert s[off + 1..off + n] == f[1..] == Field(v / 256, n - 1);
      LeReadsField(s, off + 1, v / 256, n - 1);
    }
  }

  // Every n bytes are the field of the number they are read as.
  lemma {:induction false} FieldOfLe(s: seq<byte>, off: nat, n: nat)
    requires off + n <= |s|
    ensures Field(Le(s, off, n), n) == s[off..off + n] && Le(s, off, n) < Pow256(n)
    decreases n
  {
    if n > 0 {
      FieldOfLe(s, off + 1, n - 1);
      var rest := Le(s, off + 1, n - 1);
      assert Le(s, off, n) % 256 == s[off] && Le(s, off, n) / 256 == rest;
      assert s[off..off + n] == [s[off]] + s[off + 1..off + n];
    }
  }

  // ---- headers -------------------------------------------------------------------------------------------

  // struct elf64_phdr; x and w are two bits of p_flags and rest the others.
  datatype ProgramHeader = ProgramHeader(typ: nat, x: bool, w: bool, rest: nat, offset: nat, vaddr: nat, paddr: nat,
    filesz: nat, memsz: nat, align: nat)

  function FlagBits(h: ProgramHeader): nat {
    (if h.x then PF_X else 0) + (if h.w then PF_W else 0) + 4 * h.rest
  }

  predicate PhFits(h: ProgramHeader) {
    && h.typ < Pow256(4) && FlagBits(h) < Pow256(4) && h.offset < Pow256(8) && h.vaddr < Pow256(8)
    && h.paddr < Pow256(8) && h.filesz < Pow256(8) && h.memsz < Pow256(8) && h.align < Pow256(8)
  }

  function PhBytes(h: ProgramHeader): (s: seq<byte>)
    ensures |s| == PHDR
  {
    Field(h.typ, 4) + Field(FlagBits(h), 4) + Field(h.offset, 8) + Field(h.vaddr, 8) + Field(h.paddr, 8)
    + Field(h.filesz, 8) + Field(h.memsz, 8) + Field(h.align, 8)
  }

  lemma PhLayout(h: ProgramHeader)
    ensures var s := PhBytes(h);
      && s[0..4] == Field(h.typ, 4) && s[4..8] == Field(FlagBits(h), 4) && s[8..16] == Field(h.offset, 8)
      && s[16..24] == Field(h.vaddr, 8) && s[32..40] == Field(h.filesz, 8) && s[40..48] == Field(h.memsz, 8)
  {
    hide Field, FlagBits;
  }

  // struct elf64_ehdr.
  datatype FileHeader = FileHeader(ident: seq<byte>, typ: nat, machine: nat, version: nat, entry: nat, phoff: nat,
    shoff: nat, flags: nat, ehsize: nat, phentsize: nat, phnum: nat, shentsize: nat, shnum: nat, shstrndx: nat)

  predicate EhFits(h: FileHeader) {
    && |h.ident| == 16
    && h.typ < Pow256(2) && h.machine < Pow256(2) && h.version < Pow256(4)
    && h.entry < Pow256(8) && h.phoff < Pow256(8) && h.phentsize < Pow256(2) && h.phnum < Pow256(2)
  }

  function EhBytes(h: FileHeader): (s: seq<byte>)
    requires |h.ident| == 16
    ensures |s| == EHDR
  {
    h.ident + Field(h.typ, 2) + Field(h.machine, 2) + Field(h.version, 4) + Field(h.entry, 8) + Field(h.phoff, 8)
    + Field(h.shoff, 8) + Field(h.flags, 4) + Field(h.ehsize, 2) + Field(h.phentsize, 2) + Field(h.phnum, 2)
    + Field(h.shentsize, 2) + Field(h.shnum, 2) + Field(h.shstrndx, 2)
  }

  lemma EhLayout(h: FileHeader)
    requires |h.ident| == 16
    ensures var s := EhBytes(h);
      && s[..16] == h.ident && s[16..18] == Field(h.typ, 2) && s[18..20] == Field(h.machine, 2)
      && s[20..24] == Field(h.version, 4) && s[24..32] == Field(h.entry, 8) && s[32..40] == Field(h.phoff, 8)
      && s[54..56] == Field(h.phentsize, 2) && s[56..58] == Field(h.phnum, 2)
  {
    hide Field;
  }

  lemma SliceOfSlice(s: seq<byte>, o: nat, n: nat, lo: nat, hi: nat)
    requires o + n <= |s| && lo <= hi <= n
    ensures s[o..o + n][lo..hi] == s[o + lo..o + hi]
  {
    var t := s[o..o + n];
    assert forall k :: lo <= k < hi ==> t[k] == s[o + k];
  }

  lemma SubField(s: seq<byte>, o: nat, n: nat, lo: nat, v: nat, w: nat)
    requires o + n <= |s| && lo + w <= n && s[o..o + n][lo..lo + w] == Field(v, w) && v < Pow256(w)
    ensures Le(s, o + lo, w) == v
  {
    SliceOfSlice(s, o, n, lo, lo + w);
    LeReadsField(s, o + lo, v, w);
  }

  // A program header in the file is read back field by field.
  lemma PhRoundTrip(image: seq<byte>, i: nat, h: ProgramHeader)
    requires TableIn(image) && i < EhdrOf(image).phnum && PhFits(h)
    requires var o := EhdrOf(image).phoff + i * PHDR; image[o..o + PHDR] == PhBytes(h)
    ensures PhdrAt(image, i) == Phdr(h.typ == PT_LOAD, h.x, h.w, h.offset, h.vaddr, h.filesz, h.memsz)
  {
    hide Le, EhdrOf, Field, Pow256, PhBytes;
    var o := EhdrOf(image).phoff + i * PHDR;
    PhLayout(h);
    SubField(image, o, PHDR, 0, h.typ, 4);
    SubField(image, o, PHDR, 4, FlagBits(h), 4);
    SubField(image, o, PHDR, 8, h.offset, 8);
    SubField(image, o, PHDR, 16, h.vaddr, 8);
    SubField(image, o, PHDR, 32, h.filesz, 8);
    SubField(image, o, PHDR, 40, h.memsz, 8);
  }

  // So is the file header.
  lemma EhRoundTrip(image: seq<byte>, h: FileHeader)
    requires |image| >= EHDR && EhFits(h) && image[..EHDR] == EhBytes(h)
    ensures EhdrOf(image) == Ehdr(h.typ, h.machine, h.version, h.entry, h.phoff, h.phentsize, h.phnum)
    ensures image[..16] == h.ident
  {
    hide Le, Field, Pow256, EhBytes;
    EhLayout(h);
    assert image[0..0 + EHDR] == image[..EHDR];
    SliceOfSlice(image, 0, EHDR, 0, 16);
    SubField(image, 0, EHDR, 16, h.typ, 2);
    SubField(image, 0, EHDR, 18, h.machine, 2);
    SubField(image, 0, EHDR, 20, h.version, 4);
    SubField(image, 0, EHDR, 24, h.entry, 8);
    SubField(image, 0, EHDR, 32, h.phoff, 8);
    SubField(image, 0, EHDR, 54, h.phentsize, 2);
    SubField(image, 0, EHDR, 56, h.phnum, 2);
  }

  // ---- which files are accepted ----------------------------------------------------------------------------

  // The file holds these headers.
  ghost predicate Holds(image: seq<byte>, eh: FileHeader, phs: seq<ProgramHeader>) {
    && EhFits(eh) && eh.phnum == |phs| && |image| >= EHDR && image[..EHDR] == EhBytes(eh)
    && (|phs| <= PHNUM_MAX && eh.phoff + |phs| * PHDR <= |image| ==> forall i: nat :: i < |phs| ==>
      PhFits(phs[i]) && image[eh.phoff + i * PHDR..eh.phoff + i * PHDR + PHDR] == PhBytes(phs[i]))
  }

  // The headers any 56 and any 64 bytes are.
  function PhIn(image: seq<byte>, o: nat): ProgramHeader
    requires o + PHDR <= |image|
  {
    var flags := Le(image, o + 4, 4);
    ProgramHeader(Le(image, o, 4), flags % 2 == 1, flags / 2 % 2 == 1, flags / 4, Le(image, o + 8, 8),
      Le(image, o + 16, 8), Le(image, o + 24, 8), Le(image, o + 32, 8), Le(image, o + 40, 8), Le(image, o + 48, 8))
  }

  lemma Glued(s: seq<byte>, a: nat, b: nat, c: nat)
    requires a <= b <= c <= |s|
    ensures s[a..b] + s[b..c] == s[a..c]
  {}

  lemma PhOfBytes(image: seq<byte>, o: nat)
    requires o + PHDR <= |image|
    ensures PhFits(PhIn(image, o)) && image[o..o + PHDR] == PhBytes(PhIn(image, o))
  {
    hide Le, Field, Pow256;
    assert FlagBits(PhIn(image, o)) == Le(image, o + 4, 4);
    FieldOfLe(image, o, 4);
    FieldOfLe(image, o + 4, 4);
    FieldOfLe(image, o + 8, 8);
    FieldOfLe(image, o + 16, 8);
    FieldOfLe(image, o + 24, 8);
    FieldOfLe(image, o + 32, 8);
    FieldOfLe(image, o + 40, 8);
    FieldOfLe(image, o + 48, 8);
    Glued(image, o, o + 4, o + 8);
    Glued(image, o, o + 8, o + 16);
    Glued(image, o, o + 16, o + 24);
    Glued(image, o, o + 24, o + 32);
    Glued(image, o, o + 32, o + 40);
    Glued(image, o, o + 40, o + 48);
    Glued(image, o, o + 48, o + 56);
  }

  function EhIn(image: seq<byte>): FileHeader
    requires |image| >= EHDR
  {
    FileHeader(image[..16], Le(image, 16, 2), Le(image, 18, 2), Le(image, 20, 4), Le(image, 24, 8), Le(image, 32, 8),
      Le(image, 40, 8), Le(image, 48, 4), Le(image, 52, 2), Le(image, 54, 2), Le(image, 56, 2), Le(image, 58, 2),
      Le(image, 60, 2), Le(image, 62, 2))
  }

  lemma EhOfBytes(image: seq<byte>)
    requires |image| >= EHDR
    ensures EhFits(EhIn(image)) && image[..EHDR] == EhBytes(EhIn(image))
  {
    hide Le, Field, Pow256;
    FieldOfLe(image, 16, 2);
    FieldOfLe(image, 18, 2);
    FieldOfLe(image, 20, 4);
    FieldOfLe(image, 24, 8);
    FieldOfLe(image, 32, 8);
    FieldOfLe(image, 40, 8);
    FieldOfLe(image, 48, 4);
    FieldOfLe(image, 52, 2);
    FieldOfLe(image, 54, 2);
    FieldOfLe(image, 56, 2);
    FieldOfLe(image, 58, 2);
    FieldOfLe(image, 60, 2);
    FieldOfLe(image, 62, 2);
    assert image[..EHDR] == image[..16] + image[16..18] + image[18..20] + image[20..24] + image[24..32] + image[32..40]
      + image[40..48] + image[48..52] + image[52..54] + image[54..56] + image[56..58] + image[58..60] + image[60..62]
      + image[62..64];
  }

  // Every file that is long enough holds some headers, so the laws below speak of all of them.
  lemma EveryFile(image: seq<byte>) returns (eh: FileHeader, phs: seq<ProgramHeader>)
    requires |image| >= EHDR
    ensures Holds(image, eh, phs)
  {
    hide Le, EhBytes, PhBytes, PhFits, PhIn;
    eh := EhIn(image);
    EhOfBytes(image);
    var n, o := eh.phnum, eh.phoff;
    if n <= PHNUM_MAX && o + n * PHDR <= |image| {
      phs := seq(n, i requires 0 <= i < n => PhIn(image, o + i * PHDR));
      forall i: nat | i < n ensures PhFits(phs[i])
          && image[o + i * PHDR..o + i * PHDR + PHDR] == PhBytes(phs[i]) {
        PhOfBytes(image, o + i * PHDR);
      }
    } else {
      phs := seq(n, i => ProgramHeader(0, false, false, 0, 0, 0, 0, 0, 0, 0));
    }
  }

  predicate Covers(h: ProgramHeader, va: nat) { h.typ == PT_LOAD && h.vaddr <= va < h.vaddr + h.memsz }

  ghost predicate SegmentGood(h: ProgramHeader, size: nat, vaMin: nat, vaLimit: nat) {
    && !(h.w && h.x) && h.filesz <= h.memsz
    && (h.memsz > 0 ==> h.offset + h.filesz <= size && h.offset % PG == h.vaddr % PG)
    && forall va: nat :: Covers(h, va) ==> vaMin <= va < vaLimit
  }

  // Told address by address: a static x86-64 executable whose segments lie inside the bounds and inside the file, are
  // not both writable and executable and share no page, and whose entry is a file byte of an executable one.
  ghost predicate Good(eh: FileHeader, phs: seq<ProgramHeader>, size: nat, vaMin: nat, vaLimit: nat) {
    && HeaderGood(eh, |phs|, size)
    && (forall i: nat :: i < |phs| && phs[i].typ == PT_LOAD ==> SegmentGood(phs[i], size, vaMin, vaLimit))
    && (forall i: nat, j: nat :: i < j < |phs| ==> SharesNoPage(phs[i], phs[j]))
    && exists i: nat :: i < |phs| && phs[i].x && Covers(phs[i], eh.entry) && eh.entry < phs[i].vaddr + phs[i].filesz
  }

  ghost predicate SharesNoPage(a: ProgramHeader, b: ProgramHeader) {
    forall va: nat, vb: nat :: Covers(a, va) && Covers(b, vb) ==> va / PG != vb / PG
  }

  predicate HeaderGood(eh: FileHeader, n: nat, size: nat) {
    && |eh.ident| == 16 && eh.ident[..7] == [0x7F, 0x45, 0x4C, 0x46, 2, 1, 1]
    && eh.version == 1 && eh.typ == ET_EXEC && eh.machine == EM_X86_64 && eh.phentsize == PHDR
    && 0 < n <= PHNUM_MAX && eh.phoff + n * PHDR <= size
  }

  function Decoded(h: ProgramHeader): Phdr {
    Phdr(h.typ == PT_LOAD, h.x, h.w, h.offset, h.vaddr, h.filesz, h.memsz)
  }

  lemma HeaderAccepted(image: seq<byte>, eh: FileHeader, phs: seq<ProgramHeader>)
    requires Holds(image, eh, phs)
    ensures HeaderOk(image) <==> HeaderGood(eh, |phs|, |image|)
    ensures EhdrOf(image).phnum == |phs| && EhdrOf(image).entry == eh.entry
    ensures HeaderOk(image) ==> forall i: nat :: i < |phs| ==> PhdrAt(image, i) == Decoded(phs[i])
  {
    hide EhdrOf, PhdrAt, EhBytes, PhBytes, PhFits, EhFits;
    EhFacts(eh);
    EhRoundTrip(image, eh);
    var s := eh.ident;
    assert forall k :: 0 <= k < 7 ==> image[k] == s[k] == s[..7][k];
    if image[0] == 0x7F && image[1] == 0x45 && image[2] == 0x4C && image[3] == 0x46 && image[4] == 2 && image[5] == 1
      && image[6] == 1 {
      assert s[..7] == [0x7F, 0x45, 0x4C, 0x46, 2, 1, 1];
    }
    if HeaderOk(image) {
      forall i: nat | i < |phs| ensures PhdrAt(image, i) == Decoded(phs[i]) { PhRoundTrip(image, i, phs[i]); }
    }
  }

  lemma EhFacts(eh: FileHeader)
    requires EhFits(eh)
    ensures |eh.ident| == 16
  {}

  lemma SegmentAccepted(h: ProgramHeader, size: nat, vaMin: nat, vaLimit: nat)
    ensures SegOk(Decoded(h), size, vaMin, vaLimit) <==> (h.typ == PT_LOAD ==> SegmentGood(h, size, vaMin, vaLimit))
  {
    if h.typ == PT_LOAD && h.memsz > 0 {
      assert Covers(h, h.vaddr) && Covers(h, h.vaddr + h.memsz - 1);
    }
  }

  // The rounded span in whole pages, from the page of the first address to that of the last.
  lemma SpanPages(h: ProgramHeader)
    requires h.memsz > 0 && h.vaddr + h.memsz + PG <= TWO64
    ensures SpanStart(Decoded(h)) == PG * (h.vaddr / PG)
    ensures SpanEnd(Decoded(h)) == PG * ((h.vaddr + h.memsz - 1) / PG + 1)
  {}

  lemma ApartAccepted(a: ProgramHeader, b: ProgramHeader)
    requires a.memsz > 0 && b.memsz > 0 && a.typ == b.typ == PT_LOAD
    requires a.vaddr + a.memsz + PG <= TWO64 && b.vaddr + b.memsz + PG <= TWO64
    ensures Clear(Decoded(a), Decoded(b)) <==> SharesNoPage(a, b)
  {
    SpanPages(a);
    SpanPages(b);
    hide SpanStart, SpanEnd;
    var a0, a1, b0, b1 := a.vaddr / PG, (a.vaddr + a.memsz - 1) / PG, b.vaddr / PG, (b.vaddr + b.memsz - 1) / PG;
    if a0 <= b1 && b0 <= a1 {
      var p := if a0 > b0 then a0 else b0;
      var va := InPage(a, p);
      var vb := InPage(b, p);
      assert Covers(a, va) && Covers(b, vb);
    } else {
      forall va: nat, vb: nat | Covers(a, va) && Covers(b, vb) ensures va / PG != vb / PG {
        PageBetween(a, va);
        PageBetween(b, vb);
      }
    }
  }

  lemma PageBetween(h: ProgramHeader, va: nat)
    requires Covers(h, va)
    ensures h.vaddr / PG <= va / PG <= (h.vaddr + h.memsz - 1) / PG
  {}

  lemma InPage(h: ProgramHeader, p: nat) returns (va: nat)
    requires h.typ == PT_LOAD && h.memsz > 0 && h.vaddr / PG <= p <= (h.vaddr + h.memsz - 1) / PG
    ensures Covers(h, va) && va / PG == p
  {
    va := if p == h.vaddr / PG then h.vaddr else p * PG;
  }

  // The validator accepts exactly the good files.
  lemma AcceptedIsGood(image: seq<byte>, eh: FileHeader, phs: seq<ProgramHeader>, vaMin: nat, vaLimit: nat)
    requires Holds(image, eh, phs) && vaLimit % PG == 0 && vaLimit < TWO64
    ensures Accepted(image, vaMin, vaLimit) <==> Good(eh, phs, |image|, vaMin, vaLimit)
  {
    hide EhdrOf, PhdrAt, SegOk, SegmentGood, Holds, HeaderGood, Clear, SharesNoPage;
    HeaderAccepted(image, eh, phs);
    if HeaderOk(image) {
      var n := |phs|;
      forall i: nat | i < n ensures SegOk(PhdrAt(image, i), |image|, vaMin, vaLimit) <==>
          (phs[i].typ == PT_LOAD ==> SegmentGood(phs[i], |image|, vaMin, vaLimit)) {
        SegmentAccepted(phs[i], |image|, vaMin, vaLimit);
      }
      if forall i: nat :: i < n ==> SegOk(PhdrAt(image, i), |image|, vaMin, vaLimit) {
        forall i: nat, j: nat | i < j < n ensures SharesNoPage(phs[i], phs[j]) <==>
            (Loads(PhdrAt(image, i)) && Loads(PhdrAt(image, j)) ==> Clear(PhdrAt(image, i), PhdrAt(image, j))) {
          PairAccepted(phs[i], phs[j], |image|, vaMin, vaLimit);
        }
        forall i: nat | i < n ensures EntryIn(PhdrAt(image, i), eh.entry) <==>
            phs[i].x && Covers(phs[i], eh.entry) && eh.entry < phs[i].vaddr + phs[i].filesz {
          EntryAccepted(phs[i], |image|, vaMin, vaLimit, eh.entry);
        }
        assert HasEntry(image, n) <==> exists i: nat ::
          i < n && phs[i].x && Covers(phs[i], eh.entry) && eh.entry < phs[i].vaddr + phs[i].filesz;
      }
    }
  }

  lemma PairAccepted(a: ProgramHeader, b: ProgramHeader, size: nat, vaMin: nat, vaLimit: nat)
    requires SegOk(Decoded(a), size, vaMin, vaLimit) && SegOk(Decoded(b), size, vaMin, vaLimit)
    requires vaLimit % PG == 0 && vaLimit < TWO64
    ensures SharesNoPage(a, b) <==> (Loads(Decoded(a)) && Loads(Decoded(b)) ==> Clear(Decoded(a), Decoded(b)))
  {
    if Loads(Decoded(a)) && Loads(Decoded(b)) { ApartAccepted(a, b); }
  }

  lemma EntryAccepted(h: ProgramHeader, size: nat, vaMin: nat, vaLimit: nat, entry: nat)
    requires SegOk(Decoded(h), size, vaMin, vaLimit)
    ensures EntryIn(Decoded(h), entry) <==> h.x && Covers(h, entry) && entry < h.vaddr + h.filesz
  {}

  // ---- what a loaded file looks like ---------------------------------------------------------------------------

  // Byte by byte: every address of a segment is readable by the user, writable and executable exactly as its header
  // says, and holds the file's byte or, behind the file's bytes, zero.
  lemma LoadedAsWritten(m: Mmu, a: AddrSpace, image: seq<byte>, eh: FileHeader, phs: seq<ProgramHeader>, i: nat,
                        va: nat)
    requires Holds(image, eh, phs) && Accepted(image, PG, VA_LIMIT) && LoadedTo(m, a, image, EhdrOf(image).phnum, 0)
    requires i < |phs| && Covers(phs[i], va)
    ensures var h, v := phs[i], m.Page(a, PathOf(va));
      && v.Mapped? && v.user && (v.write <==> h.w) && (v.nx <==> !h.x) && |v.content| == PG
      && h.offset + h.filesz <= |image|
      && v.content[va % PG] == if va - h.vaddr < h.filesz then image[h.offset + (va - h.vaddr)] else 0
  {
    hide EhdrOf, PhdrAt, PathOf, m.Page, Holds, SegOk, SpanStart, SpanEnd;
    HeaderAccepted(image, eh, phs);
    var ph := PhdrAt(image, i);
    assert ph == Decoded(phs[i]) && SegOk(ph, |image|, PG, VA_LIMIT) && Loads(ph);
    SegFacts(ph, |image|);
    SpanFacts(ph, |image|);
    var pv := PageDown(va);
    AddressPage(ph, |image|, va);
    assert PageOf(image, i, pv) && Before(EhdrOf(image).phnum, 0, i, pv);
    SamePage(va);
  }

  lemma AddressPage(ph: Phdr, size: nat, va: nat)
    requires SegOk(ph, size, PG, VA_LIMIT) && Loads(ph) && ph.vaddr <= va < ph.vaddr + ph.memsz
    ensures PageDown(va) % PG == 0 && SpanStart(ph) <= PageDown(va) < SpanEnd(ph)
  {
    SpanFacts(ph, size);
  }

  lemma SamePage(va: nat)
    ensures PathOf(PageDown(va)) == PathOf(va) && PageDown(va) + va % PG == va
  {
    assert PageDown(va) / PAGE == va / PAGE;
  }

  // And nothing else is mapped: every page that is holds an address of some segment.
  lemma MappedIsWritten(m: Mmu, a: AddrSpace, image: seq<byte>, eh: FileHeader, phs: seq<ProgramHeader>, q: Loc)
      returns (i: nat, va: nat)
    requires Holds(image, eh, phs) && Accepted(image, PG, VA_LIMIT) && LoadedTo(m, a, image, EhdrOf(image).phnum, 0)
    requires m.Page(a, q) != Unmapped
    ensures i < |phs| && Covers(phs[i], va) && q == PathOf(va)
  {
    hide EhdrOf, PhdrAt, PathOf, m.Page, Holds, SegOk, SpanStart, SpanEnd;
    HeaderAccepted(image, eh, phs);
    var pv: nat;
    i, pv :| PageOf(image, i, pv) && Before(EhdrOf(image).phnum, 0, i, pv) && q == PathOf(pv);
    var ph := PhdrAt(image, i);
    assert SegOk(ph, |image|, PG, VA_LIMIT);
    SpanFacts(ph, |image|);
    va := if pv < ph.vaddr then ph.vaddr else pv;
    if pv < ph.vaddr { PageStart(ph.vaddr, pv); } else { LastPage(ph, |image|, pv); }
    SamePage(va);
  }

  lemma PageStart(va: nat, pv: nat)
    requires pv % PG == 0 && PageDown(va) <= pv < va
    ensures PageDown(va) == pv
  {}

  lemma LastPage(ph: Phdr, size: nat, pv: nat)
    requires SegOk(ph, size, PG, VA_LIMIT) && Loads(ph) && pv % PG == 0 && ph.vaddr <= pv < SpanEnd(ph)
    ensures pv < ph.vaddr + ph.memsz && PageDown(pv) == pv
  {
    SpanFacts(ph, size);
  }
}
