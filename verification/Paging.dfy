// Four-level page tables as a flat map from pages to frames, with every frame owned once.
//
// A location is the list of table indices that leads to it: [] is the root table, three indices
// name a leaf table and four name a page.
module Paging {
  import opened Pmm
  import Counting

  const ENTRIES: nat := 512
  const USER: nat := 256      // root slots of the lower half

  type Loc = seq<nat>
  type Bytes = seq<int>

  datatype Entry = Entry(present: bool, frame: nat, user: bool, write: bool, nx: bool, large: bool)
  const ABSENT := Entry(false, 0, false, false, false, false)

  datatype PErr = POK | EALIGN | ENOMEM | EEXIST

  function Blank(): (t: seq<Entry>)
    ensures |t| == ENTRIES && forall i :: 0 <= i < ENTRIES ==> t[i] == ABSENT
  {
    seq(ENTRIES, i => ABSENT)
  }

  function Up(p: Loc): Loc
    requires p != []
  {
    p[..|p| - 1]
  }

  function Last(p: Loc): nat
    requires p != []
  {
    p[|p| - 1]
  }

  lemma UpLast(p: Loc, i: nat)
    ensures Up(p + [i]) == p && Last(p + [i]) == i
  {}

  // Slots of the table at p that belong to this tree.
  function Slots(limit: nat, p: Loc): nat { if p == [] then limit else ENTRIES }

  ghost predicate LocOk(at: map<Loc, nat>, limit: nat, p: Loc)
    requires p in at
  {
    && |p| <= 4 && at[p] != 0
    && (p != [] ==> Last(p) < Slots(limit, Up(p)) && Up(p) in at)
  }

  // Slot i of the table at p holds what is at p + [i], and nothing when that is absent.
  ghost predicate SlotOk(tables: map<nat, seq<Entry>>, at: map<Loc, nat>, p: Loc, i: nat)
    requires p in at
  {
    && at[p] in tables && |tables[at[p]]| == ENTRIES && i < ENTRIES
    && var e := tables[at[p]][i];
       && (e.present <==> p + [i] in at)
       && (e.present ==> e.frame == at[p + [i]] && !e.large)
  }

  // The entry that leads to location p.
  ghost function EntryAt(tables: map<nat, seq<Entry>>, at: map<Loc, nat>, p: Loc): Entry {
    if p != [] && Up(p) in at && at[Up(p)] in tables && Last(p) < |tables[at[Up(p)]]| then tables[at[Up(p)]][Last(p)]
    else ABSENT
  }

  // The entry at p lets the walk through: above a page it forbids nothing but user access, and user access only when
  // nothing below it is for the user.
  ghost predicate PassOk(tables: map<nat, seq<Entry>>, at: map<Loc, nat>, p: Loc) {
    && (0 < |p| < 4 ==> EntryAt(tables, at, p).write && !EntryAt(tables, at, p).nx)
    && (|p| >= 2 && EntryAt(tables, at, p).user ==> EntryAt(tables, at, Up(p)).user)
  }

  ghost predicate AllPass(tables: map<nat, seq<Entry>>, at: map<Loc, nat>) {
    forall p {:trigger PassOk(tables, at, p)} :: p in at ==> PassOk(tables, at, p)
  }

  // The tables in memory are exactly the tree at.
  ghost predicate Wf(tables: map<nat, seq<Entry>>, at: map<Loc, nat>, limit: nat) {
    && [] in at && 0 < limit <= ENTRIES
    && (forall p {:trigger LocOk(at, limit, p)} :: p in at ==> LocOk(at, limit, p))
    && (forall p, q :: p in at && q in at && at[p] == at[q] ==> p == q)
    && (forall p, i: nat {:trigger SlotOk(tables, at, p, i)} :: p in at && |p| < 4 && i < Slots(limit, p) ==>
      SlotOk(tables, at, p, i))
    && AllPass(tables, at)
  }

  // What the processor grants at a page: every entry of the walk has a say in user and write access, and any one of
  // them can forbid execution.
  ghost predicate GrantsUser(tables: map<nat, seq<Entry>>, at: map<Loc, nat>, q: Loc)
    decreases |q|
  {
    q == [] || (EntryAt(tables, at, q).user && GrantsUser(tables, at, Up(q)))
  }

  ghost predicate GrantsWrite(tables: map<nat, seq<Entry>>, at: map<Loc, nat>, q: Loc)
    decreases |q|
  {
    q == [] || (EntryAt(tables, at, q).write && GrantsWrite(tables, at, Up(q)))
  }

  ghost predicate ForbidsExec(tables: map<nat, seq<Entry>>, at: map<Loc, nat>, q: Loc)
    decreases |q|
  {
    q != [] && (EntryAt(tables, at, q).nx || ForbidsExec(tables, at, Up(q)))
  }

  // The leaf entry decides.
  lemma {:induction false} LeafDecides(tables: map<nat, seq<Entry>>, at: map<Loc, nat>, limit: nat, q: Loc)
    requires Wf(tables, at, limit) && q in at && q != []
    ensures GrantsUser(tables, at, q) <==> EntryAt(tables, at, q).user
    ensures GrantsWrite(tables, at, q) <==> EntryAt(tables, at, q).write
    ensures ForbidsExec(tables, at, q) <==> EntryAt(tables, at, q).nx
    decreases |q|
  {
    hide EntryAt;
    assert LocOk(at, limit, q) && PassOk(tables, at, q);
    if |q| >= 2 {
      assert PassOk(tables, at, Up(q));
      LeafDecides(tables, at, limit, Up(q));
    } else {
      assert Up(q) == [];
    }
  }

  lemma LeafEntry(tables: map<nat, seq<Entry>>, at: map<Loc, nat>, q: Loc)
    requires |q| == 4 && q in at
    ensures Leaf(tables, at, q) == EntryAt(tables, at, q)
  {
    assert Up(q) == q[..3];
  }

  // Entries that lead to locations of the tree are what they were.
  lemma PassSame(tables: map<nat, seq<Entry>>, tables': map<nat, seq<Entry>>, at: map<Loc, nat>, limit: nat)
    requires Wf(tables, at, limit)
    requires forall p {:trigger EntryAt(tables', at, p)} :: p in at && p != [] ==>
      EntryAt(tables', at, p) == EntryAt(tables, at, p)
    ensures AllPass(tables', at)
  {
    hide EntryAt;
    forall p | p in at ensures PassOk(tables', at, p) {
      assert LocOk(at, limit, p) && PassOk(tables, at, p);
      if |p| >= 2 { assert EntryAt(tables', at, Up(p)) == EntryAt(tables, at, Up(p)); }
    }
  }

  // The entry to c is new, or has become a user entry below user entries.
  lemma PassAdded(tables: map<nat, seq<Entry>>, tables': map<nat, seq<Entry>>, at: map<Loc, nat>, at': map<Loc, nat>,
                  limit: nat, c: Loc)
    requires Wf(tables, at, limit) && c != [] && Up(c) in at && at'.Keys == at.Keys + {c}
    requires forall p {:trigger EntryAt(tables', at', p)} :: p in at && p != [] && p != c ==>
      EntryAt(tables', at', p) == EntryAt(tables, at, p)
    requires |c| < 4 ==> EntryAt(tables', at', c).write && !EntryAt(tables', at', c).nx
    requires EntryAt(tables', at', c).user && |c| >= 2 ==> EntryAt(tables, at, Up(c)).user
    requires c in at ==> EntryAt(tables', at', c).user
    ensures AllPass(tables', at')
  {
    hide EntryAt;
    forall p | p in at' ensures PassOk(tables', at', p) {
      if p != c {
        assert LocOk(at, limit, p) && PassOk(tables, at, p);
        if |p| >= 2 && Up(p) != c { assert EntryAt(tables', at', Up(p)) == EntryAt(tables, at, Up(p)); }
      } else if |c| >= 2 {
        assert EntryAt(tables', at', Up(c)) == EntryAt(tables, at, Up(c));
      }
    }
  }

  // The flat map: what a page maps to.
  ghost function Leaf(tables: map<nat, seq<Entry>>, at: map<Loc, nat>, q: Loc): Entry {
    if |q| == 4 && q in at && q[..3] in at && at[q[..3]] in tables
      && q[3] < |tables[at[q[..3]]]| then tables[at[q[..3]]][q[3]] else ABSENT
  }

  // ---- changes to one table ------------------------------------------------------------------------------------

  // A slot of a table above the leaves is rewritten without changing what it points at.
  lemma FlagsKept(tables: map<nat, seq<Entry>>, at: map<Loc, nat>, limit: nat, p: Loc, i: nat, e: Entry)
    requires Wf(tables, at, limit) && p in at && |p| < 3 && i < Slots(limit, p) && SlotOk(tables, at, p, i)
    requires tables[at[p]][i].present && e == tables[at[p]][i].(user := true)
    requires p != [] ==> EntryAt(tables, at, p).user
    ensures var tables' := tables[at[p] := tables[at[p]][i := e]];
      Wf(tables', at, limit) && forall q :: Leaf(tables', at, q) == Leaf(tables, at, q)
  {
    var tables' := tables[at[p] := tables[at[p]][i := e]];
    forall q, j: nat | q in at && |q| < 4 && j < Slots(limit, q) ensures SlotOk(tables', at, q, j) {
      assert SlotOk(tables, at, q, j);
    }
    forall q ensures Leaf(tables', at, q) == Leaf(tables, at, q) {
      if |q| == 4 && q in at && q[..3] in at { assert at[q[..3]] != at[p]; }
    }
    UpLast(p, i);
    assert at.Keys == at.Keys + {p + [i]};
    assert PassOk(tables, at, p + [i]);
    forall q | q in at && q != [] && q != p + [i] ensures EntryAt(tables', at, q) == EntryAt(tables, at, q) {
      SplitLoc(q);
      assert LocOk(at, limit, q) && (at[Up(q)] == at[p] ==> Up(q) == p);
    }
    PassAdded(tables, tables', at, at, limit, p + [i]);
  }

  lemma SplitLoc(q: Loc)
    requires q != []
    ensures q == Up(q) + [Last(q)]
  {}

  // A fresh frame f goes to the empty location p + [i]: a blank table above the leaves, or a page.
  ghost predicate Vacant(tables: map<nat, seq<Entry>>, at: map<Loc, nat>, limit: nat, p: Loc, i: nat, f: nat) {
    && Wf(tables, at, limit) && p in at && |p| < 4 && i < Slots(limit, p) && p + [i] !in at
    && f != 0 && f !in at.Values
  }

  lemma TableAdded(tables: map<nat, seq<Entry>>, at: map<Loc, nat>, limit: nat, p: Loc, i: nat, f: nat, e: Entry)
    requires Vacant(tables, at, limit, p, i, f) && |p| < 3 && e.present && e.frame == f && !e.large
      && SlotOk(tables, at, p, i)
    requires e.write && !e.nx && (e.user && p != [] ==> EntryAt(tables, at, p).user)
    ensures var tables' := tables[f := Blank()][at[p] := tables[at[p]][i := e]];
      var at' := at[p + [i] := f];
      Wf(tables', at', limit) && forall q :: |q| == 4 ==>
        (q in at' <==> q in at) && Leaf(tables', at', q) == Leaf(tables, at, q)
  {
    var tables' := tables[f := Blank()][at[p] := tables[at[p]][i := e]];
    var at' := at[p + [i] := f];
    UpLast(p, i);
    assert f != at[p];
    forall q | q in at' ensures LocOk(at', limit, q) { assert q in at ==> LocOk(at, limit, q); }
    forall q, j: nat | q in at' && |q| < 4 && j < Slots(limit, q) ensures SlotOk(tables', at', q, j) {
      UpLast(q, j);
      if q in at {
        assert SlotOk(tables, at, q, j);
        assert at[q] == at[p] ==> q == p;
        assert q + [j] == p + [i] <==> q == p && j == i by { UpLast(p, i); }
      } else {
        NoOrphan(at, limit, p + [i], j);
      }
    }
    forall q | |q| == 4 ensures (q in at' <==> q in at) && Leaf(tables', at', q) == Leaf(tables, at, q) {
      assert q != p + [i];
      if q in at {
        assert LocOk(at, limit, q);
        assert q[..3] == Up(q) && at[q[..3]] != at[p];
      }
    }
    EntriesKept(tables, tables', at, at', limit, p, i, f);
    PassAdded(tables, tables', at, at', limit, p + [i]);
  }

  // Filling slot i of the table at p changes no other entry of the tree.
  lemma EntriesKept(tables: map<nat, seq<Entry>>, tables': map<nat, seq<Entry>>, at: map<Loc, nat>, at': map<Loc, nat>,
                    limit: nat, p: Loc, i: nat, f: nat)
    requires Vacant(tables, at, limit, p, i, f) && SlotOk(tables, at, p, i) && at' == at[p + [i] := f]
    requires at[p] in tables' && |tables'[at[p]]| == ENTRIES
    requires forall j :: 0 <= j < ENTRIES && j != i ==> tables'[at[p]][j] == tables[at[p]][j]
    requires forall t :: t in tables && t != at[p] && t != f ==> t in tables' && tables'[t] == tables[t]
    ensures EntryAt(tables', at', p + [i]) == tables'[at[p]][i] && Up(p + [i]) == p && at'.Keys == at.Keys + {p + [i]}
    ensures forall q {:trigger EntryAt(tables', at', q)} :: q in at && q != [] && q != p + [i] ==>
      EntryAt(tables', at', q) == EntryAt(tables, at, q)
  {
    UpLast(p, i);
    forall q {:trigger EntryAt(tables', at', q)} | q in at && q != [] && q != p + [i]
      ensures EntryAt(tables', at', q) == EntryAt(tables, at, q)
    {
      SplitLoc(q);
      assert LocOk(at, limit, q) && (at[Up(q)] == at[p] ==> Up(q) == p);
      assert at[Up(q)] in at.Values && Up(q) != p + [i];
      assert |Up(q)| < 4 && SlotOk(tables, at, Up(q), Last(q));
    }
  }

  // Nothing lies below a location that is not there.
  lemma NoOrphan(at: map<Loc, nat>, limit: nat, p: Loc, j: nat)
    requires p !in at && forall q {:trigger LocOk(at, limit, q)} :: q in at ==> LocOk(at, limit, q)
    ensures p + [j] !in at
  {
    UpLast(p, j);
    assert p + [j] in at ==> LocOk(at, limit, p + [j]);
  }

  lemma PageAdded(tables: map<nat, seq<Entry>>, at: map<Loc, nat>, limit: nat, p: Loc, i: nat, f: nat, e: Entry)
    requires Vacant(tables, at, limit, p, i, f) && |p| == 3 && e.present && e.frame == f && !e.large
      && SlotOk(tables, at, p, i)
    requires e.user ==> EntryAt(tables, at, p).user
    ensures var tables' := tables[at[p] := tables[at[p]][i := e]];
      var at' := at[p + [i] := f];
      && Wf(tables', at', limit) && Leaf(tables', at', p + [i]) == e
      && forall q :: |q| == 4 && q != p + [i] ==>
        (q in at' <==> q in at) && Leaf(tables', at', q) == Leaf(tables, at, q)
  {
    var tables' := tables[at[p] := tables[at[p]][i := e]];
    var at' := at[p + [i] := f];
    UpLast(p, i);
    forall q | q in at' ensures LocOk(at', limit, q) { assert q in at ==> LocOk(at, limit, q); }
    forall q, j: nat | q in at' && |q| < 4 && j < Slots(limit, q) ensures SlotOk(tables', at', q, j) {
      UpLast(q, j);
      assert q in at;
      assert SlotOk(tables, at, q, j);
      assert at[q] == at[p] ==> q == p;
    }
    forall q | |q| == 4 && q != p + [i]
      ensures (q in at' <==> q in at) && Leaf(tables', at', q) == Leaf(tables, at, q) {
      if q in at {
        assert LocOk(at, limit, q);
        assert q[..3] == Up(q) && at[q[..3]] == at[p] ==> q[..3] == p;
        assert q == q[..3] + [q[3]];
      }
    }
    EntriesKept(tables, tables', at, at', limit, p, i, f);
    PassAdded(tables, tables', at, at', limit, p + [i]);
  }

  // ---- addresses ------------------------------------------------------------------------------------------------

  const PAGE: nat := 4096

  // index_at
  function IndexAt(virt: nat, level: nat): nat
    requires 1 <= level <= 4
  {
    var vpn := virt / PAGE;
    match level
    case 1 => vpn % 512
    case 2 => vpn / 512 % 512
    case 3 => vpn / 262144 % 512
    case _ => vpn / 134217728 % 512
  }

  function PathOf(virt: nat): (p: Loc)
    ensures |p| == 4
  {
    [IndexAt(virt, 4), IndexAt(virt, 3), IndexAt(virt, 2), IndexAt(virt, 1)]
  }

  lemma Digits(vpn: nat)
    requires vpn < 68719476736
    ensures vpn == ((vpn / 134217728 % 512 * 512 + vpn / 262144 % 512) * 512 + vpn / 512 % 512) * 512 + vpn % 512
  {
    var a := vpn / 512;
    var b := a / 512;
    var c := b / 512;
    DivTwice(vpn);
    assert c < 512;
  }

  // Below 2^48 two addresses share a path exactly when they lie in the same page.
  // The four indices are the address: nine bits each, from bit 39 down to bit 12.
  lemma PathSpells(virt: nat)
    requires virt < 281474976710656
    ensures var p := PathOf(virt);
      && p[0] < 512 && p[1] < 512 && p[2] < 512 && p[3] < 512
      && virt == p[0] * 0x80_0000_0000 + p[1] * 0x4000_0000 + p[2] * 0x20_0000 + p[3] * PAGE + virt % PAGE
  {
    Digits(virt / PAGE);
  }

  lemma PathInjective(v: nat, w: nat)
    requires v < 281474976710656 && w < 281474976710656
    ensures PathOf(v) == PathOf(w) <==> v / PAGE == w / PAGE
  {
    Digits(v / PAGE);
    Digits(w / PAGE);
    if PathOf(v) == PathOf(w) {
      assert PathOf(v)[0] == PathOf(w)[0] && PathOf(v)[1] == PathOf(w)[1] && PathOf(v)[2] == PathOf(w)[2]
        && PathOf(v)[3] == PathOf(w)[3];
    }
  }

  ghost predicate Extends(at: map<Loc, nat>, at': map<Loc, nat>) {
    forall q :: q in at ==> q in at' && at'[q] == at[q]
  }

  function VirtOf(q: Loc): nat
    requires |q| == 4
  {
    (((q[0] * 512 + q[1]) * 512 + q[2]) * 512 + q[3]) * PAGE
  }

  lemma PathOfVirt(q: Loc)
    requires |q| == 4 && q[0] < 512 && q[1] < 512 && q[2] < 512 && q[3] < 512
    ensures PathOf(VirtOf(q)) == q && VirtOf(q) % PAGE == 0 && IndexAt(VirtOf(q), 4) == q[0]
  {
    var c := q[0] * 512 + q[1];
    var b := c * 512 + q[2];
    var vpn := b * 512 + q[3];
    FrameOf(vpn);
    Undigit(b, q[3]);
    Undigit(c, q[2]);
    Undigit(q[0], q[1]);
    DivTwice(vpn);
  }

  lemma Undigit(x: nat, d: nat)
    requires d < 512
    ensures (x * 512 + d) % 512 == d && (x * 512 + d) / 512 == x
  {}

  lemma DivTwice(v: nat)
    ensures v / 262144 == v / 512 / 512 && v / 134217728 == v / 512 / 512 / 512
  {}

  // The tree grew from at to at' by frames that were free; nothing else was taken.
  ghost predicate Grew(used: seq<bool>, at: map<Loc, nat>, used': seq<bool>, at': map<Loc, nat>) {
    && |used'| == |used|
    && (forall f: nat :: f < |used| ==> (used'[f] <==> used[f] || f in at'.Values))
    && (forall f: nat :: f in at'.Values && f !in at.Values ==> f < |used| && !used[f])
    && (forall f :: f in at.Values ==> f in at'.Values)
  }

  // The slots of the root table that are not this tree's: the aliased kernel half.
  ghost function Aliased(tables: map<nat, seq<Entry>>, at: map<Loc, nat>, limit: nat): seq<Entry> {
    if [] in at && at[[]] in tables && limit <= |tables[at[[]]]| then tables[at[[]]][limit..] else []
  }

  ghost function FreeSet(used: seq<bool>): set<nat> { set f: nat | f < |used| && !used[f] }

  lemma OneMoreFree(used: seq<bool>, f: nat)
    requires f < |used|
    ensures FreeSet(used[f := false]) == FreeSet(used) + {f}
  {}

  datatype View = Unmapped | Mapped(user: bool, write: bool, nx: bool, content: Bytes)

  // ---- what stays as it was -------------------------------------------------------------------------------------

  // Physical memory: which frames are in use, page tables and page contents.
  datatype Mem = Mem(used: seq<bool>, tables: map<nat, seq<Entry>>, pages: map<nat, Bytes>)

  // Frames in use stay in use and keep what they hold, but for the tables of the tree that held them;
  // the tree takes only frames that were free.
  ghost predicate Spared(m: Mem, m': Mem, held: set<nat>, held': set<nat>) {
    && |m'.used| == |m.used|
    && (forall g: nat :: g < |m.used| && m.used[g] ==> m'.used[g])
    && (forall g: nat :: g in m.tables && g < |m.used| && m.used[g] && g !in held ==>
      g in m'.tables && m'.tables[g] == m.tables[g])
    && (forall g: nat :: g in m.pages && g < |m.used| && m.used[g] ==> g in m'.pages && m'.pages[g] == m.pages[g])
    && (forall g: nat :: g in held' ==> g in held || (g < |m.used| && !m.used[g]))
  }

  ghost predicate CopiedTo(m: Mem, at: map<Loc, nat>, m': Mem, at': map<Loc, nat>, limit: nat, other: map<Loc, nat>,
                           otherLimit: nat) {
    && FreeSet(m'.used) + at'.Values == FreeSet(m.used) + at.Values && Spared(m, m', at.Values, at'.Values)
    && Aliased(m'.tables, at', limit) == Aliased(m.tables, at, limit)
    && Aliased(m'.tables, other, otherLimit) == Aliased(m.tables, other, otherLimit)
  }

  // A page s is copied over d0: d0 must be free, and nothing happens without a page.
  ghost predicate Merged(s: View, d0: View, d: View) { if s == Unmapped then d == d0 else d0 == Unmapped && d == s }

  // A page is as it was or has been copied.
  ghost predicate Partly(s: View, d0: View, d: View) { d == d0 || (d0 == Unmapped && d == s) }

  // A frame went out of the pool and into the tree or back.
  lemma Lent(free0: set<nat>, free1: set<nat>, free2: set<nat>, held: set<nat>, held': set<nat>, f: nat)
    requires free1 == free0 - {f} && f in free0 && free2 + held' == free1 + held + {f}
    ensures free2 + held' == free0 + held
  {}

  lemma SparedRefl(m: Mem, held: set<nat>)
    ensures Spared(m, m, held, held)
  {}

  lemma SparedTrans(m0: Mem, m1: Mem, m2: Mem, h0: set<nat>, h1: set<nat>, h2: set<nat>)
    requires Spared(m0, m1, h0, h1) && Spared(m1, m2, h1, h2)
    ensures Spared(m0, m2, h0, h2)
  {}

  // A fresh frame f is filled, then mapped or given back.
  lemma SparedMap(m0: Mem, m1: Mem, m2: Mem, h0: set<nat>, h2: set<nat>, f: nat)
    requires f < |m0.used| && !m0.used[f] && m1.used == m0.used[f := true] && m1.tables == m0.tables
    requires forall g :: g in m0.pages && g != f ==> g in m1.pages && m1.pages[g] == m0.pages[g]
    requires Took(m1.used, h0, m2.used, h2, f) && TablesKept(m1.tables, m2.tables, h2) && m2.pages == m1.pages
    ensures Spared(m0, m2, h0, h2)
  {}

  lemma SparedRoot(m: Mem, m': Mem, root: nat)
    requires m'.used == m.used && m'.pages == m.pages && root in m'.tables
      && m'.tables == m.tables[root := m'.tables[root]]
    ensures Spared(m, m', {root}, {root})
  {}

  // Another tree lives on frames that were in use and not held.
  lemma SparedOther(m: Mem, m': Mem, held: set<nat>, held': set<nat>, at: map<Loc, nat>, limit: nat)
    requires Spared(m, m', held, held') && Wf(m.tables, at, limit) && at.Values !! held
    requires forall f :: f in at.Values ==> f < |m.used| && m.used[f]
    ensures Wf(m'.tables, at, limit) && at.Values !! held'
      && Aliased(m'.tables, at, limit) == Aliased(m.tables, at, limit)
    ensures forall f :: f in at.Values ==> f < |m'.used| && m'.used[f]
    ensures forall q :: Leaf(m'.tables, at, q) == Leaf(m.tables, at, q)
    ensures forall f :: f in at.Values && f in m.pages ==> f in m'.pages && m'.pages[f] == m.pages[f]
  {
    hide Wf, Leaf, Aliased;
    var fs := m.tables.Keys - at.Values;
    assert TablesKept(m.tables, m'.tables, fs);
    OtherKept(m.tables, m'.tables, at, limit, fs);
  }

  // The frames of gone went back to the pool.
  ghost predicate Dropped(used: seq<bool>, used': seq<bool>, gone: set<nat>) {
    |used'| == |used| && forall f: nat :: f < |used| ==> (used'[f] <==> used[f] && f !in gone)
  }

  lemma DroppedSums(u0: seq<bool>, used: seq<bool>, used': seq<bool>, held: set<nat>, rest: set<nat>, gone: set<nat>)
    requires FreeSet(used) + held == FreeSet(u0) && Dropped(used, used', gone) && gone <= held && rest == held - gone
    requires forall f :: f in gone ==> f < |used|
    ensures FreeSet(used') + rest == FreeSet(u0)
  {
    forall f ensures f in FreeSet(used') + rest <==> f in FreeSet(used) + held {}
  }

  lemma SparedDrop(m0: Mem, m: Mem, m': Mem, held: set<nat>, rest: set<nat>, gone: set<nat>)
    requires Spared(m0, m, {}, held) && Dropped(m.used, m'.used, gone) && gone <= held && rest <= held
    requires m'.tables == m.tables && m'.pages == m.pages
    ensures Spared(m0, m', {}, rest)
  {}

  // What may happen to address spaces.
  datatype Life =
    | Begin
    | Map(k: nat, virt: nat, content: Bytes, write: bool, nx: bool)
    | Copy(k: nat, s: nat)
    | End(k: nat)

  class AddrSpace {
    var pml4: nat
    const limit: nat
    ghost var at: map<Loc, nat>

    constructor (pml4: nat, limit: nat)
      ensures this.pml4 == pml4 && this.limit == limit && at == map[[] := pml4]
    {
      this.pml4, this.limit, at := pml4, limit, map[[] := pml4];
    }
  }

  class Mmu {
    const pool: Pool
    var tables: map<nat, seq<Entry>>
    var pages: map<nat, Bytes>

    constructor (pool: Pool)
      ensures this.pool == pool
    {
      this.pool, tables, pages := pool, map[], map[];
    }

    // Frame 0 is never handed out.
    ghost predicate PoolOk()
      reads this, pool
    {
      pool.Valid() && |pool.used| > 0 && pool.used[0]
    }

    ghost function Now(): Mem
      reads this, pool
    {
      Mem(pool.used, tables, pages)
    }

    ghost function FreeFrames(): set<nat>
      reads this, pool
    {
      FreeSet(pool.used)
    }

    // At most one frame is left.
    ghost predicate Exhausted()
      reads this, pool
    {
      |FreeFrames()| <= 1
    }

    lemma LastFreed(used: seq<bool>, f: nat)
      requires f < |used| == |pool.used| && pool.used == used[f := false] && FreeSet(used) == {}
      ensures Exhausted()
    {
      forall g: nat | g < |used| ensures used[g] { assert g !in FreeSet(used); }
      assert FreeFrames() <= {f};
      Counting.SubsetCount(FreeFrames(), {f});
    }

    // The pool and one tree together.
    ghost function Stock(a: AddrSpace): set<nat>
      reads this, pool, a
    {
      FreeFrames() + a.at.Values
    }

    // The tree of an address space is sound and none of its frames is free.
    ghost predicate Sound(a: AddrSpace)
      reads this, pool, a
    {
      && PoolOk() && Wf(tables, a.at, a.limit) && a.pml4 == a.at[[]]
      && (forall f :: f in a.at.Values ==> f < |pool.used| && pool.used[f])
      && (forall p :: p in a.at && |p| == 4 ==> a.at[p] in pages)
    }

    method AllocFrame() returns (f: nat)
      requires PoolOk()
      modifies pool
      ensures PoolOk() && |pool.used| == |old(pool.used)|
      ensures f == 0 ==> pool.used == old(pool.used) && FreeFrames() == {}
      ensures f != 0 ==> f < |pool.used| && !old(pool.used)[f] && pool.used == old(pool.used)[f := true]
    {
      var r := pool.Alloc();
      if r == -1 { return 0; }
      f := r;
    }

    method FreeFrame(f: nat)
      requires PoolOk() && f != 0 && f < |pool.used| && pool.used[f]
      modifies pool
      ensures PoolOk() && pool.used == old(pool.used)[f := false]
    {
      var ok := pool.Free(f);
    }

    method Create(limit: nat) returns (rc: PErr, a: AddrSpace)
      requires PoolOk() && 0 < limit <= ENTRIES
      modifies this, pool
      ensures fresh(a) && a.limit == limit && PoolOk() && |pool.used| == |old(pool.used)|
      ensures rc == POK ==>
        Sound(a) && a.at == map[[] := a.pml4] && !(a.pml4 < |old(pool.used)| && old(pool.used)[a.pml4])
      ensures rc == POK ==>
        pool.used == old(pool.used)[a.pml4 := true] && tables == old(tables)[a.pml4 := Blank()] && pages == old(pages)
      ensures rc == POK ==>
        FreeFrames() + a.at.Values == old(FreeFrames()) && Spared(old(Now()), Now(), {}, a.at.Values)
      ensures rc != POK ==>
        rc == ENOMEM && FreeFrames() == {} && pool.used == old(pool.used) && tables == old(tables)
        && pages == old(pages)
    {
      var f := AllocFrame();
      a := new AddrSpace(f, limit);
      if f == 0 { return ENOMEM, a; }
      tables := tables[f := Blank()];
      rc := POK;
    }

    // The table below slot index of the table at p, made when it is missing; 0 when out of memory.
    method NextTable(a: AddrSpace, ghost p: Loc, table: nat, index: nat, user: bool) returns (f: nat)
      requires Sound(a) && p in a.at && |p| < 3 && table == a.at[p] && index < Slots(a.limit, p)
      requires user && p != [] ==> EntryAt(tables, a.at, p).user
      modifies this`tables, pool, a`at
      ensures Sound(a) && |pool.used| == |old(pool.used)|
      ensures f == 0 ==>
        p + [index] !in a.at && tables == old(tables) && a.at == old(a.at) && pool.used == old(pool.used)
        && FreeFrames() == {}
      ensures f != 0 ==> p + [index] in a.at && a.at[p + [index]] == f
      ensures f != 0 && user ==> EntryAt(tables, a.at, p + [index]).user
      ensures a.at == old(a.at)
        || (f != 0 && f < |pool.used| && !old(pool.used)[f] && p + [index] !in old(a.at)
        && a.at == old(a.at)[p + [index] := f])
      ensures pool.used == if a.at == old(a.at) then old(pool.used) else old(pool.used)[f := true]
      ensures forall q :: |q| == 4 ==>
        (q in a.at <==> q in old(a.at)) && Leaf(tables, a.at, q) == Leaf(old(tables), old(a.at), q)
      ensures Aliased(tables, a.at, a.limit) == Aliased(old(tables), old(a.at), a.limit)
      ensures TablesKept(old(tables), tables, a.at.Values)
    {
      hide Wf;
      assert SlotOk(tables, a.at, p, index) by { WfSlot(tables, a.at, a.limit, p, index); }
      WfFacts(tables, a.at, a.limit);
      var entry := tables[table][index];
      if entry.present {
        if user && !entry.user {
          FlagsKept(tables, a.at, a.limit, p, index, entry.(user := true));
          tables := tables[table := tables[table][index := entry.(user := true)]];
          WfFacts(tables, a.at, a.limit);
        }
        assert a.at[p] in a.at.Values;
        return entry.frame;
      }
      f := MakeTable(a, p, table, index, user);
    }

    // Walk to the leaf table of a page, making tables on the way; 0 when out of memory.
    method Walk(a: AddrSpace, virt: nat, user: bool) returns (table: nat)
      requires Sound(a) && IndexAt(virt, 4) < a.limit
      modifies this`tables, pool, a`at
      ensures Sound(a) && Grew(old(pool.used), old(a.at), pool.used, a.at) && Extends(old(a.at), a.at)
      ensures table == 0 ==> FreeFrames() == {} && PathOf(virt) !in a.at
      ensures table != 0 ==> PathOf(virt)[..3] in a.at && a.at[PathOf(virt)[..3]] == table
      ensures table != 0 && user ==> EntryAt(tables, a.at, PathOf(virt)[..3]).user
      ensures forall q :: |q| == 4 ==>
        (q in a.at <==> q in old(a.at)) && Leaf(tables, a.at, q) == Leaf(old(tables), old(a.at), q)
      ensures Aliased(tables, a.at, a.limit) == Aliased(old(tables), old(a.at), a.limit)
      ensures TablesKept(old(tables), tables, a.at.Values)
    {
      hide Wf, Leaf, EntryAt, Aliased, IndexAt, TablesKept, Grew;
      WfFacts(tables, a.at, a.limit);
      GrewRefl(pool.used, a.at);
      KeptRefl(tables, a.at.Values);
      table := a.pml4;
      var level := 4;
      ghost var p: Loc := [];
      while level > 1
        invariant 1 <= level <= 4 && p == PathOf(virt)[..4 - level] && Sound(a) && p in a.at && table == a.at[p]
        invariant user && p != [] ==> EntryAt(tables, a.at, p).user
        invariant Grew(old(pool.used), old(a.at), pool.used, a.at) && Extends(old(a.at), a.at)
        invariant forall q :: |q| == 4 ==>
          (q in a.at <==> q in old(a.at)) && Leaf(tables, a.at, q) == Leaf(old(tables), old(a.at), q)
        invariant Aliased(tables, a.at, a.limit) == Aliased(old(tables), old(a.at), a.limit)
        invariant TablesKept(old(tables), tables, a.at.Values)
      {
        ghost var used1, at1, tables1 := pool.used, a.at, tables;
        IndexBound(virt, level);
        var index := IndexAt(virt, level);
        assert index == PathOf(virt)[4 - level];
        table := NextTable(a, p, table, index, user);
        if a.at != at1 { GrewNext(old(pool.used), old(a.at), used1, at1, p + [index], table);
          ValuesAdded(at1, p + [index], table); }
        KeptMore(old(tables), tables1, tables, at1.Values, a.at.Values, a.at.Values);
        if table == 0 {
          assert PathOf(virt)[..5 - level] == p + [index];
          Unreached(tables, a.at, a.limit, PathOf(virt), 5 - level);
          return;
        }
        p := p + [index];
        level := level - 1;
      }
      WfNonZero(tables, a.at, a.limit, p);
    }

    // paging_map_4k: on success exactly one page changes, on failure none does.
    method Map4k(a: AddrSpace, virt: nat, phys: nat, user: bool, write: bool, nx: bool) returns (rc: PErr)
      requires Sound(a) && IndexAt(virt, 4) < a.limit
      requires phys / PAGE !in a.at.Values && phys / PAGE in pages && 0 < phys / PAGE < |pool.used|
        && pool.used[phys / PAGE]
      modifies this`tables, pool, a`at
      ensures Sound(a) && Extends(old(a.at), a.at)
      ensures rc == EALIGN <==> virt % PAGE != 0 || phys % PAGE != 0
      ensures rc == ENOMEM ==> FreeFrames() == {}
      ensures rc == EEXIST <==> virt % PAGE == 0 && phys % PAGE == 0 && PathOf(virt) in old(a.at)
      ensures rc == POK ==>
        && PathOf(virt) !in old(a.at) && PathOf(virt) in a.at && a.at[PathOf(virt)] == phys / PAGE
        && Leaf(tables, a.at, PathOf(virt)) == Entry(true, phys / PAGE, user, write, nx, false)
      ensures forall q :: |q| == 4 && (rc == POK ==> q != PathOf(virt)) ==>
        (q in a.at <==> q in old(a.at)) && Leaf(tables, a.at, q) == Leaf(old(tables), old(a.at), q)
      ensures Grew(old(pool.used), old(a.at), pool.used, if rc == POK then a.at - {PathOf(virt)} else a.at)
      ensures Aliased(tables, a.at, a.limit) == Aliased(old(tables), old(a.at), a.limit)
      ensures TablesKept(old(tables), tables, a.at.Values)
    {
      hide Wf, Leaf, Aliased, IndexAt, TablesKept, Grew;
      GrewRefl(pool.used, a.at);
      KeptRefl(tables, a.at.Values);
      if virt % PAGE != 0 || phys % PAGE != 0 { return EALIGN; }
      var table := Walk(a, virt, user);
      if table == 0 { return ENOMEM; }
      IndexBound(virt, 1);
      var idx := IndexAt(virt, 1);
      ghost var p := PathOf(virt)[..3];
      assert PathOf(virt) == p + [idx];
      WfSlot(tables, a.at, a.limit, p, idx);
      SlotFacts(tables, a.at, p, idx);
      if tables[table][idx].present { return EEXIST; }
      NotGrown(old(pool.used), old(a.at), pool.used, a.at, phys / PAGE);
      ghost var at1, tables1 := a.at, tables;
      rc := SetLeaf(a, p, table, idx, Entry(true, phys / PAGE, user, write, nx, false));
      ValuesAdded(at1, p + [idx], phys / PAGE);
      KeptMore(old(tables), tables1, tables, at1.Values, at1.Values, a.at.Values);
      assert a.at - {PathOf(virt)} == at1;
    }

    // paging_lookup: the leaf entry of a page, or an absent one; the walk meets no large page in
    // a sound tree.
    method Lookup(a: AddrSpace, virt: nat) returns (e: Entry)
      requires Sound(a) && IndexAt(virt, 4) < a.limit
      ensures e.present <==> PathOf(virt) in a.at
      ensures e.present ==> e == Leaf(tables, a.at, PathOf(virt)) && e.frame == a.at[PathOf(virt)]
    {
      hide Wf, IndexAt;
      WfFacts(tables, a.at, a.limit);
      var table := a.pml4;
      var level := 4;
      ghost var p: Loc := [];
      e := ABSENT;
      var path := PathOf(virt);
      assert path[..4] == path;
      while level >= 1
        invariant 0 <= level <= 4 && p == path[..4 - level] && p in a.at && table == a.at[p]
        invariant level == 0 ==> e.present && e == Leaf(tables, a.at, path) && e.frame == a.at[path]
      {
        IndexBound(virt, level);
        var index := IndexAt(virt, level);
        assert index == path[4 - level] && path[..4 - level] + [index] == path[..5 - level];
        WfSlot(tables, a.at, a.limit, p, index);
        e := tables[table][index];
        if !e.present {
          Unreached(tables, a.at, a.limit, path, 5 - level);
          return;
        }
        p := p + [index];
        table := e.frame;
        level := level - 1;
      }
    }

    // Free everything below the table at p, children before their table.
    method FreeTree(ghost a: AddrSpace, ghost p: Loc, table: nat, depth: nat, slots: nat)
      requires PoolOk() && Wf(tables, a.at, a.limit) && p in a.at && |p| == depth < 4 && table == a.at[p]
        && slots == Slots(a.limit, p)
      requires forall q :: q in a.at && Under(p, q) ==> a.at[q] < |pool.used| && pool.used[a.at[q]]
      modifies pool
      ensures PoolOk() && Freed(old(pool.used), pool.used, a.at, p, slots)
      decreases 4 - depth
    {
      hide Wf;
      WfFacts(tables, a.at, a.limit);
      NothingFreed(pool.used, a.at, p);
      ghost var used0 := pool.used;
      var i := 0;
      while i < slots
        invariant i <= slots && PoolOk() && Freed(used0, pool.used, a.at, p, i)
      {
        WfSlot(tables, a.at, a.limit, p, i);
        var e := tables[table][i];
        if e.present {
          ghost var used1 := pool.used;
          ghost var c := p + [i];
          StillHeld(used0, used1, a.at, p, i);
          if depth < 3 {
            FreeTree(a, c, e.frame, depth + 1, ENTRIES);
            ChildKept(used1, pool.used, a.at, a.limit, tables, c, ENTRIES);
          } else {
            NothingBelow(a.at, a.limit, tables, used1, c);
          }
          ghost var used2 := pool.used;
          FreeFrame(e.frame);
          FreedNext(used0, used1, used2, a.at, a.limit, tables, p, i);
        } else {
          FreedSkip(used0, pool.used, a.at, a.limit, tables, p, i);
        }
        i := i + 1;
      }
    }

    // paging_user_destroy: exactly the frames of the tree go back to the pool, each once.
    method Destroy(a: AddrSpace)
      requires Sound(a)
      modifies pool, a
      ensures PoolOk() && a.pml4 == 0 && a.at == map[] && Dropped(old(pool.used), pool.used, old(a.at).Values)
      ensures FreeFrames() == old(FreeFrames()) + old(a.at).Values && old(FreeFrames()) !! old(a.at).Values
    {
      hide Wf;
      WfFacts(tables, a.at, a.limit);
      ghost var at0, used0 := a.at, pool.used;
      forall q | q in a.at ensures a.at[q] < |pool.used| && pool.used[a.at[q]] { assert a.at[q] in a.at.Values; }
      FreeTree(a, [], a.pml4, 0, a.limit);
      RootKept(used0, pool.used, a.at, a.limit, tables);
      ghost var used1 := pool.used;
      FreeFrame(a.pml4);
      AllFreed(used0, used1, a.at, a.limit, tables);
      a.pml4, a.at := 0, map[];
    }

    // What an address space shows a user: its pages, their permissions and their contents.
    ghost function Page(a: AddrSpace, q: Loc): View
      reads this, a
    {
      if |q| == 4 && q in a.at && a.at[q] in pages
      then var e := Leaf(tables, a.at, q); Mapped(e.user, e.write, e.nx, pages[a.at[q]])
      else Unmapped
    }

    ghost predicate Apart(a: AddrSpace, b: AddrSpace)
      reads a, b
    {
      a != b && a.at.Values !! b.at.Values
    }

    // A fresh frame with a copy of another one; 0 when out of memory.
    method CopyFrame(dst: AddrSpace, src: AddrSpace, frame: nat) returns (f: nat)
      requires Sound(dst) && Sound(src) && frame in pages
      modifies this`pages, pool
      ensures Sound(dst) && Sound(src) && |pool.used| == |old(pool.used)|
      ensures f == 0 ==> pages == old(pages) && pool.used == old(pool.used) && Exhausted()
      ensures f != 0 ==>
        f < |pool.used| && f !in dst.at.Values && f !in src.at.Values && pool.used[f]
        && pages == old(pages)[f := old(pages)[frame]]
      ensures f != 0 ==> FreeFrames() == old(FreeFrames()) - {f} && f in old(FreeFrames())
      ensures f != 0 ==> pool.used == old(pool.used)[f := true] && !old(pool.used)[f]
      ensures forall r :: Page(src, r) == old(Page(src, r)) && Page(dst, r) == old(Page(dst, r))
    {
      hide Wf, Leaf;
      f := AllocFrame();
      if f == 0 { return; }
      pages := pages[f := pages[frame]];
      forall r ensures Page(src, r) == old(Page(src, r)) && Page(dst, r) == old(Page(dst, r)) {
        if r in src.at { assert src.at[r] in src.at.Values; }
        if r in dst.at { assert dst.at[r] in dst.at.Values; }
      }
    }

    // Map a frame that no tree holds, or give it back.
    method MapOrFree(a: AddrSpace, virt: nat, f: nat, user: bool, write: bool, nx: bool) returns (rc: PErr)
      requires Sound(a) && IndexAt(virt, 4) < a.limit
      requires 0 < f < |pool.used| && pool.used[f] && f !in a.at.Values && f in pages
      modifies this`tables, pool, a`at
      ensures Sound(a) && Stock(a) == old(Stock(a)) + {f}
      ensures rc == ENOMEM ==> Exhausted()
      ensures rc == EALIGN ==> virt % PAGE != 0
      ensures rc == EEXIST ==> old(Page(a, PathOf(virt))) != Unmapped
      ensures rc == POK ==>
        old(Page(a, PathOf(virt))) == Unmapped && Page(a, PathOf(virt)) == Mapped(user, write, nx, pages[f])
      ensures forall q :: (rc == POK ==> q != PathOf(virt)) ==> Page(a, q) == old(Page(a, q))
      ensures Aliased(tables, a.at, a.limit) == Aliased(old(tables), old(a.at), a.limit)
      ensures Took(old(pool.used), old(a.at).Values, pool.used, a.at.Values, f)
        && TablesKept(old(tables), tables, a.at.Values)
    {
      hide Wf, Leaf, Grew, TablesKept, IndexAt, Aliased, PathOf, Exhausted, FreeSet, Took;
      FrameOf(f);
      ghost var used1, at1 := pool.used, a.at;
      rc := Map4k(a, virt, f * PAGE, user, write, nx);
      ghost var q := PathOf(virt);
      ghost var at2 := if rc == POK then a.at - {q} else a.at;
      GrewStock(used1, at1, pool.used, at2);
      GrewTook(used1, at1, pool.used, at2, f);
      if rc == POK {
        PageValues(a.at, q);
      } else {
        NotGrown(used1, at1, pool.used, a.at, f);
        ghost var used2 := pool.used;
        FreeFrame(f);
        OneMoreFree(used2, f);
        if rc == ENOMEM { LastFreed(used2, f); }
      }
    }

    // Copy one page into dst.
    method ClonePage(dst: AddrSpace, src: AddrSpace, ghost q: Loc, virt: nat, e: Entry) returns (rc: PErr)
      requires Sound(dst) && Sound(src) && Apart(dst, src) && virt % PAGE == 0 && IndexAt(virt, 4) < dst.limit
      requires q == PathOf(virt) && q in src.at && e == Leaf(tables, src.at, q) && e.frame == src.at[q]
      modifies this`tables, this`pages, pool, dst`at
      ensures Sound(dst) && Sound(src) && Apart(dst, src) && Copied(old(Now()), old(dst.at), Now(), dst, src)
        && (rc == ENOMEM ==> Exhausted()) && rc != EALIGN
      ensures rc == POK ==> Merged(Page(src, q), old(Page(dst, q)), Page(dst, q))
      ensures rc == EEXIST ==> old(Page(dst, q)) != Unmapped
      ensures forall r ::
        Page(src, r) == old(Page(src, r)) && (rc != POK || r != q ==> Page(dst, r) == old(Page(dst, r)))
    {
      hide Wf, Leaf, IndexAt, PathOf, Exhausted, Took, TablesKept, FreeSet, Spared, Aliased, Page;
      ghost var m0, at0 := Now(), dst.at;
      SparedRefl(m0, dst.at.Values);
      assert Page(src, q) == Mapped(e.user, e.write, e.nx, pages[e.frame]) by { LeafPage(src, q); }
      var f := CopyFrame(dst, src, e.frame);
      if f == 0 { return ENOMEM; }
      ghost var m1 := Now();
      rc := MapOrFree(dst, virt, f, e.user, e.write, e.nx);
      SparedMap(m0, m1, Now(), at0.Values, dst.at.Values, f);
      OtherStays(src, at0.Values, dst.at.Values);
      Lent(FreeSet(m0.used), FreeSet(m1.used), FreeSet(pool.used), at0.Values, dst.at.Values, f);
    }

    // The permissions a page shows are the ones the processor grants over the whole walk.
    lemma PageGranted(a: AddrSpace, q: Loc)
      requires Sound(a) && |q| == 4 && q in a.at
      ensures Page(a, q).Mapped?
      ensures Page(a, q).user <==> GrantsUser(tables, a.at, q)
      ensures Page(a, q).write <==> GrantsWrite(tables, a.at, q)
      ensures Page(a, q).nx <==> ForbidsExec(tables, a.at, q)
    {
      hide Wf, EntryAt, Leaf;
      LeafPage(a, q);
      LeafEntry(tables, a.at, q);
      LeafDecides(tables, a.at, a.limit, q);
    }

    lemma LeafPage(a: AddrSpace, q: Loc)
      requires Sound(a) && |q| == 4 && q in a.at
      ensures a.at[q] in pages
      ensures var e := Leaf(tables, a.at, q); Page(a, q) == Mapped(e.user, e.write, e.nx, pages[a.at[q]])
    {
      assert a.at[q] in a.at.Values;
    }

    // A space on frames of its own is not touched.
    twostate lemma OtherStays(src: AddrSpace, new held: set<nat>, new held': set<nat>)
      requires old(Sound(src)) && PoolOk() && src.at == old(src.at) && src.pml4 == old(src.pml4)
        && src.at.Values !! held
      requires Spared(old(Now()), Now(), held, held')
      ensures Sound(src) && src.at.Values !! held'
        && Aliased(tables, src.at, src.limit) == Aliased(old(tables), src.at, src.limit)
      ensures forall r :: Page(src, r) == old(Page(src, r))
    {
      hide Wf, Leaf, Spared, Aliased;
      SparedOther(old(Now()), Now(), held, held', src.at, src.limit);
      forall r | r in src.at ensures src.at[r] in src.at.Values {}
    }

    // Copy every page below the table at p.
    method CloneTree(dst: AddrSpace, src: AddrSpace, p: Loc, table: nat, slots: nat) returns (rc: PErr)
      requires Sound(dst) && Sound(src) && Apart(dst, src) && src.limit <= dst.limit
      requires p in src.at && |p| < 4 && table == src.at[p] && slots == Slots(src.limit, p)
      modifies this, pool, dst`at
      ensures Sound(dst) && Sound(src) && Apart(dst, src) && Copied(old(Now()), old(dst.at), Now(), dst, src)
        && (rc == ENOMEM ==> Exhausted()) && rc != EALIGN
      ensures forall q :: Page(src, q) == old(Page(src, q)) && (!Under(p, q) ==> Page(dst, q) == old(Page(dst, q)))
      ensures forall q :: Partly(Page(src, q), old(Page(dst, q)), Page(dst, q))
      ensures rc == POK ==> forall q :: Under(p, q) ==> Merged(Page(src, q), old(Page(dst, q)), Page(dst, q))
      ensures rc == EEXIST ==> exists q :: Under(p, q) && Page(src, q) != Unmapped && old(Page(dst, q)) != Unmapped
      decreases 4 - |p|
    {
      hide Wf, Leaf, IndexAt, PathOf, VirtOf, Page, Slots, Exhausted, CopiedTo;
      ghost var m0, at0 := Now(), dst.at;
      CopiedNone(dst, src);
      var i: nat := 0;
      while i < slots
        invariant i <= slots && Copied(m0, at0, Now(), dst, src) && Sound(dst) && Sound(src) && Apart(dst, src)
          && p in src.at
        invariant forall q :: Page(src, q) == old(Page(src, q))
        invariant forall q :: if UnderTo(p, q, i) then Merged(Page(src, q), old(Page(dst, q)), Page(dst, q))
          else Page(dst, q) == old(Page(dst, q))
      {
        ghost var c := p + [i];
        ghost var m1, at1 := Now(), dst.at;
        assert CopiedTo(m0, at0, m1, at1, dst.limit, src.at, src.limit);
        forall q ensures Under(c, q) || q == c ==> Under(p, q) && !UnderTo(p, q, i) { UnderChild(p, q, i); }
        rc := CloneSlot(dst, src, p, table, i);
        CopiedMore(m0, at0, m1, at1, Now(), dst, src);
        if rc != POK { return; }
        forall q ensures if UnderTo(p, q, i + 1) then Merged(Page(src, q), old(Page(dst, q)), Page(dst, q))
          else Page(dst, q) == old(Page(dst, q)) {
          UnderChild(p, q, i);
        }
        i := i + 1;
      }
      rc := POK;
      forall q ensures Under(p, q) ==> Merged(Page(src, q), old(Page(dst, q)), Page(dst, q)) {
        if Under(p, q) && !UnderTo(p, q, slots) { OutsideSlots(src, p, q); }
      }
    }

    // Slot i of the table at p: a page, a table or nothing.
    method CloneSlot(dst: AddrSpace, src: AddrSpace, p: Loc, table: nat, i: nat) returns (rc: PErr)
      requires Sound(dst) && Sound(src) && Apart(dst, src) && src.limit <= dst.limit
      requires p in src.at && |p| < 4 && table == src.at[p] && i < Slots(src.limit, p)
      modifies this, pool, dst`at
      ensures Sound(dst) && Sound(src) && Apart(dst, src) && Copied(old(Now()), old(dst.at), Now(), dst, src)
        && (rc == ENOMEM ==> Exhausted()) && rc != EALIGN
      ensures forall q ::
        Page(src, q) == old(Page(src, q))
        && (!(q == p + [i] || Under(p + [i], q)) ==> Page(dst, q) == old(Page(dst, q)))
      ensures forall q :: Partly(Page(src, q), old(Page(dst, q)), Page(dst, q))
      ensures rc == POK ==> forall q :: q == p + [i] || Under(p + [i], q) ==>
        Merged(Page(src, q), old(Page(dst, q)), Page(dst, q))
      ensures rc == EEXIST ==> exists q ::
        (q == p + [i] || Under(p + [i], q)) && Page(src, q) != Unmapped && old(Page(dst, q)) != Unmapped
      decreases 4 - |p|, 0
    {
      hide Wf, Leaf, IndexAt, PathOf, VirtOf, Page, Exhausted, CopiedTo;
      ghost var c := p + [i];
      CopiedNone(dst, src);
      WfSlot(tables, src.at, src.limit, p, i);
      var e := tables[table][i];
      if !e.present {
        forall q ensures q == c || Under(c, q) ==> Page(src, q) == Unmapped { NothingThere(src, c, q); }
        return POK;
      }
      if |p| == 3 {
        LeafHere(src, p, i);
        IsMapped(src, c);
        rc := ClonePage(dst, src, c, VirtOf(p + [i]), e);
        forall q ensures Under(c, q) ==> Page(src, q) == Unmapped { TooDeep(src, q); }
      } else {
        rc := CloneTree(dst, src, p + [i], e.frame, ENTRIES);
        TooDeep(src, c);
      }
    }

    lemma IsMapped(a: AddrSpace, q: Loc)
      requires Sound(a) && |q| == 4 && q in a.at
      ensures Page(a, q) != Unmapped
    {}

    lemma TooDeep(a: AddrSpace, q: Loc)
      ensures |q| != 4 ==> Page(a, q) == Unmapped
    {}

    lemma NothingThere(a: AddrSpace, c: Loc, q: Loc)
      requires Wf(tables, a.at, a.limit) && c !in a.at
      ensures q == c || Under(c, q) ==> Page(a, q) == Unmapped
    {
      if Under(c, q) { Unreached(tables, a.at, a.limit, q, |c|); }
    }

    // A page below a table lies in one of its slots.
    lemma OutsideSlots(a: AddrSpace, p: Loc, q: Loc)
      requires Sound(a) && Under(p, q) && !UnderTo(p, q, Slots(a.limit, p))
      ensures Page(a, q) == Unmapped
    {
      hide Wf;
      if q in a.at { SlotBound(tables, a.at, a.limit, p, q); }
    }

    // So far a copy from src to dst only moved frames from the pool into dst and touched nothing else, the kernel half
    // of either space included.
    ghost predicate Copied(m: Mem, at: map<Loc, nat>, m': Mem, dst: AddrSpace, src: AddrSpace)
      reads dst, src
    {
      CopiedTo(m, at, m', dst.at, dst.limit, src.at, src.limit)
    }

    lemma CopiedNone(dst: AddrSpace, src: AddrSpace)
      ensures Copied(Now(), dst.at, Now(), dst, src)
    {
      hide Aliased;
      SparedRefl(Now(), dst.at.Values);
    }

    lemma CopiedMore(m0: Mem, at0: map<Loc, nat>, m1: Mem, at1: map<Loc, nat>, m2: Mem, dst: AddrSpace, src: AddrSpace)
      requires CopiedTo(m0, at0, m1, at1, dst.limit, src.at, src.limit) && Copied(m1, at1, m2, dst, src)
      ensures Copied(m0, at0, m2, dst, src)
    {
      hide Spared;
      SparedTrans(m0, m1, m2, at0.Values, at1.Values, dst.at.Values);
    }

    lemma LeafHere(a: AddrSpace, p: Loc, i: nat)
      requires Sound(a) && p in a.at && |p| == 3 && p + [i] in a.at && a.at[p] in tables && |tables[a.at[p]]| == ENTRIES
        && i < ENTRIES
      ensures Leaf(tables, a.at, p + [i]) == tables[a.at[p]][i]
      ensures PathOf(VirtOf(p + [i])) == p + [i] && VirtOf(p + [i]) % PAGE == 0 && IndexAt(VirtOf(p + [i]), 4) < a.limit
    {
      var q := p + [i];
      assert q[..3] == p;
      hide Wf, IndexAt;
      assert LocOk(a.at, a.limit, q[..1]) && LocOk(a.at, a.limit, q[..2]) && LocOk(a.at, a.limit, q[..3])
        && LocOk(a.at, a.limit, q) by {
        PrefixIn(tables, a.at, a.limit, q, 1);
        PrefixIn(tables, a.at, a.limit, q, 2);
        WfLoc(tables, a.at, a.limit, q[..1]);
        WfLoc(tables, a.at, a.limit, q[..2]);
        WfLoc(tables, a.at, a.limit, q[..3]);
        WfLoc(tables, a.at, a.limit, q);
      }
      assert q[0] < a.limit && q[1] < 512 && q[2] < 512 && q[3] < 512;
      WfFacts(tables, a.at, a.limit);
      PathOfVirt(q);
    }

    // paging_user_clone: on success the child shows the pages of src, with permissions and contents, beside its own, on
    // frames of its own.  It fails for memory, or because the child has one of the pages already.
    method Clone(dst: AddrSpace, src: AddrSpace) returns (rc: PErr)
      requires Sound(dst) && Sound(src) && Apart(dst, src) && src.limit <= dst.limit
      modifies this, pool, dst`at
      ensures Sound(dst) && Sound(src) && Apart(dst, src) && Copied(old(Now()), old(dst.at), Now(), dst, src)
      ensures rc != EALIGN && (rc == ENOMEM ==> Exhausted())
      ensures forall q :: Page(src, q) == old(Page(src, q))
      ensures forall q :: Partly(Page(src, q), old(Page(dst, q)), Page(dst, q))
      ensures rc == POK ==> forall q :: Merged(Page(src, q), old(Page(dst, q)), Page(dst, q))
      ensures rc == POK ==> forall q ::
        Page(dst, q) == if old(Page(src, q)) == Unmapped then old(Page(dst, q)) else old(Page(src, q))
      ensures rc == EEXIST ==> exists q :: Page(src, q) != Unmapped && old(Page(dst, q)) != Unmapped
    {
      hide Wf, Leaf, Page, Exhausted, CopiedTo;
      WfFacts(tables, src.at, src.limit);
      rc := CloneTree(dst, src, [], src.pml4, src.limit);
      if rc == POK {
        forall q ensures Merged(Page(src, q), old(Page(dst, q)), Page(dst, q)) {
          if q == [] {
            TooDeep(src, q);
          } else {
            assert q[..0] == [] && Under([], q);
          }
        }
      }
    }

    // A fresh frame with the given contents; 0 when out of memory.
    method NewFrame(a: AddrSpace, content: Bytes) returns (f: nat)
      requires Sound(a)
      modifies this`pages, pool
      ensures Sound(a) && |pool.used| == |old(pool.used)|
      ensures f == 0 ==>
        FreeFrames() == old(FreeFrames()) && Exhausted() && pool.used == old(pool.used) && pages == old(pages)
      ensures f != 0 ==>
        f < |pool.used| && pool.used[f] && f !in a.at.Values && f in old(FreeFrames())
        && FreeFrames() == old(FreeFrames()) - {f}
      ensures f != 0 ==>
        pool.used == old(pool.used)[f := true] && !old(pool.used)[f] && pages == old(pages)[f := content]
      ensures forall q :: Page(a, q) == old(Page(a, q))
    {
      hide Wf, Leaf;
      f := AllocFrame();
      if f != 0 { pages := pages[f := content]; }
      forall q ensures Page(a, q) == old(Page(a, q)) { if q in a.at { assert a.at[q] in a.at.Values; } }
    }

    // A user page with the given contents: a fresh frame, mapped or given back.
    method AddPage(a: AddrSpace, virt: nat, content: Bytes, write: bool, nx: bool) returns (rc: PErr)
      requires Sound(a) && IndexAt(virt, 4) < a.limit
      modifies this, pool, a`at
      ensures Sound(a) && Stock(a) == old(Stock(a))
      ensures rc == ENOMEM ==> Exhausted()
      ensures rc == EALIGN ==> virt % PAGE != 0
      ensures rc == EEXIST ==> old(Page(a, PathOf(virt))) != Unmapped
      ensures rc == POK ==>
        old(Page(a, PathOf(virt))) == Unmapped && Page(a, PathOf(virt)) == Mapped(true, write, nx, content)
      ensures forall q :: (rc == POK ==> q != PathOf(virt)) ==> Page(a, q) == old(Page(a, q))
      ensures Aliased(tables, a.at, a.limit) == Aliased(old(tables), old(a.at), a.limit)
      ensures Spared(old(Now()), Now(), old(a.at).Values, a.at.Values)
    {
      hide Wf, Leaf, IndexAt, PathOf, Exhausted, FreeSet, Took, TablesKept, Spared, Aliased;
      ghost var m0, at0 := Now(), a.at;
      SparedRefl(m0, a.at.Values);
      var f := NewFrame(a, content);
      if f == 0 { return ENOMEM; }
      ghost var m1 := Now();
      rc := MapOrFree(a, virt, f, true, write, nx);
      SparedMap(m0, m1, Now(), at0.Values, a.at.Values, f);
    }

    // vmm_addrspace_create_user: a new space whose upper half aliases that of the kernel's root table.
    method CreateUser(kroot: nat) returns (rc: PErr, a: AddrSpace)
      requires PoolOk() && KernelRoot(kroot)
      modifies this, pool
      ensures fresh(a) && a.limit == USER && PoolOk() && KernelRoot(kroot)
      ensures rc == POK ==> Sound(a) && a.at.Values !! old(UsedFrames()) && forall q :: Page(a, q) == Unmapped
      ensures rc == POK ==> Aliased(tables, a.at, USER) == old(tables)[kroot][USER..]
      ensures rc == POK ==>
        FreeFrames() + a.at.Values == old(FreeFrames()) && Spared(old(Now()), Now(), {}, a.at.Values)
      ensures rc != POK ==> rc == ENOMEM && FreeFrames() == {} && Now() == old(Now())
    {
      hide Wf, Spared;
      rc, a := Create(USER);
      if rc != POK { return; }
      ghost var m1 := Now();
      assert a.at.Values == {a.pml4};
      AliasUpper(a, kroot);
      SparedTrans(old(Now()), m1, Now(), {}, {a.pml4}, {a.pml4});
    }

    // Copy the upper half of the kernel's root table.
    method AliasUpper(a: AddrSpace, kroot: nat)
      requires Sound(a) && a.limit == USER && KernelRoot(kroot) && a.at == map[[] := a.pml4] && kroot != a.pml4
      modifies this`tables
      ensures Sound(a) && KernelRoot(kroot) && Aliased(tables, a.at, USER) == old(tables)[kroot][USER..]
      ensures Spared(old(Now()), Now(), {a.pml4}, {a.pml4})
    {
      hide Wf, Spared;
      var root := a.pml4;
      UpperKept(tables, a.at, USER, USER, ABSENT);
      var i := USER;
      while i < ENTRIES
        invariant USER <= i <= ENTRIES && Sound(a) && root in tables && |tables[root]| == ENTRIES
          && tables == old(tables)[root := tables[root]]
        invariant forall j :: USER <= j < i ==> tables[root][j] == old(tables)[kroot][j]
      {
        UpperKept(tables, a.at, USER, i, tables[kroot][i]);
        tables := tables[root := tables[root][i := tables[kroot][i]]];
        i := i + 1;
      }
      SparedRoot(old(Now()), Now(), root);
    }

    ghost predicate KernelRoot(kroot: nat)
      reads this, pool
    {
      kroot in tables && |tables[kroot]| == ENTRIES && kroot < |pool.used| && pool.used[kroot]
    }

    ghost function UsedFrames(): set<nat>
      reads this, pool
    {
      set f: nat | f < |pool.used| && pool.used[f]
    }

    // ---- many address spaces ------------------------------------------------------------------------------------

    ghost predicate Herd(spaces: seq<AddrSpace>)
      reads this, pool, spaces
    {
      && PoolOk()
      && (forall i :: 0 <= i < |spaces| ==> Sound(spaces[i]) && spaces[i].limit == USER)
      && (forall i, j :: 0 <= i < j < |spaces| ==> Apart(spaces[i], spaces[j]))
    }

    ghost function Held(spaces: seq<AddrSpace>): set<nat>
      reads spaces
    {
      set i, f | 0 <= i < |spaces| && f in spaces[i].at.Values :: f
    }

    // Every frame that was free at the start is free or held by one of the spaces; whatever was in use then is
    // untouched; every space still has the kernel's half.
    ghost predicate Living(spaces: seq<AddrSpace>, m0: Mem, kroot: nat)
      reads this, pool, spaces
    {
      && Herd(spaces) && FreeFrames() + Held(spaces) == FreeSet(m0.used) && Spared(m0, Now(), {}, Held(spaces))
      && KernelRoot(kroot) && kroot in m0.tables && |m0.tables[kroot]| == ENTRIES && kroot < |m0.used| && m0.used[kroot]
      && (forall i :: 0 <= i < |spaces| ==> Aliased(tables, spaces[i].at, USER) == m0.tables[kroot][USER..])
    }

    // One space changed; the others did not notice.
    twostate lemma OthersStay(spaces: seq<AddrSpace>, new k: nat)
      requires k < |spaces| && old(Herd(spaces)) && PoolOk() && Sound(spaces[k])
      requires forall j :: 0 <= j < |spaces| && j != k ==>
        spaces[j].at == old(spaces[j].at) && spaces[j].pml4 == old(spaces[j].pml4)
      requires Spared(old(Now()), Now(), old(spaces[k].at).Values, spaces[k].at.Values)
      ensures Herd(spaces)
      ensures forall j, q :: 0 <= j < |spaces| && j != k ==> Page(spaces[j], q) == old(Page(spaces[j], q))
      ensures forall j :: 0 <= j < |spaces| && j != k ==>
        Aliased(tables, spaces[j].at, USER) == Aliased(old(tables), old(spaces[j].at), USER)
    {
      hide Wf, Leaf, Aliased, Spared;
      forall j | 0 <= j < |spaces| && j != k
        ensures Sound(spaces[j]) && spaces[j].at.Values !! spaces[k].at.Values && spaces[j] != spaces[k]
        ensures Aliased(tables, spaces[j].at, USER) == Aliased(old(tables), old(spaces[j].at), USER)
        ensures forall q :: Page(spaces[j], q) == old(Page(spaces[j], q))
      {
        assert old(Apart(spaces[if j < k then j else k], spaces[if j < k then k else j]));
        OtherStays(spaces[j], old(spaces[k].at).Values, spaces[k].at.Values);
      }
    }

    // The frames of all spaces, when those of one moved between it and the pool.
    twostate lemma HeldMoved(spaces: seq<AddrSpace>, new k: nat)
      requires k < |spaces| && forall j :: 0 <= j < |spaces| && j != k ==> spaces[j].at == old(spaces[j].at)
      requires FreeFrames() + spaces[k].at.Values == old(FreeFrames() + spaces[k].at.Values)
      ensures FreeFrames() + Held(spaces) == old(FreeFrames() + Held(spaces))
    {
      var a, b := FreeFrames() + Held(spaces), old(FreeFrames() + Held(spaces));
      forall f | f in a ensures f in b {
        if f !in FreeFrames() { var j :| 0 <= j < |spaces| && f in spaces[j].at.Values;
          if j != k { assert f in old(spaces[j].at).Values; } }
      }
      forall f | f in b ensures f in a {
        if f !in old(FreeFrames()) { var j :| 0 <= j < |spaces| && f in old(spaces[j].at).Values;
          if j != k { assert f in spaces[j].at.Values; } }
      }
    }

    // A new space joins.
    method BeginSpace(spaces: seq<AddrSpace>, kroot: nat, ghost m0: Mem) returns (all: seq<AddrSpace>)
      requires Living(spaces, m0, kroot)
      modifies this, pool
      ensures Living(all, m0, kroot)
      ensures all == spaces || (|all| == |spaces| + 1 && all[..|spaces|] == spaces && fresh(all[|spaces|]))
      ensures forall j, q :: 0 <= j < |spaces| ==> Page(spaces[j], q) == old(Page(spaces[j], q))
    {
      hide Wf, Leaf, Page, Aliased, Spared, FreeSet, Held;
      RootStays(m0, kroot, Held(spaces));
      var rc, a := CreateUser(kroot);
      if rc != POK {
        Unmoved(spaces, m0, kroot);
        return spaces;
      }
      all := spaces + [a];
      Joined(spaces, a);
      StillLiving(spaces, all, m0, kroot);
    }

    twostate lemma Unmoved(spaces: seq<AddrSpace>, new m0: Mem, new kroot: nat)
      requires old(Living(spaces, m0, kroot)) && Now() == old(Now()) && PoolOk()
      requires forall j :: 0 <= j < |spaces| ==>
        spaces[j].at == old(spaces[j].at) && spaces[j].pml4 == old(spaces[j].pml4)
      ensures Living(spaces, m0, kroot)
      ensures forall j, q :: 0 <= j < |spaces| ==> Page(spaces[j], q) == old(Page(spaces[j], q))
    {
      hide Wf, Leaf, Aliased, Spared, FreeSet;
      forall j | 0 <= j < |spaces| ensures Sound(spaces[j]) { assert old(Sound(spaces[j])); }
      forall i, j | 0 <= i < j < |spaces|
        ensures Apart(spaces[i], spaces[j])
      {
        assert old(Apart(spaces[i], spaces[j]));
      }
      assert Held(spaces) == old(Held(spaces));
    }

    // What a step leaves to show.
    twostate lemma StillLiving(spaces: seq<AddrSpace>, new all: seq<AddrSpace>, new m0: Mem, new kroot: nat)
      requires old(Living(spaces, m0, kroot)) && Herd(all)
        && FreeFrames() + Held(all) == old(FreeFrames() + Held(spaces))
      requires Spared(old(Now()), Now(), old(Held(spaces)), Held(all))
      requires forall i :: 0 <= i < |all| ==> Aliased(tables, all[i].at, USER) == m0.tables[kroot][USER..]
      ensures Living(all, m0, kroot)
    {
      hide Herd, Aliased, FreeSet, Held, Spared;
      SparedTrans(m0, old(Now()), Now(), {}, old(Held(spaces)), Held(all));
      RootStays(m0, kroot, Held(all));
    }

    // A space that started on fresh frames beside the others.
    twostate lemma Joined(spaces: seq<AddrSpace>, new a: AddrSpace)
      requires old(Herd(spaces)) && PoolOk() && Sound(a) && a.limit == USER && a.at.Values !! old(UsedFrames())
      requires forall j :: 0 <= j < |spaces| ==>
        spaces[j] != a && spaces[j].at == old(spaces[j].at) && spaces[j].pml4 == old(spaces[j].pml4)
      requires Spared(old(Now()), Now(), {}, a.at.Values)
      ensures Herd(spaces + [a]) && Held(spaces + [a]) == old(Held(spaces)) + a.at.Values
      ensures Spared(old(Now()), Now(), old(Held(spaces)), Held(spaces + [a]))
      ensures forall j, q :: 0 <= j < |spaces| ==> Page(spaces[j], q) == old(Page(spaces[j], q))
      ensures forall j :: 0 <= j < |spaces| ==>
        Aliased(tables, spaces[j].at, USER) == Aliased(old(tables), old(spaces[j].at), USER)
    {
      hide Wf, Leaf, Aliased;
      var all := spaces + [a];
      forall j | 0 <= j < |spaces|
        ensures Sound(spaces[j]) && spaces[j].at.Values !! a.at.Values
        ensures Aliased(tables, spaces[j].at, USER) == Aliased(old(tables), old(spaces[j].at), USER)
        ensures forall q :: Page(spaces[j], q) == old(Page(spaces[j], q))
      {
        OtherStays(spaces[j], {}, a.at.Values);
      }
      forall f ensures f in Held(all) <==> f in old(Held(spaces)) + a.at.Values {
        if f in old(Held(spaces)) {
          var j :| 0 <= j < |spaces| && f in old(spaces[j].at).Values;
          assert f in all[j].at.Values;
        }
        if f in a.at.Values { assert f in all[|spaces|].at.Values; }
      }
    }

    // Map one page into space k, or fail to.
    method MapIn(spaces: seq<AddrSpace>, k: nat, virt: nat, content: Bytes, write: bool, nx: bool, ghost kroot: nat,
                 ghost m0: Mem) returns (rc: PErr)
      requires Living(spaces, m0, kroot) && k < |spaces| && IndexAt(virt, 4) < USER
      modifies this, pool, spaces[k]
      ensures Living(spaces, m0, kroot)
      ensures forall j, q :: 0 <= j < |spaces| && j != k ==> Page(spaces[j], q) == old(Page(spaces[j], q))
      ensures rc == POK ==> Page(spaces[k], PathOf(virt)) == Mapped(true, write, nx, content)
      ensures forall q :: (rc == POK ==> q != PathOf(virt)) ==> Page(spaces[k], q) == old(Page(spaces[k], q))
    {
      hide Wf, Leaf, Aliased, Spared, FreeSet, IndexAt, PathOf, Page, Held;
      Different(spaces);
      rc := AddPage(spaces[k], virt, content, write, nx);
      OneMoved(spaces, k, m0, kroot);
    }

    // One space changed, and kept its upper half and its books.
    twostate lemma OneMoved(spaces: seq<AddrSpace>, new k: nat, new m0: Mem, new kroot: nat)
      requires k < |spaces| && old(Living(spaces, m0, kroot)) && PoolOk() && Sound(spaces[k])
      requires forall j :: 0 <= j < |spaces| && j != k ==>
        spaces[j].at == old(spaces[j].at) && spaces[j].pml4 == old(spaces[j].pml4)
      requires Spared(old(Now()), Now(), old(spaces[k].at).Values, spaces[k].at.Values)
        && Stock(spaces[k]) == old(Stock(spaces[k]))
      requires Aliased(tables, spaces[k].at, USER) == Aliased(old(tables), old(spaces[k].at), USER)
      ensures Living(spaces, m0, kroot)
      ensures forall j, q :: 0 <= j < |spaces| && j != k ==> Page(spaces[j], q) == old(Page(spaces[j], q))
    {
      hide Wf, Leaf, Aliased, Spared, FreeSet, Page, Held;
      OthersStay(spaces, k);
      HeldMoved(spaces, k);
      SparedHeld(spaces, k);
      StillLiving(spaces, spaces, m0, kroot);
    }

    // Clone space s into space k, or fail to.
    method CloneInto(spaces: seq<AddrSpace>, k: nat, s: nat, ghost kroot: nat, ghost m0: Mem) returns (rc: PErr)
      requires Living(spaces, m0, kroot) && k < |spaces| && s < |spaces| && k != s
      modifies this, pool, spaces[k]
      ensures Living(spaces, m0, kroot)
      ensures forall j, q :: 0 <= j < |spaces| && j != k ==> Page(spaces[j], q) == old(Page(spaces[j], q))
      ensures rc == POK ==> forall q :: Merged(Page(spaces[s], q), old(Page(spaces[k], q)), Page(spaces[k], q))
    {
      hide Wf, Leaf, Aliased, Spared, FreeSet, Page, Held;
      Different(spaces);
      assert Apart(spaces[if k < s then k else s], spaces[if k < s then s else k]);
      rc := Clone(spaces[k], spaces[s]);
      OneMoved(spaces, k, m0, kroot);
    }

    lemma Different(spaces: seq<AddrSpace>)
      requires Herd(spaces)
      ensures forall i, j :: 0 <= i < |spaces| && 0 <= j < |spaces| && i != j ==> spaces[i] != spaces[j]
    {
      forall i, j | 0 <= i < |spaces| && 0 <= j < |spaces| && i != j ensures spaces[i] != spaces[j] {
        assert Apart(spaces[if i < j then i else j], spaces[if i < j then j else i]);
      }
    }

    twostate lemma SparedHeld(spaces: seq<AddrSpace>, new k: nat)
      requires k < |spaces| && forall j :: 0 <= j < |spaces| && j != k ==> spaces[j].at == old(spaces[j].at)
      requires Spared(old(Now()), Now(), old(spaces[k].at).Values, spaces[k].at.Values)
      ensures Spared(old(Now()), Now(), old(Held(spaces)), Held(spaces))
    {
      forall f | f in old(spaces[k].at).Values ensures f in old(Held(spaces)) {}
      forall f: nat | f in Held(spaces) ensures f in old(Held(spaces)) || (f < |old(pool.used)| && !old(pool.used)[f]) {
        var j :| 0 <= j < |spaces| && f in spaces[j].at.Values;
        if j != k { assert f in old(spaces[j].at).Values; }
      }
    }

    // The kernel's root table was in use from the start and belongs to no space.
    lemma RootStays(m0: Mem, kroot: nat, held: set<nat>)
      requires kroot in m0.tables && |m0.tables[kroot]| == ENTRIES && kroot < |m0.used| && m0.used[kroot]
      requires Spared(m0, Now(), {}, held)
      ensures KernelRoot(kroot) && tables[kroot] == m0.tables[kroot]
    {}

    function Without(spaces: seq<AddrSpace>, k: nat): (rest: seq<AddrSpace>)
      requires k < |spaces|
      ensures |rest| == |spaces| - 1 && forall j :: 0 <= j < |rest| ==> rest[j] == spaces[if j < k then j else j + 1]
    {
      spaces[..k] + spaces[k + 1..]
    }

    // Space k is destroyed.
    method EndSpace(spaces: seq<AddrSpace>, k: nat, ghost kroot: nat, ghost m0: Mem) returns (rest: seq<AddrSpace>)
      requires Living(spaces, m0, kroot) && k < |spaces|
      modifies pool, spaces[k]
      ensures rest == Without(spaces, k) && Living(rest, m0, kroot)
      ensures forall j, q :: 0 <= j < |spaces| && j != k ==> Page(spaces[j], q) == old(Page(spaces[j], q))
    {
      hide Wf, Leaf, Aliased, FreeSet, Spared, Held;
      Different(spaces);
      rest := Without(spaces, k);
      RootStays(m0, kroot, Held(spaces));
      Destroy(spaces[k]);
      Left(spaces, k, m0);
      RootStays(m0, kroot, Held(rest));
    }

    twostate lemma Left(spaces: seq<AddrSpace>, new k: nat, new m0: Mem)
      requires k < |spaces| && old(Herd(spaces)) && PoolOk() && tables == old(tables) && pages == old(pages)
      requires Dropped(old(pool.used), pool.used, old(spaces[k].at).Values)
      requires forall j :: 0 <= j < |spaces| && j != k ==>
        spaces[j].at == old(spaces[j].at) && spaces[j].pml4 == old(spaces[j].pml4)
      requires old(FreeFrames() + Held(spaces)) == FreeSet(m0.used) && Spared(m0, old(Now()), {}, old(Held(spaces)))
      ensures var rest := Without(spaces, k);
        Herd(rest) && FreeFrames() + Held(rest) == FreeSet(m0.used) && Spared(m0, Now(), {}, Held(rest))
    {
      hide Wf, Leaf, Held, FreeSet, Spared, Dropped;
      var rest := Without(spaces, k);
      forall j | 0 <= j < |rest| ensures Sound(rest[j]) && rest[j].limit == USER {
        LeftSound(spaces, k, if j < k then j else j + 1);
      }
      forall i, j | 0 <= i < j < |rest| ensures Apart(rest[i], rest[j]) {
        assert old(Apart(spaces[if i < k then i else i + 1], spaces[if j < k then j else j + 1]));
      }
      LeftHeld(spaces, k);
      DroppedSums(m0.used, old(pool.used), pool.used, old(Held(spaces)), Held(rest), old(spaces[k].at).Values);
      SparedDrop(m0, old(Now()), Now(), old(Held(spaces)), Held(rest), old(spaces[k].at).Values);
    }

    twostate lemma LeftSound(spaces: seq<AddrSpace>, new k: nat, new j: nat)
      requires k < |spaces| && j < |spaces| && j != k && old(Herd(spaces)) && PoolOk() && tables == old(tables)
        && pages == old(pages)
      requires Dropped(old(pool.used), pool.used, old(spaces[k].at).Values)
      requires spaces[j].at == old(spaces[j].at) && spaces[j].pml4 == old(spaces[j].pml4)
      ensures Sound(spaces[j])
    {
      hide Leaf;
      assert old(Apart(spaces[if j < k then j else k], spaces[if j < k then k else j]));
      assert old(Sound(spaces[j]));
    }

    twostate lemma LeftHeld(spaces: seq<AddrSpace>, new k: nat)
      requires k < |spaces| && old(Herd(spaces))
      requires forall j :: 0 <= j < |spaces| && j != k ==> spaces[j].at == old(spaces[j].at)
      ensures Held(Without(spaces, k)) == old(Held(spaces)) - old(spaces[k].at).Values
        && old(spaces[k].at).Values <= old(Held(spaces))
    {
      hide Wf, Sound;
      var rest := Without(spaces, k);
      forall f | f in Held(rest) ensures f in old(Held(spaces)) && f !in old(spaces[k].at).Values {
        var j :| 0 <= j < |rest| && f in rest[j].at.Values;
        var i := if j < k then j else j + 1;
        assert f in old(spaces[i].at).Values
          && old(Apart(spaces[if i < k then i else k], spaces[if i < k then k else i]));
      }
      forall f | f in old(Held(spaces)) && f !in old(spaces[k].at).Values ensures f in Held(rest) {
        var i :| 0 <= i < |spaces| && f in old(spaces[i].at).Values;
        assert rest[if i < k then i else i - 1] == spaces[i];
      }
    }

    // Any number of address spaces, created, mapped into, cloned into each other and destroyed in any order,
    // successfully or not, and destroyed in the end: the pool is exactly what it was, and nothing that was in use,
    // the kernel's tables included, has changed.
    method LifeCycle(kroot: nat, steps: seq<Life>)
      requires PoolOk() && KernelRoot(kroot)
      modifies this, pool
      ensures PoolOk() && FreeFrames() == old(FreeFrames()) && Spared(old(Now()), Now(), {}, {})
        && tables[kroot] == old(tables)[kroot]
    {
      hide Spared, FreeSet, IndexAt, Page, Living, Herd;
      ghost var m0 := Now();
      var spaces: seq<AddrSpace> := [];
      NoneLiving(kroot);
      var i := 0;
      while i < |steps|
        invariant Living(spaces, m0, kroot) && forall j :: 0 <= j < |spaces| ==> fresh(spaces[j])
      {
        spaces := DoStep(spaces, steps[i], kroot, m0);
        i := i + 1;
      }
      while spaces != []
        invariant Living(spaces, m0, kroot) && forall j :: 0 <= j < |spaces| ==> fresh(spaces[j])
        decreases |spaces|
      {
        spaces := EndSpace(spaces, 0, kroot, m0);
      }
      NoneHeld(m0, kroot);
    }

    lemma NoneLiving(kroot: nat)
      requires PoolOk() && KernelRoot(kroot)
      ensures Living([], Now(), kroot)
    {
      assert Held([]) == {};
      SparedRefl(Now(), {});
    }

    lemma NoneHeld(m0: Mem, kroot: nat)
      requires Living([], m0, kroot)
      ensures PoolOk() && FreeFrames() == FreeSet(m0.used) && Spared(m0, Now(), {}, {})
        && tables[kroot] == m0.tables[kroot]
    {
      assert Held([]) == {};
    }

    method DoStep(spaces: seq<AddrSpace>, step: Life, kroot: nat, ghost m0: Mem) returns (all: seq<AddrSpace>)
      requires Living(spaces, m0, kroot)
      modifies this, pool, spaces
      ensures Living(all, m0, kroot) && forall j :: 0 <= j < |all| ==> all[j] in spaces || fresh(all[j])
    {
      hide Wf, Leaf, Aliased, Spared, FreeSet, IndexAt, Page, Living;
      all := spaces;
      match step
      case Begin => all := BeginSpace(spaces, kroot, m0);
      case Map(k, virt, content, write, nx) =>
        if k < |spaces| && IndexAt(virt, 4) < USER { var _ := MapIn(spaces, k, virt, content, write, nx, kroot, m0); }
      case Copy(k, s) => if k < |spaces| && s < |spaces| && k != s { var _ := CloneInto(spaces, k, s, kroot, m0); }
      case End(k) => if k < |spaces| { all := EndSpace(spaces, k, kroot, m0); }
    }

    // Write one leaf entry.
    method SetLeaf(a: AddrSpace, ghost p: Loc, table: nat, idx: nat, e: Entry) returns (rc: PErr)
      requires Sound(a) && p in a.at && |p| == 3 && table == a.at[p] && idx < ENTRIES && p + [idx] !in a.at
      requires e.present && !e.large && e.frame != 0 && e.frame !in a.at.Values && e.frame in pages
        && e.frame < |pool.used| && pool.used[e.frame] && (e.user ==> EntryAt(tables, a.at, p).user)
      modifies this`tables, a`at
      ensures rc == POK && Sound(a) && a.at == old(a.at)[p + [idx] := e.frame] && Leaf(tables, a.at, p + [idx]) == e
      ensures forall q :: |q| == 4 && q != p + [idx] ==>
        (q in a.at <==> q in old(a.at)) && Leaf(tables, a.at, q) == Leaf(old(tables), old(a.at), q)
      ensures Aliased(tables, a.at, a.limit) == Aliased(old(tables), old(a.at), a.limit)
      ensures TablesKept(old(tables), tables, old(a.at).Values)
    {
      hide Wf, Leaf;
      WfFacts(tables, a.at, a.limit);
      WfSlot(tables, a.at, a.limit, p, idx);
      PageAdded(tables, a.at, a.limit, p, idx, e.frame, e);
      assert a.at[p] in a.at.Values;
      tables := tables[table := tables[table][idx := e]];
      ValuesAdded(a.at, p + [idx], e.frame);
      a.at := a.at[p + [idx] := e.frame];
      rc := POK;
    }

    method MakeTable(a: AddrSpace, ghost p: Loc, table: nat, index: nat, user: bool) returns (f: nat)
      requires Sound(a) && p in a.at && |p| < 3 && table == a.at[p] && index < Slots(a.limit, p)
      requires SlotOk(tables, a.at, p, index) && !tables[table][index].present
      requires user && p != [] ==> EntryAt(tables, a.at, p).user
      modifies this`tables, pool, a`at
      ensures Sound(a) && |pool.used| == |old(pool.used)|
      ensures f == 0 ==>
        p + [index] !in a.at && tables == old(tables) && a.at == old(a.at) && pool.used == old(pool.used)
        && FreeFrames() == {}
      ensures f != 0 ==>
        f < |pool.used| && !old(pool.used)[f] && p + [index] !in old(a.at) && a.at == old(a.at)[p + [index] := f]
        && pool.used == old(pool.used)[f := true] && (user ==> EntryAt(tables, a.at, p + [index]).user)
      ensures forall q :: |q| == 4 ==>
        (q in a.at <==> q in old(a.at)) && Leaf(tables, a.at, q) == Leaf(old(tables), old(a.at), q)
      ensures Aliased(tables, a.at, a.limit) == Aliased(old(tables), old(a.at), a.limit)
      ensures TablesKept(old(tables), tables, a.at.Values)
    {
      hide Wf, SlotOk;
      WfFacts(tables, a.at, a.limit);
      SlotFacts(tables, a.at, p, index);
      ghost var at0 := a.at;
      f := AllocFrame();
      if f == 0 { return; }
      TableAdded(tables, a.at, a.limit, p, index, f, Entry(true, f, user, true, false, false));
      tables := tables[f := Blank()];
      tables := tables[table := tables[table][index := Entry(true, f, user, true, false, false)]];
      a.at := a.at[p + [index] := f];
      ValuesAdded(at0, p + [index], f);
      assert a.at[p] in a.at.Values;
    }
  }

  lemma GrewRefl(used: seq<bool>, at: map<Loc, nat>)
    requires forall f :: f in at.Values ==> f < |used| && used[f]
    ensures Grew(used, at, used, at)
  {}

  // A frame in use that is not the tree's is not taken by growing the tree.
  lemma NotGrown(used: seq<bool>, at: map<Loc, nat>, used': seq<bool>, at': map<Loc, nat>, f: nat)
    requires Grew(used, at, used', at') && f < |used| && used[f] && f !in at.Values
    ensures f !in at'.Values && |used'| == |used| && used'[f]
  {}

  lemma FrameOf(f: nat)
    ensures f * PAGE / PAGE == f && f * PAGE % PAGE == 0
  {}

  // The frames a tree grows by are nobody else's.
  ghost predicate Took(used: seq<bool>, held: set<nat>, used': seq<bool>, held': set<nat>, f: nat) {
    && |used'| == |used|
    && (forall g: nat :: g < |used| && used[g] && g != f ==> used'[g])
    && (forall g :: g in held' ==> g in held || g == f || (g < |used| && !used[g]))
  }

  lemma GrewTook(used: seq<bool>, at: map<Loc, nat>, used': seq<bool>, at': map<Loc, nat>, f: nat)
    requires Grew(used, at, used', at') && f < |used|
    ensures Took(used, at.Values, used', at'.Values + {f}, f) && |used'| == |used|
      && Took(used, at.Values, used'[f := false], at'.Values, f)
  {}

  lemma PageValues(at: map<Loc, nat>, q: Loc)
    requires q in at
    ensures at.Values == (at - {q}).Values + {at[q]}
  {
    var at1 := at - {q};
    forall v | v in at.Values ensures v in at1.Values + {at[q]} {
      var r :| r in at && at[r] == v;
      if r != q { assert at1[r] == v; }
    }
    forall v | v in at1.Values ensures v in at.Values {
      var r :| r in at1 && at1[r] == v;
      assert at[r] == v;
    }
  }

  // Another tree is not touched by writes to tables that are not its own.
  lemma OtherKept(tables: map<nat, seq<Entry>>, tables': map<nat, seq<Entry>>, at: map<Loc, nat>, limit: nat,
                  fs: set<nat>)
    requires Wf(tables, at, limit) && TablesKept(tables, tables', fs) && fs !! at.Values
    ensures Wf(tables', at, limit) && forall q :: Leaf(tables', at, q) == Leaf(tables, at, q)
    ensures Aliased(tables', at, limit) == Aliased(tables, at, limit)
  {
    forall p | p in at ensures at[p] !in fs { assert at[p] in at.Values; }
    forall p, i: nat | p in at && |p| < 4 && i < Slots(limit, p) ensures SlotOk(tables', at, p, i) {
      assert SlotOk(tables, at, p, i);
    }
    forall q ensures Leaf(tables', at, q) == Leaf(tables, at, q) {
      if |q| == 4 && q in at {
        assert LocOk(at, limit, q) && Up(q) == q[..3];
        assert SlotOk(tables, at, q[..3], q[3]);
      }
    }
    assert SlotOk(tables, at, [], 0);
    forall q | q in at && q != [] ensures EntryAt(tables', at, q) == EntryAt(tables, at, q) {
      assert LocOk(at, limit, q) && SlotOk(tables, at, Up(q), Last(q));
    }
    PassSame(tables, tables', at, limit);
  }

  // Root slots above the limit are not part of the tree.
  lemma UpperKept(tables: map<nat, seq<Entry>>, at: map<Loc, nat>, limit: nat, i: nat, e: Entry)
    requires Wf(tables, at, limit) && limit <= i < ENTRIES
    ensures at[[]] in tables && |tables[at[[]]]| == ENTRIES && Wf(tables[at[[]] := tables[at[[]]][i := e]], at, limit)
  {
    assert SlotOk(tables, at, [], 0);
    var tables' := tables[at[[]] := tables[at[[]]][i := e]];
    forall q, j: nat | q in at && |q| < 4 && j < Slots(limit, q) ensures SlotOk(tables', at, q, j) {
      assert SlotOk(tables, at, q, j);
      assert at[q] == at[[]] ==> q == [];
    }
    forall q | q in at && q != [] ensures EntryAt(tables', at, q) == EntryAt(tables, at, q) {
      assert LocOk(at, limit, q) && (at[Up(q)] == at[[]] ==> Up(q) == []);
    }
    PassSame(tables, tables', at, limit);
  }

  // Growing moves frames from the pool into the tree and loses none.
  lemma GrewStock(used: seq<bool>, at: map<Loc, nat>, used': seq<bool>, at': map<Loc, nat>)
    requires Grew(used, at, used', at') && forall f :: f in at.Values ==> f < |used| && used[f]
    ensures FreeSet(used') + at'.Values == FreeSet(used) + at.Values
  {
    forall f ensures f in FreeSet(used') + at'.Values <==> f in FreeSet(used) + at.Values {}
  }

  lemma GrewNext(used: seq<bool>, at: map<Loc, nat>, used1: seq<bool>, at1: map<Loc, nat>, p: Loc, f: nat)
    requires Grew(used, at, used1, at1) && p !in at1 && f < |used1| && !used1[f]
    ensures Grew(used, at, used1[f := true], at1[p := f])
  {
    ValuesAdded(at1, p, f);
  }

  // Only tables among the frames fs were written.
  ghost predicate TablesKept(tables: map<nat, seq<Entry>>, tables': map<nat, seq<Entry>>, fs: set<nat>) {
    forall f :: f in tables && f !in fs ==> f in tables' && tables'[f] == tables[f]
  }

  lemma ValuesAdded(at: map<Loc, nat>, p: Loc, f: nat)
    requires p !in at
    ensures at[p := f].Values == at.Values + {f}
  {
    assert at[p := f][p] == f;
    forall v | v in at.Values ensures v in at[p := f].Values {
      var q :| q in at && at[q] == v;
      assert at[p := f][q] == v;
    }
  }

  lemma SlotFacts(tables: map<nat, seq<Entry>>, at: map<Loc, nat>, p: Loc, i: nat)
    requires p in at && SlotOk(tables, at, p, i)
    ensures at[p] in tables && |tables[at[p]]| == ENTRIES && i < ENTRIES
    ensures var e := tables[at[p]][i];
      (e.present <==> p + [i] in at) && (e.present ==> e.frame == at[p + [i]] && !e.large)
  {}

  lemma KeptRefl(tables: map<nat, seq<Entry>>, fs: set<nat>)
    ensures TablesKept(tables, tables, fs)
  {}

  lemma KeptMore(tables: map<nat, seq<Entry>>, tables1: map<nat, seq<Entry>>, tables2: map<nat, seq<Entry>>,
                 fs1: set<nat>, fs2: set<nat>, fs': set<nat>)
    requires TablesKept(tables, tables1, fs1) && TablesKept(tables1, tables2, fs2) && fs1 <= fs' && fs2 <= fs'
    ensures TablesKept(tables, tables2, fs')
  {}

  lemma IndexBound(virt: nat, level: nat)
    requires 1 <= level <= 4
    ensures IndexAt(virt, level) < ENTRIES
  {}

  lemma WfNonZero(tables: map<nat, seq<Entry>>, at: map<Loc, nat>, limit: nat, p: Loc)
    requires Wf(tables, at, limit) && p in at
    ensures at[p] != 0
  {
    assert LocOk(at, limit, p);
  }

  // q lies strictly below p; in one of its first i slots.
  ghost predicate Under(p: Loc, q: Loc) { |q| > |p| && q[..|p|] == p }

  ghost predicate UnderTo(p: Loc, q: Loc, i: nat) { Under(p, q) && q[|p|] < i }

  // Exactly the frames below the first i slots of p were freed.
  ghost predicate Freed(used: seq<bool>, used': seq<bool>, at: map<Loc, nat>, p: Loc, i: nat) {
    && |used'| == |used|
    && (forall f: nat :: f < |used| && used'[f] ==> used[f])
    && (forall q :: q in at && UnderTo(p, q, i) && at[q] < |used| ==> !used'[at[q]])
    && (forall f: nat :: f < |used| && used[f] && !used'[f] ==> exists q :: q in at && UnderTo(p, q, i) && at[q] == f)
  }

  lemma UnderChild(p: Loc, q: Loc, i: nat)
    ensures UnderTo(p, q, i + 1) <==> UnderTo(p, q, i) || q == p + [i] || Under(p + [i], q)
    ensures !(UnderTo(p, q, i) && (q == p + [i] || Under(p + [i], q)))
  {
    if Under(p, q) {
      assert q[..|p| + 1] == p + [q[|p|]];
      if q[|p|] == i && |q| == |p| + 1 { assert q == q[..|p| + 1]; }
    }
    if Under(p + [i], q) {
      assert q[..|p|] == q[..|p| + 1][..|p|];
      assert q[|p|] == q[..|p| + 1][|p|];
    }
  }

  lemma NothingFreed(used: seq<bool>, at: map<Loc, nat>, p: Loc)
    ensures Freed(used, used, at, p, 0)
  {}

  // Frames below slot i have not been freed by freeing the slots before it.
  lemma StillHeld(used: seq<bool>, used': seq<bool>, at: map<Loc, nat>, p: Loc, i: nat)
    requires Freed(used, used', at, p, i) && forall q, r :: q in at && r in at && at[q] == at[r] ==> q == r
    requires forall q :: q in at && Under(p, q) ==> at[q] < |used| && used[at[q]]
    ensures forall q :: q in at && (q == p + [i] || Under(p + [i], q)) ==> at[q] < |used'| && used'[at[q]]
  {
    forall q | q in at && (q == p + [i] || Under(p + [i], q)) ensures at[q] < |used'| && used'[at[q]] {
      UnderChild(p, q, i);
    }
  }

  // Freeing what is below a table leaves the table.
  lemma ChildKept(used: seq<bool>, used': seq<bool>, at: map<Loc, nat>, limit: nat, tables: map<nat, seq<Entry>>,
                  c: Loc, slots: nat)
    requires Freed(used, used', at, c, slots) && c in at && forall q, r :: q in at && r in at && at[q] == at[r] ==>
      q == r
    requires at[c] < |used| && used[at[c]]
    ensures used'[at[c]]
  {}

  lemma NothingBelow(at: map<Loc, nat>, limit: nat, tables: map<nat, seq<Entry>>, used: seq<bool>, c: Loc)
    requires Wf(tables, at, limit) && |c| == 4
    ensures Freed(used, used, at, c, ENTRIES)
  {
    forall q | q in at ensures !Under(c, q) { assert LocOk(at, limit, q); }
  }

  lemma FreedSkip(used: seq<bool>, used': seq<bool>, at: map<Loc, nat>, limit: nat, tables: map<nat, seq<Entry>>,
                  p: Loc, i: nat)
    requires Wf(tables, at, limit) && Freed(used, used', at, p, i) && p + [i] !in at
    ensures Freed(used, used', at, p, i + 1)
  {
    forall q | q in at ensures UnderTo(p, q, i + 1) <==> UnderTo(p, q, i) {
      UnderChild(p, q, i);
      if Under(p + [i], q) { Unreached(tables, at, limit, q, |p| + 1); }
    }
  }

  lemma FreedNext(used: seq<bool>, used1: seq<bool>, used2: seq<bool>, at: map<Loc, nat>, limit: nat,
                  tables: map<nat, seq<Entry>>, p: Loc, i: nat)
    requires Wf(tables, at, limit) && p + [i] in at && at[p + [i]] < |used2|
    requires Freed(used, used1, at, p, i) && Freed(used1, used2, at, p + [i], ENTRIES)
    ensures Freed(used, used2[at[p + [i]] := false], at, p, i + 1)
  {
    var c := p + [i];
    var used3 := used2[at[c] := false];
    forall q | q in at && UnderTo(p, q, i + 1) && at[q] < |used| ensures !used3[at[q]] {
      UnderChild(p, q, i);
      if Under(c, q) { SlotBound(tables, at, limit, c, q); }
    }
    forall f: nat | f < |used| && used[f] && !used3[f] ensures exists q ::
      q in at && UnderTo(p, q, i + 1) && at[q] == f {
      if !used1[f] {
        var q :| q in at && UnderTo(p, q, i) && at[q] == f;
        UnderChild(p, q, i);
      } else if f == at[c] {
        UnderChild(p, c, i);
      } else {
        var q :| q in at && UnderTo(c, q, ENTRIES) && at[q] == f;
        UnderChild(p, q, i);
      }
    }
  }

  // Every prefix of a location is one.
  lemma PrefixIn(tables: map<nat, seq<Entry>>, at: map<Loc, nat>, limit: nat, q: Loc, n: nat)
    requires Wf(tables, at, limit) && q in at && n <= |q|
    ensures q[..n] in at
  {
    if q[..n] !in at { Unreached(tables, at, limit, q, n); }
  }

  lemma SlotBound(tables: map<nat, seq<Entry>>, at: map<Loc, nat>, limit: nat, c: Loc, q: Loc)
    requires Wf(tables, at, limit) && q in at && Under(c, q)
    ensures UnderTo(c, q, Slots(limit, c)) && (c != [] ==> UnderTo(c, q, ENTRIES))
  {
    PrefixIn(tables, at, limit, q, |c| + 1);
    var d := q[..|c| + 1];
    assert LocOk(at, limit, d) && Up(d) == c && Last(d) == q[|c|];
  }

  lemma RootKept(used: seq<bool>, used': seq<bool>, at: map<Loc, nat>, limit: nat, tables: map<nat, seq<Entry>>)
    requires Wf(tables, at, limit) && Freed(used, used', at, [], limit) && at[[]] < |used| && used[at[[]]]
    ensures used'[at[[]]]
  {}

  lemma AllFreed(used: seq<bool>, used1: seq<bool>, at: map<Loc, nat>, limit: nat, tables: map<nat, seq<Entry>>)
    requires Wf(tables, at, limit) && Freed(used, used1, at, [], limit) && at[[]] < |used|
    requires forall f :: f in at.Values ==> f < |used| && used[f]
    ensures var used2 := used1[at[[]] := false];
      forall f: nat :: f < |used| ==> (!used2[f] <==> !used[f] || f in at.Values)
  {
    var used2 := used1[at[[]] := false];
    forall f: nat | f < |used| ensures !used2[f] <==> !used[f] || f in at.Values {
      if f in at.Values {
        var q :| q in at && at[q] == f;
        if q != [] {
          assert q[..0] == [] && Under([], q);
          SlotBound(tables, at, limit, [], q);
        }
      }
    }
  }

  // Without one of its tables a page is absent.
  lemma {:induction false} Unreached(tables: map<nat, seq<Entry>>, at: map<Loc, nat>, limit: nat, path: Loc, n: nat)
    requires Wf(tables, at, limit) && n <= |path| && path[..n] !in at
    ensures path !in at
    decreases |path| - n
  {
    if n < |path| {
      assert path[..n + 1] == path[..n] + [path[n]];
      NoOrphan(at, limit, path[..n], path[n]);
      Unreached(tables, at, limit, path, n + 1);
    } else {
      assert path[..n] == path;
    }
  }

  lemma WfLoc(tables: map<nat, seq<Entry>>, at: map<Loc, nat>, limit: nat, p: Loc)
    requires Wf(tables, at, limit) && p in at
    ensures LocOk(at, limit, p)
  {}

  lemma WfSlot(tables: map<nat, seq<Entry>>, at: map<Loc, nat>, limit: nat, p: Loc, i: nat)
    requires Wf(tables, at, limit) && p in at && |p| < 4 && i < Slots(limit, p)
    ensures SlotOk(tables, at, p, i)
  {}

  lemma WfFacts(tables: map<nat, seq<Entry>>, at: map<Loc, nat>, limit: nat)
    requires Wf(tables, at, limit)
    ensures [] in at && 0 < limit <= ENTRIES
    ensures forall p, q :: p in at && q in at && at[p] == at[q] ==> p == q
    ensures forall p :: p in at ==> at[p] != 0 && |p| <= 4
  {
    forall p | p in at ensures at[p] != 0 && |p| <= 4 { assert LocOk(at, limit, p); }
  }
}
