// The abstract filesystem: what graphfs promises to store, with no blocks in sight.
// A filesystem is a sequence of nodes indexed by node id.  The operations below are the
// specification that the block-level code refines.
module Namespace {
  import opened GfsTypes

  datatype Node =
    | Free
    | Dir(entries: map<Name, nat>, parent: nat, nlink: nat, mode: nat)
    | File(content: seq<byte>, nlink: nat, mode: nat)

  type Fs = seq<Node>

  function Nlink(n: Node): nat {
    if n.Free? then 0 else n.nlink
  }

  // One NAME edge, from directory d under name nm.
  datatype Link = Link(d: nat, nm: Name)

  function Entries(n: Node): map<Name, nat> {
    if n.Dir? then n.entries else map[]
  }

  ghost predicate IsLink(fs: Fs, d: nat, nm: Name, t: nat) {
    d < |fs| && nm in Entries(fs[d]) && Entries(fs[d])[nm] == t
  }

  // All NAME edges that end in t.
  ghost function Links(fs: Fs, t: nat): set<Link> {
    set d, nm | 0 <= d < |fs| && nm in Entries(fs[d]) && Entries(fs[d])[nm] == t :: Link(d, nm)
  }

  function ParentOf(fs: Fs, x: nat): nat {
    if x < |fs| && fs[x].Dir? then fs[x].parent else 0
  }

  // The k-th ancestor along the stored parent fields.
  function Anc(fs: Fs, x: nat, k: nat): nat
    decreases k
  {
    if k == 0 then x else Anc(fs, ParentOf(fs, x), k - 1)
  }

  ghost predicate Rooted(fs: Fs, x: nat) {
    exists k: nat :: Anc(fs, x, k) == ROOT
  }

  ghost predicate EdgesOk(fs: Fs) {
    forall d: nat, nm: Name, t: nat :: IsLink(fs, d, nm, t) ==> 0 < t < |fs| && !fs[t].Free? && NameCheck(nm) == OK
  }

  ghost predicate LinksExact(fs: Fs) {
    forall t {:trigger Links(fs, t)} :: 0 <= t < |fs| && !fs[t].Free? ==> fs[t].nlink == |Links(fs, t)|
  }

  // The directory t has exactly one name, in the directory it calls its parent.
  ghost predicate HasOneName(fs: Fs, t: nat) {
    t < |fs| && fs[t].Dir? && exists nm :: Links(fs, t) == {Link(fs[t].parent, nm)}
  }

  ghost predicate SingleParent(fs: Fs) {
    forall t {:trigger HasOneName(fs, t)} :: 0 <= t < |fs| && fs[t].Dir? && t != ROOT ==> HasOneName(fs, t)
  }

  ghost predicate AllRooted(fs: Fs) {
    forall t {:trigger Rooted(fs, t)} :: 0 <= t < |fs| && fs[t].Dir? ==> Rooted(fs, t)
  }

  ghost predicate NoOrphans(fs: Fs) {
    forall t :: 0 <= t < |fs| && fs[t].File? ==> fs[t].nlink > 0
  }

  ghost predicate RootOk(fs: Fs) {
    && |fs| >= 2
    && fs[0].Free?
    && fs[ROOT].Dir? && fs[ROOT].parent == ROOT
    && Links(fs, ROOT) == {}
  }

  // The namespace is a tree of directories rooted at node 1, with files hanging off it.
  ghost predicate TreeInv(fs: Fs) {
    && RootOk(fs)
    && EdgesOk(fs)
    && LinksExact(fs)
    && SingleParent(fs)
    && AllRooted(fs)
    && NoOrphans(fs)
  }

  // ---- operations -------------------------------------------------------------------

  function DirCheck(fs: Fs, d: nat): (e: Err)
  {
    if d == 0 || d >= |fs| then EINVAL
    else if !fs[d].Dir? then ENOTDIR
    else OK
  }

  function LookupDir(fs: Fs, d: nat, name: Name): Res<nat> {
    var e := DirCheck(fs, d);
    if e != OK then Fail(e)
    else if name in fs[d].entries then Ok(fs[d].entries[name])
    else Fail(ENOENT)
  }

  function Lookup(fs: Fs, d: nat, name: Name): Res<nat> {
    if NameCheck(name) != OK then Fail(NameCheck(name)) else LookupDir(fs, d, name)
  }

  // Least free id not below `from`, or |fs| when there is none.
  function FirstFree(fs: Fs, from: nat): (id: nat)
    requires from <= |fs|
    ensures from <= id <= |fs|
    ensures id < |fs| ==> fs[id].Free?
    ensures forall j :: from <= j < id ==> !fs[j].Free?
    decreases |fs| - from
  {
    if from == |fs| || fs[from].Free? then from else FirstFree(fs, from + 1)
  }

  function AddEntry(fs: Fs, d: nat, name: Name, t: nat): Fs
    requires d < |fs| && fs[d].Dir?
  {
    fs[d := fs[d].(entries := fs[d].entries[name := t])]
  }

  function DropEntry(fs: Fs, d: nat, name: Name): Fs
    requires d < |fs| && fs[d].Dir?
  {
    fs[d := fs[d].(entries := fs[d].entries - {name})]
  }

  // One NAME edge to t has gone: lower nlink, and free the node with its content at zero.
  function DropLink(fs: Fs, t: nat): Fs
    requires t < |fs| && !fs[t].Free? && fs[t].nlink > 0
  {
    if fs[t].nlink == 1 then fs[t := Free] else fs[t := fs[t].(nlink := fs[t].nlink - 1)]
  }

  datatype Kind = KDir | KFile

  function NewNode(kind: Kind, mode: nat, dir: nat): Node {
    match kind
    case KDir => Dir(map[], dir, 1, mode)
    case KFile => File([], 1, mode)
  }

  datatype Created = Created(fs: Fs, id: nat)

  function Create(fs: Fs, dir: nat, name: Name, kind: Kind, mode: nat): Res<Created>
    requires |fs| >= 2
  {
    var l := Lookup(fs, dir, name);
    if l.Ok? then Fail(EEXIST)
    else if l.e != ENOENT then Fail(l.e)
    else
      var id := FirstFree(fs, 1);
      if id >= |fs| then Fail(ENOSPC)
      else Ok(Created(AddEntry(fs[id := NewNode(kind, mode, dir)], dir, name, id), id))
  }

  // gfs_link for NAME edges.  The directory's record is written last, so when a directory is
  // linked into itself the raised nlink is lost.
  function LinkAt(fs: Fs, dir: nat, name: Name, t: nat): Res<Fs> {
    if NameCheck(name) != OK then Fail(NameCheck(name))
    else if dir == 0 || dir >= |fs| || t == 0 || t >= |fs| then Fail(EINVAL)
    else if fs[t].Free? then Fail(ENOENT)
    else if !fs[dir].Dir? then Fail(ENOTDIR)
    else if name in fs[dir].entries then Fail(EEXIST)
    else if fs[t].Dir? && fs[t].nlink >= 1 then Fail(EMANYPARENTS)
    else if t == dir then Ok(AddEntry(fs, dir, name, t))
    else Ok(AddEntry(Adopt(fs, t, dir), dir, name, t))
  }

  function Adopt(fs: Fs, t: nat, dir: nat): Fs
    requires t < |fs| && !fs[t].Free?
  {
    match fs[t]
    case Dir(en, p, n, m) => fs[t := Dir(en, dir, n + 1, m)]
    case File(c, n, m) => fs[t := File(c, n + 1, m)]
  }

  ghost function Unlink(fs: Fs, dir: nat, name: Name): Res<Fs>
    requires TreeInv(fs)
  {
    var l := Lookup(fs, dir, name);
    if l.Fail? then Fail(l.e)
    else
      var t := l.v;
      LinkedHasNlink(fs, dir, name, t);
      if fs[t].Dir? && fs[t].entries != map[] then Fail(ENOTEMPTY)
      else Ok(DropLink(DropEntry(fs, dir, name), t))
  }

  // x is top or lies below it, by the stored parent fields.
  ghost predicate Under(fs: Fs, x: nat, top: nat) {
    exists k: nat :: Anc(fs, x, k) == top
  }

  function SetParent(fs: Fs, t: nat, p: nat): Fs
    requires t < |fs|
  {
    if fs[t].Dir? then fs[t := fs[t].(parent := p)] else fs
  }

  // May the node `dst` be replaced by the node `src`?
  function ReplaceCheck(src: Node, dst: Node): Err {
    if src.Dir? then
      if !dst.Dir? then ENOTDIR else if dst.entries != map[] then ENOTEMPTY else OK
    else if dst.Dir? then EISDIR
    else OK
  }

  ghost function Rename(fs: Fs, od: nat, on: Name, nd: nat, nn: Name): Res<Fs>
    requires TreeInv(fs)
  {
    if NameCheck(on) != OK then Fail(NameCheck(on))
    else if NameCheck(nn) != OK then Fail(NameCheck(nn))
    else if DirCheck(fs, od) != OK then Fail(DirCheck(fs, od))
    else if DirCheck(fs, nd) != OK then Fail(DirCheck(fs, nd))
    else if on !in fs[od].entries then Fail(ENOENT)
    else
      var src := fs[od].entries[on];
      LinkedHasNlink(fs, od, on, src);
      if fs[src].Dir? && od != nd && Under(fs, nd, src) then Fail(EINVAL)
      else if nn !in fs[nd].entries then Ok(Move(fs, od, on, nd, nn, src))
      else
        var dst := fs[nd].entries[nn];
        LinkedHasNlink(fs, nd, nn, dst);
        if dst == src then Ok(fs)
        else if ReplaceCheck(fs[src], fs[dst]) != OK then Fail(ReplaceCheck(fs[src], fs[dst]))
        else
          var cleared := DropLink(DropEntry(fs, nd, nn), dst);
          Cleared(fs, od, on, nd, nn, src, dst);
          Ok(Move(cleared, od, on, nd, nn, src))
  }

  // Take the edge (od, on) away, add (nd, nn) in its place and repoint a directory's parent.
  function Move(fs: Fs, od: nat, on: Name, nd: nat, nn: Name, src: nat): Fs
    requires od < |fs| && fs[od].Dir? && nd < |fs| && fs[nd].Dir? && src < |fs|
  {
    SetParent(AddEntry(DropEntry(fs, od, on), nd, nn, src), src, nd)
  }

  // ---- file contents: a plain byte sequence ---------------------------------------------------

  // Overwrite from off on, extending the file and zero-filling any gap.
  function WriteBytes(c: seq<byte>, off: nat, data: seq<byte>): seq<byte> {
    seq(if off + |data| > |c| then off + |data| else |c|,
        i requires 0 <= i => if off <= i < off + |data| then data[i - off] else if i < |c| then c[i] else 0)
  }

  function Resize(c: seq<byte>, size: nat): seq<byte> {
    if size <= |c| then c[..size] else c + Zeros(size - |c|)
  }

  function FileCheck(fs: Fs, id: nat): Err {
    if id == 0 || id >= |fs| then EINVAL
    else if fs[id].Free? then ENOENT
    else if fs[id].Dir? then EISDIR
    else OK
  }

  function WriteAt(fs: Fs, id: nat, off: nat, data: seq<byte>): Res<Fs> {
    if data == [] then Ok(fs)
    else if off + |data| > MAX_FILE_SIZE then Fail(EFBIG)
    else if FileCheck(fs, id) != OK then Fail(FileCheck(fs, id))
    else Ok(fs[id := fs[id].(content := WriteBytes(fs[id].content, off, data))])
  }

  function TruncateTo(fs: Fs, id: nat, size: nat): Res<Fs> {
    if size > MAX_FILE_SIZE then Fail(EFBIG)
    else if FileCheck(fs, id) != OK then Fail(FileCheck(fs, id))
    else Ok(fs[id := fs[id].(content := Resize(fs[id].content, size))])
  }

  function ReadAt(fs: Fs, id: nat, off: nat, len: nat): Res<seq<byte>> {
    if FileCheck(fs, id) != OK then Fail(FileCheck(fs, id))
    else
      var c := fs[id].content;
      Ok(if off >= |c| then [] else if len > |c| - off then c[off..] else c[off..off + len])
  }

  lemma LinkedHasNlink(fs: Fs, d: nat, nm: Name, t: nat)
    requires EdgesOk(fs) && LinksExact(fs) && IsLink(fs, d, nm, t)
    ensures 0 < t < |fs| && !fs[t].Free? && fs[t].nlink > 0
  {
    assert Link(d, nm) in Links(fs, t);
  }

  // ---- ancestors ------------------------------------------------------------------------

  lemma {:induction false} AncStuck(fs: Fs, x: nat, k: nat)
    requires ParentOf(fs, x) == x
    ensures Anc(fs, x, k) == x
  {
    if k > 0 { AncStuck(fs, x, k - 1); }
  }

  lemma {:induction false} AncAdd(fs: Fs, x: nat, j: nat, k: nat)
    ensures Anc(fs, x, j + k) == Anc(fs, Anc(fs, x, j), k)
    decreases j
  {
    if j > 0 { AncAdd(fs, ParentOf(fs, x), j - 1, k); }
  }

  lemma ParentIsLink(fs: Fs, d: nat, nm: Name, t: nat)
    requires TreeInv(fs) && IsLink(fs, d, nm, t) && fs[t].Dir?
    ensures t != ROOT && fs[t].parent == d
    ensures forall e, en :: IsLink(fs, e, en, t) ==> e == d && en == nm
  {
    assert Link(d, nm) in Links(fs, t);
    assert t != ROOT;
    assert HasOneName(fs, t);
    forall e, en | IsLink(fs, e, en, t) ensures e == d && en == nm {
      assert Link(e, en) in Links(fs, t);
    }
  }

  lemma NoSelfLink(fs: Fs, d: nat, nm: Name, t: nat)
    requires TreeInv(fs) && IsLink(fs, d, nm, t)
    ensures t != d
  {
    if t == d {
      ParentIsLink(fs, d, nm, t);
      assert Rooted(fs, t);
      var k: nat :| Anc(fs, t, k) == ROOT;
      AncStuck(fs, t, k);
    }
  }

  lemma ChildNotEmptyParent(fs: Fs, d: nat, nm: Name, t: nat)
    requires IsLink(fs, d, nm, t)
    ensures fs[d].entries != map[]
  {
    assert nm in fs[d].entries;
  }

  // What rename may rely on once the replace check has passed: the replaced node is neither
  // directory involved, and is not the source.
  lemma Cleared(fs: Fs, od: nat, on: Name, nd: nat, nn: Name, src: nat, dst: nat)
    requires TreeInv(fs) && IsLink(fs, od, on, src) && IsLink(fs, nd, nn, dst) && src != dst
    requires ReplaceCheck(fs[src], fs[dst]) == OK
    ensures dst != od && dst != nd && src != od
    ensures fs[dst].nlink > 0
    ensures var c := DropLink(DropEntry(fs, nd, nn), dst); c[od].Dir? && c[nd].Dir? && |c| == |fs|
  {
    LinkedHasNlink(fs, nd, nn, dst);
    NoSelfLink(fs, nd, nn, dst);
    NoSelfLink(fs, od, on, src);
    if dst == od { ChildNotEmptyParent(fs, od, on, src); }
  }

  // ---- how the operations change Links ---------------------------------------------------

  lemma LinksMember(fs: Fs, d: nat, nm: Name, t: nat)
    ensures Link(d, nm) in Links(fs, t) <==> IsLink(fs, d, nm, t)
  {}

  ghost predicate SameEntries(fs: Fs, fs': Fs) {
    |fs| == |fs'| && forall d :: 0 <= d < |fs| ==> Entries(fs'[d]) == Entries(fs[d])
  }

  lemma LinksSame(fs: Fs, fs': Fs, t: nat)
    requires SameEntries(fs, fs')
    ensures Links(fs', t) == Links(fs, t)
  {}

  lemma LinksAdd(fs: Fs, d: nat, nm: Name, t: nat, x: nat)
    requires d < |fs| && fs[d].Dir? && nm !in fs[d].entries
    ensures Links(AddEntry(fs, d, nm, t), x) == Links(fs, x) + (if x == t then {Link(d, nm)} else {})
    ensures Link(d, nm) !in Links(fs, x)
  {
    var fs' := AddEntry(fs, d, nm, t);
    forall e: nat, en: Name ensures Link(e, en) in Links(fs', x) <==>
      Link(e, en) in Links(fs, x) || (x == t && e == d && en == nm) {
      LinksMember(fs', e, en, x);
      LinksMember(fs, e, en, x);
    }
  }

  lemma LinksDrop(fs: Fs, d: nat, nm: Name, x: nat)
    requires d < |fs| && fs[d].Dir?
    ensures Links(DropEntry(fs, d, nm), x) == Links(fs, x) - {Link(d, nm)}
  {
    var fs' := DropEntry(fs, d, nm);
    forall e: nat, en: Name ensures Link(e, en) in Links(fs', x) <==>
      Link(e, en) in Links(fs, x) && !(e == d && en == nm) {
      LinksMember(fs', e, en, x);
      LinksMember(fs, e, en, x);
    }
  }

  // ---- how the operations change the ancestor chains ----------------------------------------

  ghost predicate SameParentsBut(fs: Fs, fs': Fs, c: nat) {
    forall x: nat :: x != c ==> ParentOf(fs', x) == ParentOf(fs, x)
  }

  // A chain that avoids the one changed node is unchanged.
  lemma {:induction false} AncAvoid(fs: Fs, fs': Fs, c: nat, x: nat, k: nat)
    requires SameParentsBut(fs, fs', c)
    requires forall j: nat :: j < k ==> Anc(fs, x, j) != c
    ensures Anc(fs', x, k) == Anc(fs, x, k)
    decreases k
  {
    if k > 0 {
      assert Anc(fs, x, 0) != c;
      forall j: nat | j < k - 1 ensures Anc(fs, ParentOf(fs, x), j) != c {
        assert Anc(fs, x, j + 1) != c;
      }
      AncAvoid(fs, fs', c, ParentOf(fs, x), k - 1);
    }
  }

  // If the changed node still reaches the root, so does every node that did.
  lemma {:induction false} RootedThrough(fs: Fs, fs': Fs, c: nat, x: nat, k: nat)
    requires SameParentsBut(fs, fs', c) && Rooted(fs', c)
    requires Anc(fs, x, k) == ROOT
    ensures Rooted(fs', x)
    decreases k
  {
    if x != c {
      if k == 0 {
        assert Anc(fs', x, 0) == ROOT;
      } else {
        RootedThrough(fs, fs', c, ParentOf(fs, x), k - 1);
        var m: nat :| Anc(fs', ParentOf(fs', x), m) == ROOT;
        assert Anc(fs', x, m + 1) == ROOT;
      }
    }
  }

  lemma ZeroNeverRooted(fs: Fs, k: nat)
    requires RootOk(fs)
    ensures Anc(fs, 0, k) == 0
  {
    AncStuck(fs, 0, k);
  }

  // Nothing that reaches the root passes through a node that is not a directory.
  lemma RootChainIsDirs(fs: Fs, x: nat, k: nat, j: nat)
    requires RootOk(fs) && Anc(fs, x, k) == ROOT && j <= k
    ensures Anc(fs, x, j) < |fs| && fs[Anc(fs, x, j)].Dir?
  {
    AncAdd(fs, x, j, k - j);
    var y := Anc(fs, x, j);
    if !(y < |fs| && fs[y].Dir?) {
      assert ParentOf(fs, y) == 0;
      if k > j { ZeroNeverRooted(fs, k - j - 1); }
    }
  }

  ghost predicate IsParent(fs: Fs, c: nat) {
    exists x: nat :: x < |fs| && fs[x].Dir? && x != ROOT && fs[x].parent == c
  }

  // A directory without entries is nobody's parent.
  lemma EmptyIsNoParent(fs: Fs, c: nat)
    requires TreeInv(fs) && c < |fs| && Entries(fs[c]) == map[]
    ensures !IsParent(fs, c)
  {
    forall x: nat | x < |fs| && fs[x].Dir? && x != ROOT ensures fs[x].parent != c {
      assert HasOneName(fs, x);
      var nm :| Links(fs, x) == {Link(fs[x].parent, nm)};
      LinksMember(fs, fs[x].parent, nm, x);
    }
  }

  // Chains to the root step over a node that is nobody's parent.
  lemma {:induction false} ChainAvoidsLeaf(fs: Fs, c: nat, x: nat, k: nat)
    requires RootOk(fs) && !IsParent(fs, c) && c != ROOT && x != c && Anc(fs, x, k) == ROOT
    ensures forall j: nat :: j <= k ==> Anc(fs, x, j) != c
    decreases k
  {
    if k > 0 {
      var y := ParentOf(fs, x);
      RootChainIsDirs(fs, x, k, 0);
      assert y != c;
      ChainAvoidsLeaf(fs, c, y, k - 1);
      forall j: nat | j <= k ensures Anc(fs, x, j) != c {
        if j > 0 { assert Anc(fs, y, j - 1) != c; }
      }
    }
  }

  // ---- every operation keeps the tree ---------------------------------------------------------

  lemma UnlinkLinks(fs: Fs, dir: nat, name: Name, t: nat, x: nat)
    requires TreeInv(fs) && IsLink(fs, dir, name, t)
    requires fs[t].Dir? ==> fs[t].entries == map[]
    requires fs[t].nlink > 0
    ensures var fs' := DropLink(DropEntry(fs, dir, name), t);
      && |fs'| == |fs|
      && Links(fs', x) == Links(fs, x) - {Link(dir, name)}
      && (x != t ==> Links(fs', x) == Links(fs, x))
  {
    var mid := DropEntry(fs, dir, name);
    NoSelfLink(fs, dir, name, t);
    LinksSame(mid, DropLink(mid, t), x);
    LinksDrop(fs, dir, name, x);
    LinksMember(fs, dir, name, x);
  }

  lemma UnlinkRooted(fs: Fs, dir: nat, name: Name, t: nat, x: nat)
    requires TreeInv(fs) && IsLink(fs, dir, name, t)
    requires fs[t].Dir? ==> fs[t].entries == map[]
    requires fs[t].nlink > 0
    requires x < |fs| && fs[x].Dir? && x != t
    ensures Rooted(DropLink(DropEntry(fs, dir, name), t), x)
  {
    var fs' := DropLink(DropEntry(fs, dir, name), t);
    LinksMember(fs, dir, name, t);
    EmptyIsNoParent(fs, t);
    assert Rooted(fs, x);
    var k: nat :| Anc(fs, x, k) == ROOT;
    ChainAvoidsLeaf(fs, t, x, k);
    AncAvoid(fs, fs', t, x, k);
  }

  ghost predicate Unlinks(fs: Fs, fs': Fs, dir: nat, name: Name, t: nat) {
    && TreeInv(fs) && IsLink(fs, dir, name, t) && t < |fs| && !fs[t].Free? && fs[t].nlink > 0
    && (fs[t].Dir? ==> fs[t].entries == map[])
    && fs' == DropLink(DropEntry(fs, dir, name), t)
  }

  lemma UnlinkEdges(fs: Fs, fs': Fs, dir: nat, name: Name, t: nat)
    requires Unlinks(fs, fs', dir, name, t)
    ensures EdgesOk(fs')
  {
    forall d: nat, nm: Name, x: nat | IsLink(fs', d, nm, x)
      ensures 0 < x < |fs'| && !fs'[x].Free? && NameCheck(nm) == OK
    {
      assert IsLink(fs, d, nm, x);
      LinksMember(fs, dir, name, t);
      UnlinkLinks(fs, dir, name, t, t);
      LinksMember(fs', d, nm, t);
      if x == t {
        assert {Link(dir, name), Link(d, nm)} <= Links(fs, t);
        TwoLinks(Links(fs, t), Link(dir, name), Link(d, nm));
      }
    }
  }

  lemma TwoLinks(s: set<Link>, a: Link, b: Link)
    requires a in s && b in s && a != b
    ensures |s| >= 2
  {
    assert |s - {a}| == |s| - 1;
    assert b in s - {a};
  }

  lemma UnlinkExact(fs: Fs, fs': Fs, dir: nat, name: Name, t: nat)
    requires Unlinks(fs, fs', dir, name, t)
    ensures LinksExact(fs') && SingleParent(fs') && Links(fs', ROOT) == {}
  {
    hide Links, NameCheck, Rooted;
    LinksMember(fs, dir, name, t);
    UnlinkLinks(fs, dir, name, t, ROOT);
    forall x: nat | x < |fs'| && !fs'[x].Free? ensures fs'[x].nlink == |Links(fs', x)| {
      UnlinkLinks(fs, dir, name, t, x);
    }
    forall x: nat | x < |fs'| && fs'[x].Dir? && x != ROOT ensures HasOneName(fs', x) {
      assert HasOneName(fs, x);
      UnlinkLinks(fs, dir, name, t, x);
    }
  }

  lemma UnlinkKeepsTree(fs: Fs, dir: nat, name: Name, t: nat)
    requires TreeInv(fs) && IsLink(fs, dir, name, t)
    requires t < |fs| && fs[t].Dir? ==> fs[t].entries == map[]
    ensures t < |fs| && fs[t].nlink > 0 && TreeInv(DropLink(DropEntry(fs, dir, name), t))
  {
    LinkedHasNlink(fs, dir, name, t);
    NoSelfLink(fs, dir, name, t);
    var fs' := DropLink(DropEntry(fs, dir, name), t);
    UnlinkEdges(fs, fs', dir, name, t);
    UnlinkExact(fs, fs', dir, name, t);
    LinksMember(fs, dir, name, t);
    forall x: nat | x < |fs'| && fs'[x].Dir? ensures Rooted(fs', x) {
      assert fs[t].Dir? && t != ROOT ==> HasOneName(fs, t);
      UnlinkRooted(fs, dir, name, t, x);
    }
  }

  lemma FreeHasNoLinks(fs: Fs, id: nat)
    requires EdgesOk(fs) && id < |fs| && fs[id].Free?
    ensures Links(fs, id) == {}
  {
    forall d: nat, nm: Name ensures Link(d, nm) !in Links(fs, id) {
      LinksMember(fs, d, nm, id);
    }
  }

  ghost predicate Creates(fs: Fs, fs': Fs, dir: nat, name: Name, kind: Kind, mode: nat, id: nat) {
    && TreeInv(fs) && 0 < dir < |fs| && fs[dir].Dir? && name !in fs[dir].entries && NameCheck(name) == OK
    && 0 < id < |fs| && fs[id].Free?
    && fs' == AddEntry(fs[id := NewNode(kind, mode, dir)], dir, name, id)
  }

  lemma CreateLinks(fs: Fs, fs': Fs, dir: nat, name: Name, kind: Kind, mode: nat, id: nat, x: nat)
    requires Creates(fs, fs', dir, name, kind, mode, id)
    ensures Links(fs', x) == (if x == id then {Link(dir, name)} else Links(fs, x))
  {
    var mid := fs[id := NewNode(kind, mode, dir)];
    LinksSame(fs, mid, x);
    LinksAdd(mid, dir, name, id, x);
    FreeHasNoLinks(fs, id);
  }

  lemma CreateRooted(fs: Fs, fs': Fs, dir: nat, name: Name, kind: Kind, mode: nat, id: nat, x: nat)
    requires Creates(fs, fs', dir, name, kind, mode, id)
    requires x < |fs| && fs[x].Dir?
    ensures Rooted(fs', x)
  {
    assert Rooted(fs, x);
    var k: nat :| Anc(fs, x, k) == ROOT;
    forall j: nat | j < k ensures Anc(fs, x, j) != id { RootChainIsDirs(fs, x, k, j); }
    AncAvoid(fs, fs', id, x, k);
  }

  lemma CreateKeepsTree(fs: Fs, fs': Fs, dir: nat, name: Name, kind: Kind, mode: nat, id: nat)
    requires Creates(fs, fs', dir, name, kind, mode, id)
    ensures TreeInv(fs')
  {
    forall d: nat, nm: Name, x: nat | IsLink(fs', d, nm, x)
      ensures 0 < x < |fs'| && !fs'[x].Free? && NameCheck(nm) == OK
    {
      assert (d == dir && nm == name) || IsLink(fs, d, nm, x);
    }
    forall x: nat | x < |fs'| && !fs'[x].Free? ensures fs'[x].nlink == |Links(fs', x)| {
      CreateLinks(fs, fs', dir, name, kind, mode, id, x);
    }
    forall x: nat | x < |fs'| && fs'[x].Dir? && x != ROOT ensures HasOneName(fs', x) {
      CreateLinks(fs, fs', dir, name, kind, mode, id, x);
      assert fs[x].Dir? ==> HasOneName(fs, x);
    }
    CreateRooted(fs, fs', dir, name, kind, mode, id, dir);
    forall x: nat | x < |fs'| && fs'[x].Dir? ensures Rooted(fs', x) {
      if x == id {
        var k: nat :| Anc(fs', dir, k) == ROOT;
        assert Anc(fs', id, k + 1) == ROOT;
      } else {
        CreateRooted(fs, fs', dir, name, kind, mode, id, x);
      }
    }
    CreateLinks(fs, fs', dir, name, kind, mode, id, ROOT);
  }

  // ---- link -------------------------------------------------------------------------------

  ghost predicate LinksFile(fs: Fs, fs': Fs, dir: nat, name: Name, t: nat) {
    && TreeInv(fs) && 0 < dir < |fs| && fs[dir].Dir? && name !in fs[dir].entries && NameCheck(name) == OK
    && 0 < t < |fs| && fs[t].File?
    && fs' == AddEntry(Adopt(fs, t, dir), dir, name, t)
  }

  lemma LinkFileLinks(fs: Fs, fs': Fs, dir: nat, name: Name, t: nat, x: nat)
    requires LinksFile(fs, fs', dir, name, t)
    ensures Links(fs', x) == Links(fs, x) + (if x == t then {Link(dir, name)} else {})
    ensures Link(dir, name) !in Links(fs, x)
  {
    LinksSame(fs, Adopt(fs, t, dir), x);
    LinksAdd(Adopt(fs, t, dir), dir, name, t, x);
  }

  lemma LinkFileEdges(fs: Fs, fs': Fs, dir: nat, name: Name, t: nat)
    requires LinksFile(fs, fs', dir, name, t)
    ensures EdgesOk(fs') && LinksExact(fs')
  {
    forall d: nat, nm: Name, x: nat | IsLink(fs', d, nm, x)
      ensures 0 < x < |fs'| && !fs'[x].Free? && NameCheck(nm) == OK
    {
      assert (d == dir && nm == name) || IsLink(fs, d, nm, x);
    }
    forall x: nat | x < |fs'| && !fs'[x].Free? ensures fs'[x].nlink == |Links(fs', x)| {
      LinkFileLinks(fs, fs', dir, name, t, x);
      assert fs[x].nlink == |Links(fs, x)|;
    }
  }

  lemma LinkFileRooted(fs: Fs, fs': Fs, dir: nat, name: Name, t: nat)
    requires LinksFile(fs, fs', dir, name, t)
    ensures SingleParent(fs') && AllRooted(fs')
  {
    forall x: nat | x < |fs'| && fs'[x].Dir? && x != ROOT ensures HasOneName(fs', x) {
      assert HasOneName(fs, x);
      LinkFileLinks(fs, fs', dir, name, t, x);
    }
    forall x: nat | x < |fs'| && fs'[x].Dir? ensures Rooted(fs', x) {
      assert Rooted(fs, x);
      var k: nat :| Anc(fs, x, k) == ROOT;
      forall j: nat | j < k ensures Anc(fs, x, j) != t { RootChainIsDirs(fs, x, k, j); }
      AncAvoid(fs, fs', t, x, k);
    }
  }

  lemma LinkFileKeepsTree(fs: Fs, fs': Fs, dir: nat, name: Name, t: nat)
    requires LinksFile(fs, fs', dir, name, t)
    ensures TreeInv(fs')
  {
    LinkFileEdges(fs, fs', dir, name, t);
    LinkFileRooted(fs, fs', dir, name, t);
    LinkFileLinks(fs, fs', dir, name, t, ROOT);
  }

  lemma DirNlink(fs: Fs, t: nat)
    requires TreeInv(fs) && t < |fs| && fs[t].Dir?
    ensures fs[t].nlink == if t == ROOT then 0 else 1
  {
    assert fs[t].nlink == |Links(fs, t)|;
    assert t != ROOT ==> HasOneName(fs, t);
  }

  // gfs_link accepts the root as a target, because no name points at it.  That is the only
  // way a successful link can break the tree.
  lemma LinkKeepsTreeIff(fs: Fs, dir: nat, name: Name, t: nat)
    requires TreeInv(fs) && LinkAt(fs, dir, name, t).Ok?
    ensures TreeInv(LinkAt(fs, dir, name, t).v) <==> t != ROOT
  {
    var fs' := LinkAt(fs, dir, name, t).v;
    if fs[t].File? {
      LinkFileKeepsTree(fs, fs', dir, name, t);
    } else {
      DirNlink(fs, t);
      LinksMember(fs', dir, name, ROOT);
      assert IsLink(fs', dir, name, ROOT);
    }
  }

  // The concrete failure: the fresh filesystem, with the root linked into itself.
  lemma LinkRootBreaksTree(mode: nat)
    ensures var fs := [Free, Dir(map[], ROOT, 0, mode)];
      && TreeInv(fs)
      && LinkAt(fs, ROOT, "r", ROOT).Ok?
      && !TreeInv(LinkAt(fs, ROOT, "r", ROOT).v)
  {
    var fs := [Free, Dir(map[], ROOT, 0, mode)];
    FreshIsTree(2, mode);
    assert Fresh(2, mode) == fs;
    LinkKeepsTreeIff(fs, ROOT, "r", ROOT);
  }

  // What mkfs creates.
  function Fresh(n: nat, mode: nat): Fs
    requires n >= 2
  {
    seq(n, i => if i == ROOT then Dir(map[], ROOT, 0, mode) else Free)
  }

  lemma FreshIsTree(n: nat, mode: nat)
    requires n >= 2
    ensures TreeInv(Fresh(n, mode)) && |Fresh(n, mode)| == n
    ensures forall x: nat :: x < n && x != ROOT ==> Fresh(n, mode)[x].Free?
    ensures Fresh(n, mode)[ROOT].Dir? && Fresh(n, mode)[ROOT].mode == mode && Fresh(n, mode)[ROOT].entries == map[]
  {
    var fs := Fresh(n, mode);
    assert Anc(fs, ROOT, 0) == ROOT;
    assert Rooted(fs, ROOT);
    assert Links(fs, ROOT) == {};
  }

  // ---- rename ------------------------------------------------------------------------------

  ghost predicate Moves(fs: Fs, fs': Fs, od: nat, on: Name, nd: nat, nn: Name, src: nat) {
    && TreeInv(fs) && IsLink(fs, od, on, src) && nd < |fs| && fs[nd].Dir? && nn !in fs[nd].entries
    && NameCheck(nn) == OK
    && src < |fs|
    && (fs[src].Dir? && od != nd ==> !Under(fs, nd, src))
    && fs' == Move(fs, od, on, nd, nn, src)
  }

  lemma MoveLinks(fs: Fs, fs': Fs, od: nat, on: Name, nd: nat, nn: Name, src: nat, x: nat)
    requires Moves(fs, fs', od, on, nd, nn, src)
    ensures Links(fs', x) == (if x == src then Links(fs, x) - {Link(od, on)} + {Link(nd, nn)} else Links(fs, x))
  {
    hide TreeInv, Links, NameCheck, Under;
    var f1 := DropEntry(fs, od, on);
    var f2 := AddEntry(f1, nd, nn, src);
    LinksDrop(fs, od, on, x);
    LinksAdd(f1, nd, nn, src, x);
    LinksSame(f2, fs', x);
    LinksMember(fs, od, on, x);
  }

  lemma MoveLinkCount(fs: Fs, fs': Fs, od: nat, on: Name, nd: nat, nn: Name, src: nat, x: nat)
    requires Moves(fs, fs', od, on, nd, nn, src)
    ensures |Links(fs', x)| == |Links(fs, x)|
  {
    MoveLinks(fs, fs', od, on, nd, nn, src, x);
    LinksMember(fs, od, on, x);
    LinksMember(fs, nd, nn, x);
  }

  lemma MoveEdges(fs: Fs, fs': Fs, od: nat, on: Name, nd: nat, nn: Name, src: nat)
    requires Moves(fs, fs', od, on, nd, nn, src)
    ensures EdgesOk(fs') && LinksExact(fs') && NoOrphans(fs') && RootOk(fs')
  {
    assert 0 < src < |fs| && !fs[src].Free?;
    forall d: nat, nm: Name, x: nat | IsLink(fs', d, nm, x)
      ensures 0 < x < |fs'| && !fs'[x].Free? && NameCheck(nm) == OK
    {
      assert (d == nd && nm == nn && x == src) || IsLink(fs, d, nm, x);
    }
    forall x: nat | x < |fs'| && !fs'[x].Free? ensures fs'[x].nlink == |Links(fs', x)| {
      MoveLinkCount(fs, fs', od, on, nd, nn, src, x);
    }
    MoveLinks(fs, fs', od, on, nd, nn, src, ROOT);
    LinksMember(fs, od, on, src);
  }

  lemma MoveSingleParent(fs: Fs, fs': Fs, od: nat, on: Name, nd: nat, nn: Name, src: nat)
    requires Moves(fs, fs', od, on, nd, nn, src)
    ensures SingleParent(fs')
  {
    forall x: nat | x < |fs'| && fs'[x].Dir? && x != ROOT ensures HasOneName(fs', x) {
      assert HasOneName(fs, x);
      MoveLinks(fs, fs', od, on, nd, nn, src, x);
      LinksMember(fs, od, on, src);
      if x == src { assert Links(fs', x) == {Link(nd, nn)}; }
    }
  }

  lemma MoveRooted(fs: Fs, fs': Fs, od: nat, on: Name, nd: nat, nn: Name, src: nat)
    requires Moves(fs, fs', od, on, nd, nn, src)
    ensures AllRooted(fs')
  {
    assert SameParentsBut(fs, fs', src);
    if fs[src].Dir? && od == nd { ParentIsLink(fs, od, on, src); }
    assert Rooted(fs, nd);
    if fs[src].Dir? && od != nd {
      var k: nat :| Anc(fs, nd, k) == ROOT;
      AncAvoid(fs, fs', src, nd, k);
      assert Anc(fs', src, k + 1) == ROOT;
    }
    forall x: nat | x < |fs'| && fs'[x].Dir? ensures Rooted(fs', x) {
      assert Rooted(fs, x);
      var k: nat :| Anc(fs, x, k) == ROOT;
      if fs[src].Dir? && od != nd {
        RootedThrough(fs, fs', src, x, k);
      } else {
        AncSame(fs, fs', x, k);
      }
    }
  }

  lemma {:induction false} AncSame(fs: Fs, fs': Fs, x: nat, k: nat)
    requires forall y: nat :: ParentOf(fs', y) == ParentOf(fs, y)
    ensures Anc(fs', x, k) == Anc(fs, x, k)
    decreases k
  {
    if k > 0 { AncSame(fs, fs', ParentOf(fs, x), k - 1); }
  }

  lemma MoveKeepsTree(fs: Fs, fs': Fs, od: nat, on: Name, nd: nat, nn: Name, src: nat)
    requires Moves(fs, fs', od, on, nd, nn, src)
    ensures TreeInv(fs')
  {
    MoveEdges(fs, fs', od, on, nd, nn, src);
    MoveSingleParent(fs, fs', od, on, nd, nn, src);
    MoveRooted(fs, fs', od, on, nd, nn, src);
  }

  // Removing an unrelated leaf does not bring newdir under the source.
  lemma UnderAfterUnlink(fs: Fs, fs': Fs, dir: nat, name: Name, t: nat, x: nat, top: nat)
    requires Unlinks(fs, fs', dir, name, t)
    requires x < |fs| && fs[x].Dir? && x != t && top != ROOT && !Under(fs, x, top)
    ensures !Under(fs', x, top)
  {
    LinksMember(fs, dir, name, t);
    EmptyIsNoParent(fs, t);
    assert Rooted(fs, x);
    var k: nat :| Anc(fs, x, k) == ROOT;
    ChainAvoidsLeaf(fs, t, x, k);
    forall j: nat ensures Anc(fs', x, j) != top {
      if j <= k {
        AncAvoid(fs, fs', t, x, j);
      } else {
        AncAvoid(fs, fs', t, x, k);
        AncAdd(fs', x, k, j - k);
        UnlinkRootStays(fs, fs', dir, name, t);
        AncStuck(fs', ROOT, j - k);
      }
    }
  }

  lemma UnlinkRootStays(fs: Fs, fs': Fs, dir: nat, name: Name, t: nat)
    requires Unlinks(fs, fs', dir, name, t)
    ensures ParentOf(fs', ROOT) == ROOT
  {
    LinksMember(fs, dir, name, t);
  }

  lemma RenameKeepsTree(fs: Fs, od: nat, on: Name, nd: nat, nn: Name)
    requires TreeInv(fs) && Rename(fs, od, on, nd, nn).Ok?
    ensures TreeInv(Rename(fs, od, on, nd, nn).v)
  {
    var src := fs[od].entries[on];
    assert IsLink(fs, od, on, src);
    LinkedHasNlink(fs, od, on, src);
    if nn !in fs[nd].entries {
      MoveKeepsTree(fs, Move(fs, od, on, nd, nn, src), od, on, nd, nn, src);
    } else if fs[nd].entries[nn] != src {
      var dst := fs[nd].entries[nn];
      assert IsLink(fs, nd, nn, dst);
      LinkedHasNlink(fs, nd, nn, dst);
      Cleared(fs, od, on, nd, nn, src, dst);
      UnlinkKeepsTree(fs, nd, nn, dst);
      var c := DropLink(DropEntry(fs, nd, nn), dst);
      assert IsLink(c, od, on, src);
      if fs[src].Dir? && od != nd {
        LinksMember(fs, od, on, src);
        UnderAfterUnlink(fs, c, nd, nn, dst, nd, src);
      }
      MoveKeepsTree(c, Move(c, od, on, nd, nn, src), od, on, nd, nn, src);
    }
  }
}
