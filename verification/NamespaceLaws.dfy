// What each operation of the filesystem does, told name by name and node by node: when it answers which error, which
// names there are afterwards, and what becomes of every node.
module NamespaceLaws {
  import opened GfsTypes
  import opened Namespace
  import opened TreeTheory
  import opened Paths
  import opened NamespaceRuns

  // A node without its names.
  function Attrs(n: Node): Node { if n.Dir? then Dir(map[], n.parent, n.nlink, n.mode) else n }

  // Names and attributes are all there is to a filesystem, so the laws below leave nothing open.
  lemma DrawnApart(fs: Fs, fs': Fs)
    requires |fs'| == |fs| && forall x: nat :: x < |fs| ==> Attrs(fs'[x]) == Attrs(fs[x])
    requires forall d: nat, nm: Name, t: nat :: IsLink(fs', d, nm, t) <==> IsLink(fs, d, nm, t)
    ensures fs' == fs
  {
    forall x: nat | x < |fs| ensures fs'[x] == fs[x] {
      assert Attrs(fs'[x]) == Attrs(fs[x]);
      var e, e' := Entries(fs[x]), Entries(fs'[x]);
      forall nm | nm in e ensures nm in e' && e'[nm] == e[nm] { assert IsLink(fs, x, nm, e[nm]); }
      forall nm | nm in e' ensures nm in e { assert IsLink(fs', x, nm, e'[nm]); }
      assert e' == e;
    }
  }

  predicate DirAt(fs: Fs, d: nat) { 0 < d < |fs| && fs[d].Dir? }

  ghost predicate Bound(fs: Fs, d: nat, nm: Name) { exists t: nat :: IsLink(fs, d, nm, t) }

  lemma BoundIs(fs: Fs, d: nat, nm: Name)
    ensures Bound(fs, d, nm) <==> d < |fs| && nm in Entries(fs[d])
  {
    if d < |fs| && nm in Entries(fs[d]) { assert IsLink(fs, d, nm, Entries(fs[d])[nm]); }
  }

  lemma LookupExact(fs: Fs, d: nat, nm: Name)
    ensures var r, e := Lookup(fs, d, nm), NameCheck(nm);
      && (r.Ok? <==> e == OK && d > 0 && Bound(fs, d, nm)) && (r.Ok? ==> IsLink(fs, d, nm, r.v))
      && (r == Fail(ENOENT) <==> e == OK && DirAt(fs, d) && !Bound(fs, d, nm))
      && (r == Fail(ENOTDIR) <==> e == OK && 0 < d < |fs| && !fs[d].Dir?)
      && (r == Fail(EINVAL) <==> e == EINVAL || (e == OK && (d == 0 || d >= |fs|)))
      && (r == Fail(ENAMETOOLONG) <==> e == ENAMETOOLONG)
  {
    BoundIs(fs, d, nm);
  }

  // ---- create ---------------------------------------------------------------------------------------------

  ghost predicate SomeFree(fs: Fs) { exists x: nat :: 0 < x < |fs| && fs[x].Free? }

  lemma CreateRefuses(fs: Fs, dir: nat, name: Name, kind: Kind, mode: nat)
    requires |fs| >= 2
    ensures var r, e := Create(fs, dir, name, kind, mode), NameCheck(name);
      && (r.Ok? <==> e == OK && DirAt(fs, dir) && !Bound(fs, dir, name) && SomeFree(fs))
      && (r == Fail(EEXIST) <==> e == OK && DirAt(fs, dir) && Bound(fs, dir, name))
      && (r == Fail(ENOSPC) <==> e == OK && DirAt(fs, dir) && !Bound(fs, dir, name) && !SomeFree(fs))
      && (r == Fail(ENOTDIR) <==> e == OK && 0 < dir < |fs| && !fs[dir].Dir?)
      && (r == Fail(EINVAL) <==> e == EINVAL || (e == OK && (dir == 0 || dir >= |fs|)))
      && (r == Fail(ENAMETOOLONG) <==> e == ENAMETOOLONG)
  {
    BoundIs(fs, dir, name);
    var id := FirstFree(fs, 1);
    if id < |fs| { assert fs[id].Free?; }
  }

  // The lowest free id becomes a node of the kind and mode asked for, empty and with one name; nothing else changes.
  lemma CreateEffect(fs: Fs, dir: nat, name: Name, kind: Kind, mode: nat)
    requires |fs| >= 2 && Create(fs, dir, name, kind, mode).Ok?
    ensures var fs', id := Create(fs, dir, name, kind, mode).v.fs, Create(fs, dir, name, kind, mode).v.id;
      && |fs'| == |fs| && 0 < id < |fs| && fs[id].Free? && (forall j: nat :: 0 < j < id ==> !fs[j].Free?)
      && (fs'[id].Dir? <==> kind == KDir) && (fs'[id].File? <==> kind == KFile)
      && fs'[id].nlink == 1 && fs'[id].mode == mode
      && (kind == KDir ==> fs'[id].parent == dir) && (kind == KFile ==> fs'[id].content == [])
      && (forall x: nat :: x < |fs| && x != id ==> Attrs(fs'[x]) == Attrs(fs[x]))
      && (forall d: nat, nm: Name, t: nat ::
        IsLink(fs', d, nm, t) <==> IsLink(fs, d, nm, t) || (d == dir && nm == name && t == id))
  {}

  // ---- link -----------------------------------------------------------------------------------------------

  lemma LinkRefuses(fs: Fs, dir: nat, name: Name, t: nat)
    ensures var r, e := LinkAt(fs, dir, name, t), NameCheck(name);
      var ids := e == OK && 0 < dir < |fs| && 0 < t < |fs|;
      var dirOk := ids && !fs[t].Free? && fs[dir].Dir?;
      && (r.Ok? <==> dirOk && !Bound(fs, dir, name) && !(fs[t].Dir? && fs[t].nlink > 0))
      && (r == Fail(EMANYPARENTS) <==> dirOk && !Bound(fs, dir, name) && fs[t].Dir? && fs[t].nlink > 0)
      && (r == Fail(EEXIST) <==> dirOk && Bound(fs, dir, name))
      && (r == Fail(ENOTDIR) <==> ids && !fs[t].Free? && !fs[dir].Dir?)
      && (r == Fail(ENOENT) <==> ids && fs[t].Free?)
      && (r == Fail(EINVAL) <==> e == EINVAL || (e == OK && !ids))
      && (r == Fail(ENAMETOOLONG) <==> e == ENAMETOOLONG)
  {
    BoundIs(fs, dir, name);
  }

  // One name more, and one link counted at the target, which is otherwise the same file; a directory also moves under
  // its new parent, but for one that is linked into itself.
  lemma LinkEffect(fs: Fs, dir: nat, name: Name, t: nat)
    requires LinkAt(fs, dir, name, t).Ok?
    ensures var fs' := LinkAt(fs, dir, name, t).v;
      && |fs'| == |fs|
      && (fs[t].File? ==> fs'[t] == File(fs[t].content, fs[t].nlink + 1, fs[t].mode))
      && (fs[t].Dir? && t != dir ==> Attrs(fs'[t]) == Dir(map[], dir, fs[t].nlink + 1, fs[t].mode))
      && (forall x: nat :: x < |fs| && (x != t || t == dir) ==> Attrs(fs'[x]) == Attrs(fs[x]))
      && (forall d: nat, nm: Name, x: nat ::
        IsLink(fs', d, nm, x) <==> IsLink(fs, d, nm, x) || (d == dir && nm == name && x == t))
  {}

  // Taking the new name away again gives the old filesystem back.
  lemma LinkThenUnlink(fs: Fs, dir: nat, name: Name, t: nat)
    requires TreeInv(fs) && LinkAt(fs, dir, name, t).Ok? && fs[t].File?
    ensures TreeInv(LinkAt(fs, dir, name, t).v) && Unlink(LinkAt(fs, dir, name, t).v, dir, name) == Ok(fs)
  {
    hide TreeInv, LinkAt, Unlink, IsLink;
    var fs' := LinkAt(fs, dir, name, t).v;
    LinkRefuses(fs, dir, name, t);
    FileNotRoot(fs, t);
    LinkKeepsTreeIff(fs, dir, name, t);
    LinkEffect(fs, dir, name, t);
    assert IsLink(fs', dir, name, t);
    UnlinkRefuses(fs', dir, name, t);
    var back := Unlink(fs', dir, name).v;
    UnlinkEffect(fs', dir, name, t);
    forall d: nat, nm: Name, x: nat ensures IsLink(back, d, nm, x) <==> IsLink(fs, d, nm, x) {
      assert IsLink(fs, dir, name, x) ==> Bound(fs, dir, name);
    }
    DrawnApart(fs, back);
  }

  lemma FileNotRoot(fs: Fs, t: nat)
    requires TreeInv(fs) && t < |fs| && fs[t].File?
    ensures t != ROOT && fs[t].nlink > 0
  {}

  // ---- unlink -----------------------------------------------------------------------------------------------

  ghost predicate Leafless(fs: Fs, d: nat) { forall nm: Name, x: nat :: !IsLink(fs, d, nm, x) }

  lemma UnlinkRefuses(fs: Fs, dir: nat, name: Name, t: nat)
    requires TreeInv(fs)
    ensures var r, e := Unlink(fs, dir, name), NameCheck(name);
      && (r.Fail? && r.e != ENOTEMPTY <==> Lookup(fs, dir, name).Fail?)
      && (r.Fail? && r.e != ENOTEMPTY ==> r.e == Lookup(fs, dir, name).e)
      && (IsLink(fs, dir, name, t) ==> dir > 0 && e == OK && 0 < t < |fs| && !fs[t].Free? && fs[t].nlink > 0)
      && (IsLink(fs, dir, name, t) ==> (r.Ok? <==> fs[t].Dir? ==> Leafless(fs, t)))
  {
    LookupExact(fs, dir, name);
    if IsLink(fs, dir, name, t) {
      LinkedHasNlink(fs, dir, name, t);
      EmptyIs(fs, t);
    }
  }

  // One name less; its node counts one link less, and is free exactly when that was its last.
  lemma UnlinkEffect(fs: Fs, dir: nat, name: Name, t: nat)
    requires TreeInv(fs) && Unlink(fs, dir, name).Ok? && IsLink(fs, dir, name, t)
    ensures var fs' := Unlink(fs, dir, name).v;
      && |fs'| == |fs| && 0 < t < |fs| && !fs[t].Free? && t != dir
      && (fs'[t].Free? <==> fs[t].nlink == 1)
      && (fs[t].nlink > 1 ==> fs'[t] == fs[t].(nlink := fs[t].nlink - 1))
      && (forall x: nat :: x < |fs| && x != t ==> Attrs(fs'[x]) == Attrs(fs[x]))
      && (forall d: nat, nm: Name, x: nat ::
        IsLink(fs', d, nm, x) <==> IsLink(fs, d, nm, x) && !(d == dir && nm == name))
  {
    LinkedHasNlink(fs, dir, name, t);
    NoSelfLink(fs, dir, name, t);
  }

  // ---- rename -------------------------------------------------------------------------------------------------

  // One name moves: the source under its new name and nothing else changed but the node that had that name before.
  ghost predicate NameMoved(fs: Fs, fs': Fs, od: nat, on: Name, nd: nat, nn: Name, src: nat) {
    && |fs'| == |fs| && src < |fs|
    && (fs[src].File? ==> fs'[src] == fs[src])
    && (fs[src].Dir? ==> Attrs(fs'[src]) == Dir(map[], nd, fs[src].nlink, fs[src].mode))
    && (forall x: nat :: x < |fs| && x != src && !IsLink(fs, nd, nn, x) ==> Attrs(fs'[x]) == Attrs(fs[x]))
    && (forall x: nat :: x < |fs| && x != src && IsLink(fs, nd, nn, x) ==>
      if Nlink(fs[x]) == 1 then fs'[x].Free?
      else fs[x].File? && fs[x].nlink > 1 && fs'[x] == fs[x].(nlink := fs[x].nlink - 1))
    && (forall d: nat, nm: Name, x: nat ::
      IsLink(fs', d, nm, x) <==>
        (d == nd && nm == nn && x == src)
        || (IsLink(fs, d, nm, x) && !(d == od && nm == on) && !(d == nd && nm == nn)))
  }

  lemma RenameEffect(fs: Fs, od: nat, on: Name, nd: nat, nn: Name, src: nat)
    requires TreeInv(fs) && Rename(fs, od, on, nd, nn).Ok? && IsLink(fs, od, on, src)
    ensures var fs' := Rename(fs, od, on, nd, nn).v;
      && DirAt(fs, od) && DirAt(fs, nd) && NameCheck(on) == OK && NameCheck(nn) == OK
      && (IsLink(fs, nd, nn, src) ==> fs' == fs)
      && (!IsLink(fs, nd, nn, src) ==> NameMoved(fs, fs', od, on, nd, nn, src))
  {
    hide Under;
    LinkedHasNlink(fs, od, on, src);
    NoSelfLink(fs, od, on, src);
    var fs' := Rename(fs, od, on, nd, nn).v;
    if nn !in fs[nd].entries {
      MoveEffect(fs, fs', od, on, nd, nn, src);
    } else if fs[nd].entries[nn] != src {
      LinkedHasNlink(fs, nd, nn, fs[nd].entries[nn]);
      ReplaceEffect(fs, fs', od, on, nd, nn, src, fs[nd].entries[nn]);
    }
  }

  lemma MoveEffect(fs: Fs, fs': Fs, od: nat, on: Name, nd: nat, nn: Name, src: nat)
    requires IsLink(fs, od, on, src) && nd < |fs| && fs[nd].Dir? && nn !in fs[nd].entries && src < |fs| && src != od
    requires fs' == Move(fs, od, on, nd, nn, src) && !fs[src].Free? && Nlink(fs[src]) > 0
    ensures NameMoved(fs, fs', od, on, nd, nn, src)
  {}

  lemma ReplaceEffect(fs: Fs, fs': Fs, od: nat, on: Name, nd: nat, nn: Name, src: nat, dst: nat)
    requires TreeInv(fs) && IsLink(fs, od, on, src) && IsLink(fs, nd, nn, dst) && dst != src && dst < |fs| && src < |fs|
    requires ReplaceCheck(fs[src], fs[dst]) == OK && !fs[dst].Free? && fs[dst].nlink > 0 && nd < |fs| && fs[nd].Dir?
    requires var c := DropLink(DropEntry(fs, nd, nn), dst);
      |c| == |fs| && c[od].Dir? && c[nd].Dir? && fs' == Move(c, od, on, nd, nn, src)
    ensures NameMoved(fs, fs', od, on, nd, nn, src)
  {
    Cleared(fs, od, on, nd, nn, src, dst);
    if fs[dst].Dir? { DirNlink(fs, dst); ParentIsLink(fs, nd, nn, dst); }
  }

  // ---- where paths lead afterwards --------------------------------------------------------------------------------

  ghost predicate Reaches(fs: Fs, a: nat, b: nat) { exists ws: seq<Name> :: Descend(fs, a, ws) == Ok(b) }

  lemma ReachesItself(fs: Fs, a: nat)
    ensures Reaches(fs, a, a)
  {
    assert Descend(fs, a, []) == Ok(a);
  }

  lemma BelowIsReached(fs: Fs, x: nat, top: nat)
    requires TreeInv(fs) && DirAt(fs, x) && DirAt(fs, top)
    ensures Reaches(fs, top, x) <==> Under(fs, x, top)
  {
    if Under(fs, x, top) {
      var k: nat :| Anc(fs, x, k) == top;
      var ws := PathDown(fs, x, top, k);
    }
    if Reaches(fs, top, x) {
      var ws: seq<Name> :| Descend(fs, top, ws) == Ok(x);
      DescendIsUnder(fs, top, ws, x);
    }
  }

  lemma LeafReachesNot(fs: Fs, t: nat, y: nat)
    requires t < |fs| && Entries(fs[t]) == map[] && t != y
    ensures !Reaches(fs, t, y)
  {
    forall ws: seq<Name> ensures Descend(fs, t, ws) != Ok(y) {
      if ws != [] { assert Lookup(fs, t, ws[0]).Fail?; }
    }
  }

  lemma NamedIsLive(fs: Fs, d: nat, nm: Name, t: nat)
    requires TreeInv(fs) && IsLink(fs, d, nm, t)
    ensures 0 < t < |fs| && !fs[t].Free? && fs[t].nlink > 0 && t != d
  {
    LinkedHasNlink(fs, d, nm, t);
    NoSelfLink(fs, d, nm, t);
  }

  // Below a child of a directory there is no way back to it.
  lemma ChildReachesNot(fs: Fs, d: nat, nm: Name, t: nat)
    requires TreeInv(fs) && IsLink(fs, d, nm, t)
    ensures !Reaches(fs, t, d)
  {
    NamedIsLive(fs, d, nm, t);
    if fs[t].Dir? {
      ParentNotBelow(fs, d, nm, t);
      BelowIsReached(fs, d, t);
    } else {
      LeafReachesNot(fs, t, d);
    }
  }

  // A way to y stays as long as it loses no name on it.
  lemma {:induction false} WayStays(fs: Fs, fs': Fs, x: nat, ws: seq<Name>, y: nat)
    requires |fs'| == |fs| && Descend(fs, x, ws) == Ok(y)
    requires forall d: nat, nm: Name, t: nat :: IsLink(fs, d, nm, t) && !IsLink(fs', d, nm, t) ==> !Reaches(fs, t, y)
    ensures Descend(fs', x, ws) == Ok(y)
    decreases |ws|
  {
    if ws != [] {
      var l := Lookup(fs, x, ws[0]).v;
      assert Descend(fs, l, ws[1..]) == Ok(y);
      assert IsLink(fs, x, ws[0], l);
      assert Reaches(fs, l, y);
      assert IsLink(fs', x, ws[0], l);
      WayStays(fs, fs', l, ws[1..], y);
    }
  }

  // After an unlink its directory is where it was, and the name is gone.
  lemma UnlinkThenDescend(fs: Fs, ws: seq<Name>, dir: nat, name: Name)
    requires TreeInv(fs) && Descend(fs, ROOT, ws) == Ok(dir) && Unlink(fs, dir, name).Ok?
    ensures Descend(Unlink(fs, dir, name).v, ROOT, ws) == Ok(dir)
    ensures Descend(Unlink(fs, dir, name).v, ROOT, ws + [name]) == Fail(ENOENT)
  {
    hide TreeInv, Unlink, IsLink, Lookup;
    UnlinkRefuses(fs, dir, name, 0);
    LookupExact(fs, dir, name);
    var t := Lookup(fs, dir, name).v;
    var fs' := Unlink(fs, dir, name).v;
    UnlinkEffect(fs, dir, name, t);
    ChildReachesNot(fs, dir, name, t);
    LinkUnique(fs, dir, name, t);
    WayStays(fs, fs', ROOT, ws, dir);
    DescendAppend(fs', ROOT, ws, name);
    LookupExact(fs', dir, name);
    assert Attrs(fs'[dir]) == Attrs(fs[dir]);
    LinkIsDir(fs, dir, name, t);
  }

  lemma LinkUnique(fs: Fs, d: nat, nm: Name, t: nat)
    requires IsLink(fs, d, nm, t)
    ensures forall x: nat :: IsLink(fs, d, nm, x) ==> x == t
  {}

  lemma LinkIsDir(fs: Fs, d: nat, nm: Name, t: nat)
    requires IsLink(fs, d, nm, t)
    ensures d < |fs| && fs[d].Dir?
  {}

  // After a link the new name leads to the target, and every path that led somewhere still does.
  lemma LinkThenDescend(fs: Fs, ws: seq<Name>, dir: nat, name: Name, t: nat)
    requires LinkAt(fs, dir, name, t).Ok? && Descend(fs, ROOT, ws) == Ok(dir)
    ensures Descend(LinkAt(fs, dir, name, t).v, ROOT, ws + [name]) == Ok(t)
    ensures forall us: seq<Name> :: Descend(fs, ROOT, us).Ok? ==>
      Descend(LinkAt(fs, dir, name, t).v, ROOT, us) == Descend(fs, ROOT, us)
  {
    hide LinkAt, IsLink, Lookup;
    var fs' := LinkAt(fs, dir, name, t).v;
    LinkRefuses(fs, dir, name, t);
    LinkEffect(fs, dir, name, t);
    forall us: seq<Name> | Descend(fs, ROOT, us).Ok? ensures Descend(fs', ROOT, us) == Descend(fs, ROOT, us) {
      WayStays(fs, fs', ROOT, us, Descend(fs, ROOT, us).v);
    }
    DescendAppend(fs', ROOT, ws, name);
    LookupExact(fs', dir, name);
    assert IsLink(fs', dir, name, t);
    LinkUnique(fs', dir, name, t);
  }

  // A rename that is not refused moves names that no way to either directory uses.
  lemma RenameApart(fs: Fs, od: nat, on: Name, nd: nat, nn: Name, src: nat)
    requires TreeInv(fs) && Rename(fs, od, on, nd, nn).Ok? && IsLink(fs, od, on, src)
    ensures !Reaches(fs, src, od) && !Reaches(fs, src, nd)
    ensures forall dst: nat :: IsLink(fs, nd, nn, dst) && dst != src ==> !Reaches(fs, dst, od) && !Reaches(fs, dst, nd)
  {
    LinkedHasNlink(fs, od, on, src);
    ChildReachesNot(fs, od, on, src);
    if fs[src].File? { LeafReachesNot(fs, src, nd); } else if od != nd { BelowIsReached(fs, nd, src); }
    forall dst: nat | IsLink(fs, nd, nn, dst) && dst != src ensures !Reaches(fs, dst, od) && !Reaches(fs, dst, nd) {
      ChildReachesNot(fs, nd, nn, dst);
      LinkedHasNlink(fs, nd, nn, dst);
      Cleared(fs, od, on, nd, nn, src, dst);
      LeafReachesNot(fs, dst, od);
    }
  }

  // After a rename both directories are where they were, the new name leads to the source and the old name is gone.
  lemma RenameThenDescend(fs: Fs, ow: seq<Name>, od: nat, on: Name, nw: seq<Name>, nd: nat, nn: Name, src: nat)
    requires TreeInv(fs) && Rename(fs, od, on, nd, nn).Ok? && IsLink(fs, od, on, src)
    requires Descend(fs, ROOT, ow) == Ok(od) && Descend(fs, ROOT, nw) == Ok(nd)
    ensures var fs' := Rename(fs, od, on, nd, nn).v;
      && Descend(fs', ROOT, ow) == Ok(od) && Descend(fs', ROOT, nw) == Ok(nd)
      && Descend(fs', ROOT, nw + [nn]) == Ok(src)
      && Descend(fs', ROOT, ow + [on]) == (if IsLink(fs, nd, nn, src) then Ok(src) else Fail(ENOENT))
  {
    hide TreeInv, Rename, IsLink, Lookup;
    var fs' := Rename(fs, od, on, nd, nn).v;
    RenameEffect(fs, od, on, nd, nn, src);
    if !IsLink(fs, nd, nn, src) {
      RenameApart(fs, od, on, nd, nn, src);
      ReachesItself(fs, od);
      LinkUnique(fs, od, on, src);
      WayStays(fs, fs', ROOT, ow, od);
      WayStays(fs, fs', ROOT, nw, nd);
      RenamedDir(fs, fs', od, on, nd, nn, src);
      assert IsLink(fs', nd, nn, src);
    }
    DescendAppend(fs', ROOT, ow, on);
    DescendAppend(fs', ROOT, nw, nn);
    LookupExact(fs', od, on);
    LookupExact(fs', nd, nn);
    if IsLink(fs', od, on, src) { LinkUnique(fs', od, on, src); }
    LinkUnique(fs', nd, nn, src);
  }

  lemma RenamedDir(fs: Fs, fs': Fs, od: nat, on: Name, nd: nat, nn: Name, src: nat)
    requires TreeInv(fs) && IsLink(fs, od, on, src) && NameMoved(fs, fs', od, on, nd, nn, src) && src != od
    requires forall dst: nat :: IsLink(fs, nd, nn, dst) && dst != src ==> dst != od
    ensures fs'[od].Dir?
  {
    assert Attrs(fs'[od]) == Attrs(fs[od]);
  }

  // The checks on the names and the directories, in the order in which they are made.
  lemma RenameRefuses(fs: Fs, od: nat, on: Name, nd: nat, nn: Name)
    requires TreeInv(fs)
    ensures var r, e := Rename(fs, od, on, nd, nn), if NameCheck(on) != OK then NameCheck(on) else NameCheck(nn);
      && (e != OK ==> r == Fail(e))
      && (e == OK && (od == 0 || od >= |fs|) ==> r == Fail(EINVAL))
      && (e == OK && 0 < od < |fs| && !fs[od].Dir? ==> r == Fail(ENOTDIR))
      && (e == OK && DirAt(fs, od) && (nd == 0 || nd >= |fs|) ==> r == Fail(EINVAL))
      && (e == OK && DirAt(fs, od) && 0 < nd < |fs| && !fs[nd].Dir? ==> r == Fail(ENOTDIR))
      && (e == OK && DirAt(fs, od) && DirAt(fs, nd) && !Bound(fs, od, on) ==> r == Fail(ENOENT))
  {
    BoundIs(fs, od, on);
  }

  // The checks on the nodes: the source may not move below itself, and may only take the name of a node of its kind, if
  // a directory then an empty one.
  lemma RenameChecks(fs: Fs, od: nat, on: Name, nd: nat, nn: Name, src: nat, dst: nat)
    requires TreeInv(fs) && IsLink(fs, od, on, src) && NameCheck(nn) == OK && DirAt(fs, nd)
    ensures 0 < src < |fs|
    ensures var r := Rename(fs, od, on, nd, nn);
      var below := fs[src].Dir? && od != nd && Reaches(fs, src, nd);
      && (r == Fail(EINVAL) <==> below)
      && (!Bound(fs, nd, nn) || IsLink(fs, nd, nn, src) ==> (r.Ok? <==> !below))
      && (IsLink(fs, nd, nn, dst) && dst != src && !below ==>
        && 0 < dst < |fs|
        && (r == Fail(ENOTDIR) <==> fs[src].Dir? && fs[dst].File?)
        && (r == Fail(EISDIR) <==> fs[src].File? && fs[dst].Dir?)
        && (r == Fail(ENOTEMPTY) <==> fs[src].Dir? && fs[dst].Dir? && !Leafless(fs, dst))
        && (r.Ok? <==> fs[src].Dir? == fs[dst].Dir? && (fs[dst].Dir? ==> Leafless(fs, dst))))
  {
    NamedIsLive(fs, od, on, src);
    BoundIs(fs, nd, nn);
    assert od > 0 && NameCheck(on) == OK;
    if fs[src].Dir? { BelowIsReached(fs, nd, src); }
    if IsLink(fs, nd, nn, dst) {
      NamedIsLive(fs, nd, nn, dst);
      EmptyIs(fs, dst);
    }
  }

  lemma EmptyIs(fs: Fs, d: nat)
    requires d < |fs|
    ensures Leafless(fs, d) <==> Entries(fs[d]) == map[]
  {
    var e := Entries(fs[d]);
    if e != map[] {
      var nm :| nm in e;
      assert IsLink(fs, d, nm, e[nm]);
    }
  }

  lemma {:induction false} LastStep(fs: Fs, a: nat, ws: seq<Name>, b: nat) returns (d: nat, nm: Name)
    requires Descend(fs, a, ws) == Ok(b) && ws != []
    ensures Reaches(fs, a, d) && IsLink(fs, d, nm, b)
  {
    var up := ws[..|ws| - 1];
    nm := ws[|ws| - 1];
    assert up + [nm] == ws;
    if Descend(fs, a, up).Fail? { DescendFails(fs, a, up, [nm]); }
    DescendAppend(fs, a, up, nm);
    d := Descend(fs, a, up).v;
  }

  // Below the source a rename changes no step.
  lemma StepBelow(fs: Fs, fs': Fs, od: nat, on: Name, nd: nat, nn: Name, src: nat, x: nat, nm: Name)
    requires TreeInv(fs) && IsLink(fs, od, on, src) && NameMoved(fs, fs', od, on, nd, nn, src)
    requires Reaches(fs, src, x) && x != od && x != nd && !Reaches(fs, src, nd)
    ensures Lookup(fs', x, nm) == Lookup(fs, x, nm)
  {
    hide TreeInv, IsLink, Lookup;
    var ws: seq<Name> :| Descend(fs, src, ws) == Ok(x);
    LookupExact(fs, x, nm);
    LookupExact(fs', x, nm);
    forall t: nat ensures IsLink(fs', x, nm, t) <==> IsLink(fs, x, nm, t) {}
    if Lookup(fs, x, nm).Ok? { LinkUnique(fs, x, nm, Lookup(fs, x, nm).v); }
    NamedIsLive(fs, od, on, src);
    if x != src {
      var d, l := LastStep(fs, src, ws, x);
      NamedIsLive(fs, d, l, x);
      if IsLink(fs, nd, nn, x) { TwoNames(fs, d, l, nd, nn, x); }
      assert !IsLink(fs, nd, nn, x) ==> Attrs(fs'[x]) == Attrs(fs[x]);
    }
  }

  lemma TwoNames(fs: Fs, d: nat, nm: Name, e: nat, en: Name, x: nat)
    requires TreeInv(fs) && IsLink(fs, d, nm, x) && IsLink(fs, e, en, x) && d != e
    ensures x < |fs| && fs[x].File? && fs[x].nlink >= 2
  {
    LinkedHasNlink(fs, d, nm, x);
    LinksMember(fs, d, nm, x);
    LinksMember(fs, e, en, x);
    TwoLinks(Links(fs, x), Link(d, nm), Link(e, en));
    if fs[x].Dir? { ParentIsLink(fs, d, nm, x); }
  }

  lemma {:induction false} SubtreeSame(fs: Fs, fs': Fs, od: nat, on: Name, nd: nat, nn: Name, src: nat, x: nat,
                                       ws: seq<Name>)
    requires TreeInv(fs) && IsLink(fs, od, on, src) && NameMoved(fs, fs', od, on, nd, nn, src)
    requires Reaches(fs, src, x) && !Reaches(fs, src, od) && !Reaches(fs, src, nd)
    ensures Descend(fs', x, ws) == Descend(fs, x, ws)
    decreases |ws|
  {
    hide TreeInv, IsLink, Lookup, NameMoved;
    if ws != [] {
      StepBelow(fs, fs', od, on, nd, nn, src, x, ws[0]);
      var l := Lookup(fs, x, ws[0]);
      if l.Ok? {
        var down: seq<Name> :| Descend(fs, src, down) == Ok(x);
        DescendAppend(fs, src, down, ws[0]);
        SubtreeSame(fs, fs', od, on, nd, nn, src, l.v, ws[1..]);
      }
    }
  }

  // A rename takes the whole subtree along: what was below the old name is below the new one, path by path.
  lemma RenameMovesSubtree(fs: Fs, nw: seq<Name>, od: nat, on: Name, nd: nat, nn: Name, src: nat, ws: seq<Name>)
    requires TreeInv(fs) && Rename(fs, od, on, nd, nn).Ok? && IsLink(fs, od, on, src)
    requires Descend(fs, ROOT, nw) == Ok(nd)
    ensures Descend(Rename(fs, od, on, nd, nn).v, ROOT, nw + [nn] + ws) == Descend(fs, src, ws)
  {
    hide TreeInv, Rename, IsLink, Lookup, NameMoved;
    var fs' := Rename(fs, od, on, nd, nn).v;
    RenameEffect(fs, od, on, nd, nn, src);
    var ow := WaysDown(fs, od);
    RenameThenDescend(fs, ow, od, on, nw, nd, nn, src);
    DescendThrough(fs', ROOT, nw + [nn], ws);
    if !IsLink(fs, nd, nn, src) {
      RenameApart(fs, od, on, nd, nn, src);
      assert Descend(fs, src, []) == Ok(src);
      SubtreeSame(fs, fs', od, on, nd, nn, src, src, ws);
    }
  }

  // ---- file contents --------------------------------------------------------------------------------------------

  // Only the bytes of file id differ.
  ghost predicate OnlyBytes(fs: Fs, fs': Fs, id: nat) {
    && |fs'| == |fs| && id < |fs| && fs[id].File? && fs'[id].File?
    && fs'[id].nlink == fs[id].nlink && fs'[id].mode == fs[id].mode
    && forall x: nat :: x < |fs| && x != id ==> fs'[x] == fs[x]
  }

  lemma WriteEffect(fs: Fs, id: nat, off: nat, data: seq<byte>)
    ensures var r := WriteAt(fs, id, off, data);
      var fits := data != [] && off + |data| <= MAX_FILE_SIZE;
      && (r.Ok? <==> data == [] || (fits && 0 < id < |fs| && fs[id].File?))
      && (r == Fail(EFBIG) <==> data != [] && !fits)
      && (r == Fail(EINVAL) <==> fits && (id == 0 || id >= |fs|))
      && (r == Fail(ENOENT) <==> fits && 0 < id < |fs| && fs[id].Free?)
      && (r == Fail(EISDIR) <==> fits && 0 < id < |fs| && fs[id].Dir?)
      && (data == [] ==> r == Ok(fs))
      && (r.Ok? && data != [] ==>
        && OnlyBytes(fs, r.v, id)
        && |r.v[id].content| == (if off + |data| > |fs[id].content| then off + |data| else |fs[id].content|)
        && forall i: nat :: i < |r.v[id].content| ==>
          r.v[id].content[i] == if off <= i < off + |data| then data[i - off] else ByteOrZero(fs[id].content, i))
  {}

  lemma TruncateEffect(fs: Fs, id: nat, size: nat)
    ensures var r := TruncateTo(fs, id, size);
      var fits := size <= MAX_FILE_SIZE;
      && (r.Ok? <==> fits && 0 < id < |fs| && fs[id].File?)
      && (r == Fail(EFBIG) <==> !fits)
      && (r == Fail(EINVAL) <==> fits && (id == 0 || id >= |fs|))
      && (r == Fail(ENOENT) <==> fits && 0 < id < |fs| && fs[id].Free?)
      && (r == Fail(EISDIR) <==> fits && 0 < id < |fs| && fs[id].Dir?)
      && (r.Ok? ==>
        && OnlyBytes(fs, r.v, id) && |r.v[id].content| == size
        && forall i: nat :: i < size ==> r.v[id].content[i] == ByteOrZero(fs[id].content, i))
  {}

  lemma ReadEffect(fs: Fs, id: nat, off: nat, len: nat)
    ensures var r := ReadAt(fs, id, off, len);
      && (r.Ok? <==> 0 < id < |fs| && fs[id].File?)
      && (r == Fail(EINVAL) <==> id == 0 || id >= |fs|)
      && (r == Fail(ENOENT) <==> 0 < id < |fs| && fs[id].Free?)
      && (r == Fail(EISDIR) <==> 0 < id < |fs| && fs[id].Dir?)
      && (r.Ok? ==>
        && |r.v| <= len && (|r.v| < len ==> off + |r.v| == |fs[id].content| || (r.v == [] && off > |fs[id].content|))
        && forall i: nat :: i < |r.v| ==> off + i < |fs[id].content| && r.v[i] == fs[id].content[off + i])
  {}

  // What was written is what is read, and no other byte of any file reads differently.
  lemma WriteThenRead(fs: Fs, id: nat, off: nat, data: seq<byte>)
    requires data != [] && WriteAt(fs, id, off, data).Ok?
    ensures ReadAt(WriteAt(fs, id, off, data).v, id, off, |data|) == Ok(data)
    ensures forall x: nat, o: nat, len: nat :: x != id || (o + len <= off && o + len <= |fs[id].content|) ==>
      ReadAt(WriteAt(fs, id, off, data).v, x, o, len) == ReadAt(fs, x, o, len)
  {
    hide WriteAt, ReadAt, WriteBytes;
    var fs' := WriteAt(fs, id, off, data).v;
    WriteEffect(fs, id, off, data);
    ReadEffect(fs', id, off, |data|);
    assert ReadAt(fs', id, off, |data|).v == data;
    forall x: nat, o: nat, len: nat | x != id || (o + len <= off && o + len <= |fs[id].content|)
      ensures ReadAt(fs', x, o, len) == ReadAt(fs, x, o, len)
    {
      ReadEffect(fs', x, o, len);
      ReadEffect(fs, x, o, len);
      ReadSame(fs, fs', x, o, len);
    }
  }

  ghost predicate SameRange(a: Node, b: Node, o: nat, len: nat) {
    && a.File? && b.File? && o + len <= |a.content| && o + len <= |b.content|
    && b.content[o..o + len] == a.content[o..o + len]
  }

  lemma ReadSame(fs: Fs, fs': Fs, x: nat, o: nat, len: nat)
    requires |fs'| == |fs|
    requires x < |fs| ==> fs'[x] == fs[x] || SameRange(fs[x], fs'[x], o, len)
    ensures ReadAt(fs', x, o, len) == ReadAt(fs, x, o, len)
  {}

  // ---- whole runs: the bytes of a file are its history -------------------------------------------------------------

  ghost predicate Took(fs: Fs, op: Op, fs': Fs) { TreeInv(fs) && Outcome(fs, op) == Ok(fs') }

  // What a call that took effect does to the bytes of file id.
  function FileEffect(op: Op, id: nat): seq<FileOp> {
    if op.OWrite? && op.id == id then [Put(op.off, op.data)]
    else if op.OTruncate? && op.id == id then [Cut(op.size)]
    else []
  }

  // The writes and cuts that took effect on node id in the first n calls, since it last became a file.
  ghost function HistoryOf(trace: seq<Fs>, ops: seq<Op>, id: nat, n: nat): seq<FileOp>
    requires |trace| == |ops| + 1 && n <= |ops|
  {
    if n == 0 then []
    else
      var before, op, h := trace[n - 1], ops[n - 1], HistoryOf(trace, ops, id, n - 1);
      if !(id < |before| && before[id].File?) then []
      else if Took(before, op, trace[n]) then h + FileEffect(op, id)
      else h
  }

  function HistoryLength(h: seq<FileOp>): nat {
    if h == [] then 0
    else
      var op, len := h[|h| - 1], HistoryLength(h[..|h| - 1]);
      match op
      case Put(off, data) => if data != [] && off + |data| > len then off + |data| else len
      case Cut(size) => size
  }

  lemma ContentStep(fs: Fs, op: Op, fs': Fs, id: nat)
    requires TreeInv(fs) && Called(fs, op, fs') && id < |fs'| && fs'[id].File?
    ensures |fs'| == |fs| && (!fs[id].File? ==> fs'[id].content == [])
    ensures fs[id].File? ==>
      var eff := if Took(fs, op, fs') then FileEffect(op, id) else [];
      fs'[id].content == if eff == [] then fs[id].content else After(fs[id].content, eff[0])
  {
    hide TreeInv, Create, LinkAt, Unlink, Rename, IsLink, NameMoved;
    CalledKeepsTree(fs, op, fs');
    if Took(fs, op, fs') {
      match op
      case OCreate(dir, name, kind, mode) =>
        TreeFacts(fs);
        CreateEffect(fs, dir, name, kind, mode);
        assert Attrs(fs'[id]) == Attrs(fs[id]) || id == Create(fs, dir, name, kind, mode).v.id;
      case OLink(dir, name, t) =>
        LinkRefuses(fs, dir, name, t);
        LinkEffect(fs, dir, name, t);
        assert id != t ==> Attrs(fs'[id]) == Attrs(fs[id]);
      case OUnlink(dir, name) => UnlinkContent(fs, fs', dir, name, id);
      case ORename(od, on, nd, nn) => RenameContent(fs, fs', od, on, nd, nn, id);
      case OWrite(i, off, data) =>
      case OTruncate(i, size) =>
    }
  }

  lemma UnlinkContent(fs: Fs, fs': Fs, dir: nat, name: Name, id: nat)
    requires TreeInv(fs) && Unlink(fs, dir, name) == Ok(fs') && id < |fs'| && fs'[id].File?
    ensures |fs'| == |fs| && fs[id].File? && fs'[id].content == fs[id].content
  {
    hide TreeInv, Unlink;
    UnlinkRefuses(fs, dir, name, 0);
    LookupExact(fs, dir, name);
    var t := Lookup(fs, dir, name).v;
    UnlinkRefuses(fs, dir, name, t);
    UnlinkEffect(fs, dir, name, t);
    assert id != t ==> Attrs(fs'[id]) == Attrs(fs[id]);
  }

  lemma RenameContent(fs: Fs, fs': Fs, od: nat, on: Name, nd: nat, nn: Name, id: nat)
    requires TreeInv(fs) && Rename(fs, od, on, nd, nn) == Ok(fs') && id < |fs'| && fs'[id].File?
    ensures |fs'| == |fs| && fs[id].File? && fs'[id].content == fs[id].content
  {
    var src := fs[od].entries[on];
    assert IsLink(fs, od, on, src);
    LinkedHasNlink(fs, od, on, src);
    RenameEffect(fs, od, on, nd, nn, src);
    assert !IsLink(fs, nd, nn, src) && id != src && !IsLink(fs, nd, nn, id) ==> Attrs(fs'[id]) == Attrs(fs[id]);
  }

  lemma HistoryStep(c: seq<byte>, h: seq<FileOp>, eff: seq<FileOp>, c': seq<byte>)
    requires |c| == HistoryLength(h) && (forall i: nat :: ByteOrZero(c, i) == LastByte(h, i)) && |eff| <= 1
    requires c' == if eff == [] then c else After(c, eff[0])
    ensures |c'| == HistoryLength(h + eff) && forall i: nat :: ByteOrZero(c', i) == LastByte(h + eff, i)
  {
    if eff == [] {
      assert h + eff == h;
    } else {
      assert (h + eff)[..|h|] == h && (h + eff)[|h|] == eff[0];
      forall i: nat ensures ByteOrZero(c', i) == LastByte(h + eff, i) { AfterByte(c, eff[0], i); }
    }
  }

  // In every run from mkfs, whatever else is created, linked, moved or removed, a file holds exactly what the calls on
  // it since its creation say: every byte and no more.
  lemma {:induction false} FileIsHistory(nodes: nat, mode: nat, trace: seq<Fs>, ops: seq<Op>, id: nat, n: nat)
    requires nodes >= 2 && Run(trace, ops) && trace[0] == Fresh(nodes, mode) && n <= |ops|
    requires id < |trace[n]| && trace[n][id].File?
    ensures var c, h := trace[n][id].content, HistoryOf(trace, ops, id, n);
      |c| == HistoryLength(h) && forall i: nat :: ByteOrZero(c, i) == LastByte(h, i)
    decreases n
  {
    hide TreeInv, Outcome, Called;
    if n > 0 {
      RunsKeepTree(nodes, mode, trace, ops);
      var before, op, after := trace[n - 1], ops[n - 1], trace[n];
      assert Called(before, op, after);
      ContentStep(before, op, after, id);
      if before[id].File? {
        FileIsHistory(nodes, mode, trace, ops, id, n - 1);
        if Took(before, op, after) {
          HistoryStep(before[id].content, HistoryOf(trace, ops, id, n - 1), FileEffect(op, id), after[id].content);
        }
      }
    }
  }

}
