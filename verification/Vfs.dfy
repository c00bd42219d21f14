// Open-file accounting over graphfs: an open description never outlives its node, although node
// ids are reused.
module Vfs {
  import opened GfsTypes
  import opened Namespace
  import opened TreeTheory
  import opened Paths
  import opened NamespaceRuns
  import opened NamespaceLaws
  import opened GfsDisk
  import opened GfsCore
  import opened GfsCrash
  import opened GfsOps
  import opened GfsRename
  import opened GfsTruncate
  import opened GfsRead

  // ---- which nodes an operation can free ---------------------------------------------------------------

  ghost predicate SameKind(a: Node, b: Node) { a.Dir? == b.Dir? && a.File? == b.File? }

  lemma UnlinkKinds(t: Fs, dir: nat, name: Name, x: nat)
    requires TreeInv(t) && Unlink(t, dir, name).Ok? && x < |t|
    ensures |Unlink(t, dir, name).v| == |t|
    ensures SameKind(t[x], Unlink(t, dir, name).v[x]) || (x == t[dir].entries[name] && Nlink(t[x]) == 1)
  {
    assert IsLink(t, dir, name, t[dir].entries[name]);
  }

  lemma CreateKinds(t: Fs, dir: nat, name: Name, kind: Kind, mode: nat, x: nat)
    requires |t| >= 2 && Create(t, dir, name, kind, mode).Ok? && x < |t|
    ensures var c := Create(t, dir, name, kind, mode).v;
      && |c.fs| == |t| && c.id < |t| && t[c.id].Free?
      && (SameKind(t[x], c.fs[x]) || x == c.id)
  {}

  lemma LinkKinds(t: Fs, dir: nat, name: Name, target: nat, x: nat)
    requires LinkAt(t, dir, name, target).Ok? && x < |t|
    ensures |LinkAt(t, dir, name, target).v| == |t| && SameKind(t[x], LinkAt(t, dir, name, target).v[x])
  {}

  // The node a rename replaces and frees.
  ghost predicate Replaces(t: Fs, od: nat, on: Name, nd: nat, nn: Name, dst: nat) {
    && od < |t| && t[od].Dir? && on in t[od].entries
    && IsLink(t, nd, nn, dst) && dst != t[od].entries[on]
    && dst < |t| && (t[dst].Dir? || (t[dst].File? && t[dst].nlink == 1))
  }

  lemma RenameKinds(t: Fs, od: nat, on: Name, nd: nat, nn: Name, x: nat)
    requires TreeInv(t) && Rename(t, od, on, nd, nn).Ok? && x < |t|
    ensures |Rename(t, od, on, nd, nn).v| == |t|
    ensures if Replaces(t, od, on, nd, nn, x) then Rename(t, od, on, nd, nn).v[x].Free?
      else SameKind(t[x], Rename(t, od, on, nd, nn).v[x])
  {
    hide Under;
    var src := t[od].entries[on];
    assert IsLink(t, od, on, src);
    LinkedHasNlink(t, od, on, src);
    if nn in t[nd].entries {
      var dst := t[nd].entries[nn];
      assert IsLink(t, nd, nn, dst);
      LinkedHasNlink(t, nd, nn, dst);
      if t[dst].Dir? { DirNlink(t, dst); ParentIsLink(t, nd, nn, dst); }
      if dst != src { Cleared(t, od, on, nd, nn, src, dst); }
    }
  }

  // ---- paths -----------------------------------------------------------------------------------------------

  function LastSlash(p: string): (k: nat)
    requires p != "" && p[0] == '/'
    ensures k < |p| && p[k] == '/' && forall j :: k < j < |p| ==> p[j] != '/'
  {
    if p[|p| - 1] == '/' then |p| - 1 else LastSlash(p[..|p| - 1])
  }

  function DirPath(p: string): string
    requires p != "" && p[0] == '/'
  {
    if LastSlash(p) == 0 then "/" else p[..LastSlash(p)]
  }

  function LastName(p: string): Name
    requires p != "" && p[0] == '/'
  {
    p[LastSlash(p) + 1..]
  }

  // A split loses nothing: the components of a path are those of its directory and its last name.
  lemma SplitComponents(p: string)
    requires p != "" && p[0] == '/'
    ensures DirPath(p) != "" && DirPath(p)[0] == '/' && '/' !in LastName(p)
    ensures Components(p) == Components(DirPath(p)) + Components(LastName(p))
  {
    var k := LastSlash(p);
    assert p == p[..k] + "/" + LastName(p);
    SlashSplits(p[..k], LastName(p), 0);
    if k == 0 {
      assert p[..k] == "" && Components("") == [];
      assert Components("/") == [];
    }
  }

  // path_split
  method PathSplit(canon: string) returns (parent: string, name: Name)
    requires canon != "" && canon[0] == '/'
    ensures parent == DirPath(canon) && name == LastName(canon)
  {
    var last := 0;
    var i := 0;
    while i < |canon|
      invariant i <= |canon| && last < |canon| && canon[last] == '/'
      invariant forall j :: last < j < i ==> canon[j] != '/'
    {
      if canon[i] == '/' { last := i; }
      i := i + 1;
    }
    assert last == LastSlash(canon);
    name := canon[last + 1..];
    parent := if last == 0 then "/" else canon[..last];
  }

  // ---- open descriptions -------------------------------------------------------------------------------------

  datatype Desc = Desc(node: nat, dir: bool, refs: nat)
  datatype Flags = Flags(write: bool, creat: bool, excl: bool, trunc: bool, directory: bool)
  datatype VErr = Done | Busy | IsDir | NotDir | Exists | NoMem | Invalid | NotPermitted | FromFs(e: Err)

  ghost function HeldBy(files: map<nat, Desc>, id: nat): set<nat> {
    set h | h in files && files[h].node == id
  }

  lemma HeldByAdd(files: map<nat, Desc>, h: nat, d: Desc, id: nat)
    requires h !in files
    ensures |HeldBy(files[h := d], id)| == |HeldBy(files, id)| + (if d.node == id then 1 else 0)
  {
    if d.node == id {
      assert HeldBy(files[h := d], id) == HeldBy(files, id) + {h};
    } else {
      assert HeldBy(files[h := d], id) == HeldBy(files, id);
    }
  }

  lemma HeldByDrop(files: map<nat, Desc>, h: nat, id: nat)
    requires h in files
    ensures |HeldBy(files, id)| == |HeldBy(files - {h}, id)| + (if files[h].node == id then 1 else 0)
  {
    if files[h].node == id {
      assert HeldBy(files, id) == HeldBy(files - {h}, id) + {h};
    } else {
      assert HeldBy(files, id) == HeldBy(files - {h}, id);
    }
  }

  lemma HeldByRefs(files: map<nat, Desc>, h: nat, r: nat, id: nat)
    requires h in files
    ensures HeldBy(files[h := files[h].(refs := r)], id) == HeldBy(files, id)
  {}

  // node_opens counts the descriptions of every node.
  ghost predicate Counted(opens: seq<nat>, files: map<nat, Desc>, n: nat) {
    && |opens| == n
    && (forall id: nat :: id < n ==> opens[id] == |HeldBy(files, id)|)
    && forall h :: h in files ==> 0 < files[h].node < n && files[h].refs > 0
  }

  // Every description's node is in use and of the type it was opened with.
  ghost predicate Alive(t: Fs, files: map<nat, Desc>) {
    forall h :: h in files ==> OnNode(t, files[h])
  }

  ghost predicate OnNode(t: Fs, d: Desc) {
    d.node < |t| && !t[d.node].Free? && t[d.node].Dir? == d.dir
  }

  lemma OpenIsPositive(opens: seq<nat>, files: map<nat, Desc>, n: nat, h: nat)
    requires Counted(opens, files, n) && h in files
    ensures opens[files[h].node] > 0
  {
    assert h in HeldBy(files, files[h].node);
  }

  // A change that keeps the kind of every open node keeps the descriptions alive.
  lemma StayAlive(t: Fs, t': Fs, opens: seq<nat>, files: map<nat, Desc>)
    requires Counted(opens, files, |t|) && Alive(t, files) && |t'| == |t|
    requires forall x: nat :: x < |t| && !t[x].Free? && opens[x] > 0 ==> SameKind(t[x], t'[x])
    ensures Alive(t', files)
  {
    forall h | h in files ensures OnNode(t', files[h]) {
      assert OnNode(t, files[h]);
      OpenIsPositive(opens, files, |t|, h);
    }
  }

  // ---- what each call should do -------------------------------------------------------------------------------

  datatype Answer = Changed(t: Fs) | Refuse(e: VErr)

  function FromTree(r: Res<Fs>): Answer { if r.Ok? then Changed(r.v) else Refuse(FromFs(r.e)) }

  predicate IsPath(p: string) { p != "" && p[0] == '/' }

  function InDir(t: Fs, p: string): Res<nat>
    requires IsPath(p)
  {
    Resolve(t, DirPath(p))
  }

  function Target(t: Fs, p: string): Res<nat>
    requires IsPath(p)
  {
    if InDir(t, p).Fail? then InDir(t, p) else Lookup(t, InDir(t, p).v, LastName(p))
  }

  // Looking the last name up in its directory is resolving the path.
  lemma TargetIsResolve(t: Fs, p: string)
    requires IsPath(p) && LastName(p) != ""
    ensures Target(t, p) == Resolve(t, p)
  {
    SplitComponents(p);
    OneWord(LastName(p));
    if InDir(t, p).Ok? {
      DescendAppend(t, ROOT, Components(DirPath(p)), LastName(p));
    } else {
      DescendFails(t, ROOT, Components(DirPath(p)), [LastName(p)]);
    }
  }

  ghost function UnlinkAnswer(t: Fs, opens: seq<nat>, p: string): Answer
    requires IsPath(p) && TreeInv(t)
  {
    if p == "/" then Refuse(IsDir)
    else if Target(t, p).Fail? then Refuse(FromFs(Target(t, p).e))
    else
      var id := Target(t, p).v;
      if id < |t| && t[id].Dir? then Refuse(IsDir)
      else if id < |t| && Nlink(t[id]) == 1 && id < |opens| && opens[id] > 0 then Refuse(Busy)
      else FromTree(Namespace.Unlink(t, InDir(t, p).v, LastName(p)))
  }

  ghost function RmdirAnswer(t: Fs, opens: seq<nat>, p: string): Answer
    requires IsPath(p) && TreeInv(t)
  {
    if p == "/" then Refuse(Busy)
    else if Target(t, p).Fail? then Refuse(FromFs(Target(t, p).e))
    else
      var id := Target(t, p).v;
      if !(id < |t| && t[id].Dir?) then Refuse(NotDir)
      else if id < |opens| && opens[id] > 0 then Refuse(Busy)
      else FromTree(Namespace.Unlink(t, InDir(t, p).v, LastName(p)))
  }

  function MkdirAnswer(t: Fs, p: string, mode: nat): Answer
    requires IsPath(p) && |t| >= 2
  {
    if p == "/" then Refuse(Exists)
    else if InDir(t, p).Fail? then Refuse(FromFs(InDir(t, p).e))
    else
      var c := Create(t, InDir(t, p).v, LastName(p), KDir, mode);
      if c.Ok? then Changed(c.v.fs) else Refuse(FromFs(c.e))
  }

  function LinkAnswer(t: Fs, op: string, np: string): Answer
    requires IsPath(op) && IsPath(np)
  {
    if np == "/" then Refuse(Exists)
    else if Resolve(t, op).Fail? then Refuse(FromFs(Resolve(t, op).e))
    else if Resolve(t, op).v < |t| && t[Resolve(t, op).v].Dir? then Refuse(NotPermitted)
    else if InDir(t, np).Fail? then Refuse(FromFs(InDir(t, np).e))
    else FromTree(LinkAt(t, InDir(t, np).v, LastName(np), Resolve(t, op).v))
  }

  // Without the guard against freeing an open node.
  ghost function PlainRename(t: Fs, op: string, np: string): Answer
    requires IsPath(op) && IsPath(np) && TreeInv(t)
  {
    if op == "/" || np == "/" then Refuse(Busy)
    else if InDir(t, op).Fail? then Refuse(FromFs(InDir(t, op).e))
    else if InDir(t, np).Fail? then Refuse(FromFs(InDir(t, np).e))
    else FromTree(Namespace.Rename(t, InDir(t, op).v, LastName(op), InDir(t, np).v, LastName(np)))
  }

  ghost predicate HitsOpen(t: Fs, opens: seq<nat>, op: string, np: string)
    requires IsPath(op) && IsPath(np)
  {
    && op != "/" && np != "/" && InDir(t, op).Ok? && InDir(t, np).Ok?
    && FreesOpen(t, InDir(t, op).v, LastName(op), InDir(t, np).v, LastName(np), opens)
  }

  ghost function RenameAnswer(t: Fs, opens: seq<nat>, op: string, np: string): Answer
    requires IsPath(op) && IsPath(np) && TreeInv(t)
  {
    if HitsOpen(t, opens, op, np) then Refuse(Busy) else PlainRename(t, op, np)
  }

  // The call did what it should, or the device, a read-only mount or a full disk stopped it.
  ghost predicate Answered(rc: VErr, a: Answer, t: Fs, t': Fs, faulted: bool, readOnly: bool, short: bool) {
    if rc == Done then a == Changed(t') else t' == t && (a == Refuse(rc) || Excused(rc, faulted, readOnly, short))
  }

  predicate Excused(rc: VErr, faulted: bool, readOnly: bool, short: bool) {
    || (rc == FromFs(EIO) && faulted)
    || (rc == FromFs(EROFS) && readOnly)
    || (rc == FromFs(ENOSPC) && short)
  }

  // What open finds or makes, and what becomes of it.
  datatype Opening = Opening(rc: VErr, t: Fs, id: nat)

  function Find(t: Fs, p: string, fl: Flags, mode: nat): Opening
    requires IsPath(p) && |t| >= 2
  {
    var r := Resolve(t, p);
    if r.Ok? then if fl.creat && fl.excl then Opening(Exists, t, 0) else Opening(Done, t, r.v)
    else if r.e != ENOENT || !fl.creat || p == "/" then Opening(FromFs(r.e), t, 0)
    else if InDir(t, p).Fail? then Opening(FromFs(InDir(t, p).e), t, 0)
    else
      var c := Create(t, InDir(t, p).v, LastName(p), KFile, mode);
      if c.Ok? then Opening(Done, c.v.fs, c.v.id) else Opening(FromFs(c.e), t, 0)
  }

  function Enter(t: Fs, id: nat, fl: Flags, room: bool): Opening {
    if id < |t| && t[id].Dir? then
      Opening(if fl.write || fl.creat || fl.trunc then IsDir else if room then Done else NoMem, t, id)
    else if fl.directory then Opening(NotDir, t, id)
    else if fl.trunc && id < |t| && t[id].File? && t[id].content != [] then
      var c := TruncateTo(t, id, 0);
      if c.Fail? then Opening(FromFs(c.e), t, id) else Opening(if room then Done else NoMem, c.v, id)
    else Opening(if room then Done else NoMem, t, id)
  }

  function OpenAnswer(t: Fs, p: string, fl: Flags, mode: nat, room: bool): Opening
    requires IsPath(p) && |t| >= 2
  {
    if fl.directory && fl.creat then Opening(Invalid, t, 0)
    else
      var f := Find(t, p, fl, mode);
      if f.rc != Done then f else Enter(f.t, f.id, fl, room)
  }

  // A path that resolves leads to a node in use.
  lemma {:induction false} DescendLive(t: Fs, x: nat, ws: seq<Name>)
    requires TreeInv(t) && 0 < x < |t| && !t[x].Free? && Descend(t, x, ws).Ok?
    ensures 0 < Descend(t, x, ws).v < |t| && !t[Descend(t, x, ws).v].Free?
    decreases |ws|
  {
    hide TreeInv;
    if ws != [] {
      LinkedLive(t, x, ws[0], Lookup(t, x, ws[0]).v);
      DescendLive(t, Lookup(t, x, ws[0]).v, ws[1..]);
    }
  }

  lemma ResolveLive(t: Fs, p: string)
    requires TreeInv(t) && Resolve(t, p).Ok?
    ensures 0 < Resolve(t, p).v < |t| && !t[Resolve(t, p).v].Free?
  {
    DescendLive(t, ROOT, Components(p));
  }

  // ---- what the answers say, path by path -------------------------------------------------------------------

  // Below the root no path ends in a slash.
  predicate IsCanon(p: string) { IsPath(p) && (p == "/" || LastName(p) != "") }

  lemma RootPath()
    ensures forall t: Fs :: Resolve(t, "/") == Ok(ROOT)
  {
    assert Components("/") == [];
  }

  lemma InDirIs(t: Fs, p: string)
    requires IsPath(p)
    ensures InDir(t, p) == Descend(t, ROOT, Components(DirPath(p)))
    ensures LastName(p) != "" ==> Components(p) == Components(DirPath(p)) + [LastName(p)]
    ensures Resolve(t, p) == Descend(t, ROOT, Components(p))
  {
    SplitComponents(p);
    if LastName(p) != "" { OneWord(LastName(p)); }
  }

  // A name is removed exactly from a file that is not open or keeps another name.
  lemma UnlinkSays(t: Fs, opens: seq<nat>, p: string)
    requires IsCanon(p) && TreeInv(t) && |opens| == |t|
    ensures Resolve(t, p).Ok? ==> 0 < Resolve(t, p).v < |t| && !t[Resolve(t, p).v].Free?
    ensures var a, r := UnlinkAnswer(t, opens, p), Resolve(t, p);
      && (a == Refuse(IsDir) <==> r.Ok? && t[r.v].Dir?)
      && (a == Refuse(Busy) <==> r.Ok? && t[r.v].File? && t[r.v].nlink == 1 && opens[r.v] > 0)
      && (a.Changed? <==> r.Ok? && t[r.v].File? && (t[r.v].nlink > 1 || opens[r.v] == 0))
      && (a.Changed? ==> Resolve(a.t, p) == Fail(ENOENT) && |a.t| == |t| && (a.t[r.v].Free? <==> t[r.v].nlink == 1))
      && (r.Fail? ==> a == Refuse(FromFs(r.e)))
  {
    hide TreeInv, Unlink, Lookup, Components;
    RootPath();
    if Resolve(t, p).Ok? { ResolveLive(t, p); }
    if p == "/" { RootIsDir(t); } else {
      TargetIsResolve(t, p);
      if Target(t, p).Ok? { RemovedName(t, p, Target(t, p).v); }
    }
  }

  lemma RootIsDir(t: Fs)
    requires TreeInv(t)
    ensures |t| >= 2 && t[ROOT].Dir?
  {}

  lemma RemovedName(t: Fs, p: string, id: nat)
    requires IsCanon(p) && p != "/" && TreeInv(t) && Target(t, p) == Ok(id)
    ensures 0 < id < |t| && !t[id].Free? && t[id].nlink > 0 && InDir(t, p).Ok?
    ensures var r := Unlink(t, InDir(t, p).v, LastName(p));
      && (r.Ok? <==> t[id].Dir? ==> Leafless(t, id)) && (r.Fail? ==> r.e == ENOTEMPTY)
      && (r.Ok? ==> Resolve(r.v, p) == Fail(ENOENT) && |r.v| == |t| && (r.v[id].Free? <==> t[id].nlink == 1))
  {
    hide TreeInv, Unlink, Lookup;
    var dir, name := InDir(t, p).v, LastName(p);
    LookupExact(t, dir, name);
    UnlinkRefuses(t, dir, name, id);
    if Unlink(t, dir, name).Ok? {
      var t' := Unlink(t, dir, name).v;
      UnlinkEffect(t, dir, name, id);
      InDirIs(t, p);
      InDirIs(t', p);
      UnlinkThenDescend(t, Components(DirPath(p)), dir, name);
    }
  }

  // A directory is removed exactly when it is empty and not open, and never the root.
  lemma RmdirSays(t: Fs, opens: seq<nat>, p: string)
    requires IsCanon(p) && TreeInv(t) && |opens| == |t|
    ensures Resolve(t, p).Ok? ==> 0 < Resolve(t, p).v < |t| && !t[Resolve(t, p).v].Free?
    ensures var a, r := RmdirAnswer(t, opens, p), Resolve(t, p);
      && (a == Refuse(NotDir) <==> r.Ok? && t[r.v].File?)
      && (a == Refuse(Busy) <==> p == "/" || (r.Ok? && t[r.v].Dir? && opens[r.v] > 0))
      && (a == Refuse(FromFs(ENOTEMPTY)) <==> p != "/" && r.Ok? && t[r.v].Dir? && opens[r.v] == 0 && !Leafless(t, r.v))
      && (a.Changed? <==> p != "/" && r.Ok? && t[r.v].Dir? && opens[r.v] == 0 && Leafless(t, r.v))
      && (a.Changed? ==> Resolve(a.t, p) == Fail(ENOENT) && |a.t| == |t| && a.t[r.v].Free?)
      && (r.Fail? ==> a == Refuse(FromFs(r.e)) && r.e != ENOTEMPTY)
  {
    hide TreeInv, Unlink, Lookup, Components;
    RootPath();
    if Resolve(t, p).Ok? { ResolveLive(t, p); }
    if p == "/" { RootIsDir(t); } else {
      TargetIsResolve(t, p);
      if Target(t, p).Ok? {
        var id := Target(t, p).v;
        RemovedName(t, p, id);
        if t[id].Dir? { NamedDir(t, InDir(t, p).v, LastName(p), id); }
      } else {
        DescendNeverFull(t, ROOT, Components(p));
      }
    }
  }

  lemma NamedDir(t: Fs, dir: nat, name: Name, id: nat)
    requires TreeInv(t) && Lookup(t, dir, name) == Ok(id) && id < |t| && t[id].Dir?
    ensures t[id].nlink == 1
  {
    ParentIsLink(t, dir, name, id);
    DirNlink(t, id);
  }

  lemma {:induction false} DescendNeverFull(t: Fs, x: nat, ws: seq<Name>)
    ensures Descend(t, x, ws) != Fail(ENOTEMPTY)
    decreases |ws|
  {
    if ws != [] && Lookup(t, x, ws[0]).Ok? { DescendNeverFull(t, Lookup(t, x, ws[0]).v, ws[1..]); }
  }

  // The path leads to a new, empty directory of the mode asked for, in the directory it was made in.
  lemma MkdirSays(t: Fs, p: string, mode: nat)
    requires IsCanon(p) && TreeInv(t) && |t| >= 2
    ensures var a := MkdirAnswer(t, p, mode);
      && (Resolve(t, p).Ok? ==> a == Refuse(if p == "/" then Exists else FromFs(EEXIST)))
      && (a.Changed? ==>
        && Resolve(t, p) == Fail(ENOENT) && Resolve(a.t, p).Ok? && InDir(t, p).Ok?
        && var id := Resolve(a.t, p).v; id < |a.t| && a.t[id] == Dir(map[], InDir(t, p).v, 1, mode))
  {
    hide TreeInv, Create, Lookup, Components;
    RootPath();
    if p != "/" {
      TargetIsResolve(t, p);
      if InDir(t, p).Ok? {
        var dir, name := InDir(t, p).v, LastName(p);
        CreateRefuses(t, dir, name, KDir, mode);
        LookupExact(t, dir, name);
        if Create(t, dir, name, KDir, mode).Ok? {
          var c := Create(t, dir, name, KDir, mode).v;
          CreateEffect(t, dir, name, KDir, mode);
          CreatedNames(t, dir, name, KDir, mode, p);
          NoNames(t, c.fs, c.id, dir, name);
        }
      }
    }
  }

  lemma CreatedNames(t: Fs, dir: nat, name: Name, kind: Kind, mode: nat, p: string)
    requires IsCanon(p) && p != "/" && TreeInv(t) && |t| >= 2 && InDir(t, p) == Ok(dir) && name == LastName(p)
    requires Create(t, dir, name, kind, mode).Ok?
    ensures var c := Create(t, dir, name, kind, mode).v; Resolve(c.fs, p) == Ok(c.id)
  {
    hide TreeInv, Create;
    var c := Create(t, dir, name, kind, mode).v;
    InDirIs(t, p);
    InDirIs(c.fs, p);
    CreateThenResolve(t, DirPath(p), name, kind, mode);
    SlashSplits(DirPath(p), name, 0);
    OneWord(name);
  }

  // Nothing leads out of a node that was free.
  lemma NoNames(t: Fs, t': Fs, id: nat, dir: nat, name: Name)
    requires |t'| == |t| && id < |t| && t[id].Free? && dir < |t| && t[dir].Dir? && t'[id].Dir?
    requires forall d: nat, nm: Name, x: nat ::
      IsLink(t', d, nm, x) <==> IsLink(t, d, nm, x) || (d == dir && nm == name && x == id)
    ensures t'[id].entries == map[]
  {
    forall nm: Name, x: nat ensures !IsLink(t', id, nm, x) { assert !IsLink(t, id, nm, x); }
    EmptyIs(t', id);
  }

  // The new path leads to the file the old one leads to, which counts one name more, and the old path still does.
  lemma LinkSays(t: Fs, op: string, np: string)
    requires IsCanon(op) && IsCanon(np) && TreeInv(t)
    ensures Resolve(t, op).Ok? ==> 0 < Resolve(t, op).v < |t| && !t[Resolve(t, op).v].Free?
    ensures var a, r := LinkAnswer(t, op, np), Resolve(t, op);
      && (a == Refuse(NotPermitted) <==> np != "/" && r.Ok? && t[r.v].Dir?)
      && (a.Changed? ==>
        && r.Ok? && t[r.v].File? && Resolve(t, np) == Fail(ENOENT)
        && Resolve(a.t, np) == r && Resolve(a.t, op) == r && |a.t| == |t|
        && a.t[r.v] == File(t[r.v].content, t[r.v].nlink + 1, t[r.v].mode))
  {
    hide TreeInv, LinkAt, Lookup, Components;
    RootPath();
    if Resolve(t, op).Ok? { ResolveLive(t, op); }
    if LinkAnswer(t, op, np).Changed? {
      var dir, name, id := InDir(t, np).v, LastName(np), Resolve(t, op).v;
      var t' := LinkAt(t, dir, name, id).v;
      TargetIsResolve(t, np);
      LinkRefuses(t, dir, name, id);
      LinkEffect(t, dir, name, id);
      LookupExact(t, dir, name);
      InDirIs(t, np);
      InDirIs(t', np);
      InDirIs(t, op);
      InDirIs(t', op);
      LinkThenDescend(t, Components(DirPath(np)), dir, name, id);
    }
  }

  // The new path leads to the node the old one led to, the old path is gone, and whatever was below it is below the new
  // one; nothing changes when both are names of one file.
  lemma RenameSays(t: Fs, op: string, np: string)
    requires IsCanon(op) && IsCanon(np) && TreeInv(t) && PlainRename(t, op, np).Changed?
    ensures var t', src := PlainRename(t, op, np).t, Resolve(t, op);
      && src.Ok? && Resolve(t', np) == src
      && (Resolve(t, np) == src ==> t' == t)
      && (Resolve(t, np) != src ==> Resolve(t', op) == Fail(ENOENT))
      && forall ws: seq<Name> ::
        Descend(t', ROOT, Components(np) + ws) == Descend(t, ROOT, Components(op) + ws)
  {
    hide TreeInv, Rename, Lookup, Components, IsLink;
    var od, on, nd, nn := InDir(t, op).v, LastName(op), InDir(t, np).v, LastName(np);
    var t' := PlainRename(t, op, np).t;
    TargetIsResolve(t, op);
    TargetIsResolve(t, np);
    RenameRefuses(t, od, on, nd, nn);
    LookupExact(t, od, on);
    LookupExact(t, nd, nn);
    RenameBound(t, od, on, nd, nn);
    var src := Lookup(t, od, on).v;
    InDirIs(t, op);
    InDirIs(t, np);
    InDirIs(t', op);
    InDirIs(t', np);
    RenameEffect(t, od, on, nd, nn, src);
    RenameThenDescend(t, Components(DirPath(op)), od, on, Components(DirPath(np)), nd, nn, src);
    forall ws: seq<Name> ensures Descend(t', ROOT, Components(np) + ws) == Descend(t, ROOT, Components(op) + ws) {
      RenameMovesSubtree(t, Components(DirPath(np)), od, on, nd, nn, src, ws);
      DescendThrough(t, ROOT, Components(op), ws);
    }
    if IsLink(t, nd, nn, src) { LinkUnique(t, nd, nn, src); }
  }

  lemma RenameBound(t: Fs, od: nat, on: Name, nd: nat, nn: Name)
    requires TreeInv(t) && Rename(t, od, on, nd, nn).Ok?
    ensures Lookup(t, od, on).Ok?
  {}

  // What is there is opened as its kind allows, emptied if asked to; what is not is created if asked to.
  lemma OpenSays(t: Fs, p: string, fl: Flags, mode: nat, room: bool)
    requires IsCanon(p) && TreeInv(t) && |t| >= 2
    ensures Resolve(t, p).Ok? ==> 0 < Resolve(t, p).v < |t| && !t[Resolve(t, p).v].Free?
    ensures var o, r := OpenAnswer(t, p, fl, mode, room), Resolve(t, p);
      && (o.rc == Invalid <==> fl.directory && fl.creat)
      && (o.rc == Exists <==> r.Ok? && fl.creat && fl.excl && !fl.directory)
      && (o.rc == Done ==> room && 0 < o.id < |o.t| && |o.t| == |t| && Resolve(o.t, p) == Ok(o.id))
      && (r.Ok? ==>
        && (o.rc == Done <==>
          && room && !(fl.creat && (fl.excl || fl.directory))
          && if t[r.v].Dir? then !fl.write && !fl.creat && !fl.trunc else !fl.directory)
        && (o.rc == Done ==>
          && o.id == r.v && (forall x: nat :: x < |t| && x != r.v ==> o.t[x] == t[x])
          && o.t[r.v] == if t[r.v].File? && fl.trunc then t[r.v].(content := []) else t[r.v]))
      && (r.Fail? && o.rc == Done ==>
        r.e == ENOENT && fl.creat && t[o.id].Free? && o.t[o.id] == File([], 1, mode))
  {
    hide TreeInv, Create, Lookup, Components, Descend;
    RootPath();
    var r := Resolve(t, p);
    if r.Ok? {
      ResolveLive(t, p);
      if t[r.v].File? {
        TruncateEffect(t, r.v, 0);
        EmptiedSame(t, r.v, p);
      }
    } else if p != "/" {
      TargetIsResolve(t, p);
      if InDir(t, p).Ok? {
        var dir, name := InDir(t, p).v, LastName(p);
        if Create(t, dir, name, KFile, mode).Ok? {
          CreateEffect(t, dir, name, KFile, mode);
          CreatedNames(t, dir, name, KFile, mode, p);
        }
      }
    }
  }

  lemma EmptiedSame(t: Fs, id: nat, p: string)
    requires TreeInv(t) && 0 < id < |t| && t[id].File? && Resolve(t, p) == Ok(id)
    ensures TruncateTo(t, id, 0) == Ok(t[id := t[id].(content := [])])
    ensures Resolve(t[id := t[id].(content := [])], p) == Ok(id)
  {
    var t' := t[id := t[id].(content := [])];
    assert Resize(t[id].content, 0) == [];
    WayStays(t, t', ROOT, Components(p), id);
  }

  class VfsState {
    const fs: Gfs
    var opens: seq<nat>          // node_opens
    var files: map<nat, Desc>    // the open descriptions, by address

    constructor (fs: Gfs)
      requires fs.Valid() && TreeInv(fs.Stored())
      ensures Valid() && this.fs == fs && files == map[]
    {
      this.fs, files := fs, map[];
      opens := seq(fs.g.nodeCount, i => 0);
      new;
      assert forall id: nat :: HeldBy(files, id) == {};
    }

    ghost predicate Sound()
      reads this, fs
    {
      fs.Valid() && TreeInv(fs.Stored()) && Counted(opens, files, |fs.Stored()|)
    }

    ghost predicate Valid()
      reads this, fs
    {
      Sound() && Alive(fs.Stored(), files)
    }

    // gfs_locate
    method Locate(canon: string) returns (rc: Err, dir: nat, name: Name, id: nat, st: Stat)
      requires Valid() && IsPath(canon)
      modifies fs`faults, fs`mp, fs`T, fs`dirty
      ensures Valid() && fs.Steady(old(fs.faults))
      ensures rc == OK ==>
        InDir(fs.Stored(), canon) == Ok(dir) && name == LastName(canon) && Target(fs.Stored(), canon) == Ok(id)
      ensures rc == OK ==> 0 < id < |fs.Stored()| && !fs.Stored()[id].Free? && st == StatOf(fs.Stored()[id])
      ensures rc != OK ==> Target(fs.Stored(), canon) == Fail(rc) || (rc == EIO && fs.faults > old(fs.faults))
    {
      hide Image, View, StatOf, Resolve, Lookup, TreeInv, Alive, Counted, DirPath, LastName;
      var parent;
      parent, name := PathSplit(canon);
      id, st := 0, Stat(false, 0, 0, 0, 0, 0);
      rc, dir := ResolvePath(fs, parent);
      if rc != OK { return; }
      rc, id := LookupName(fs, dir, name);
      if rc != OK { return; }
      LinkedLive(fs.Stored(), dir, name, id);
      rc, st := NodeGet(fs, id);
    }

    method Ref(h: nat)
      requires Valid() && h in files
      modifies this
      ensures Valid() && opens == old(opens) && files == old(files)[h := old(files)[h].(refs := old(files)[h].refs + 1)]
    {
      forall id: nat ensures HeldBy(files[h := files[h].(refs := files[h].refs + 1)], id) == HeldBy(files, id) {
        HeldByRefs(files, h, files[h].refs + 1, id);
      }
      assert OnNode(fs.Stored(), files[h]);
      files := files[h := files[h].(refs := files[h].refs + 1)];
    }

    // Drop one reference; the last one gives the node back.
    method Put(h: nat)
      requires Valid() && h in files
      modifies this
      ensures Valid()
      ensures old(files)[h].refs > 1 ==>
        opens == old(opens) && files == old(files)[h := old(files)[h].(refs := old(files)[h].refs - 1)]
      ensures old(files)[h].refs == 1 ==> files == old(files) - {h} && old(opens)[old(files)[h].node] > 0
    {
      var d := files[h];
      OpenIsPositive(opens, files, |fs.Stored()|, h);
      assert OnNode(fs.Stored(), d);
      if d.refs > 1 {
        forall id: nat ensures HeldBy(files[h := d.(refs := d.refs - 1)], id) == HeldBy(files, id) {
          HeldByRefs(files, h, d.refs - 1, id);
        }
        files := files[h := d.(refs := d.refs - 1)];
      } else {
        forall id: nat ensures |HeldBy(files, id)| == |HeldBy(files - {h}, id)| + (if d.node == id then 1 else 0) {
          HeldByDrop(files, h, id);
        }
        files := files - {h};
        opens := opens[d.node := opens[d.node] - 1];
      }
    }

    // vfs_unlink: remove one name of a file; the last name of an open file stays.
    method Unlink(canon: string) returns (rc: VErr)
      requires Valid() && IsPath(canon)
      modifies this, fs
      ensures fs.Steady(old(fs.faults))
      ensures Valid() && opens == old(opens) && files == old(files)
      ensures Answered(rc, old(UnlinkAnswer(fs.Stored(), opens, canon)), old(fs.Stored()), fs.Stored(),
        fs.faults > old(fs.faults), !fs.writable,
                       old(fs.freeBlocks < NameSpace(fs.Stored(), canon)))
      ensures rc == Done && IsCanon(canon) ==>
        old(Resolve(fs.Stored(), canon)).Ok? && Resolve(fs.Stored(), canon) == Fail(ENOENT)
    {
      hide Image, View, TreeInv, Namespace.Unlink, Replay, Atomic, Alive, Counted, Target, InDir, LastName, UnlinkSpace;
      if canon == "/" { return IsDir; }
      ghost var t := fs.Stored();
      var grc, dir, name, id, st := Locate(canon);
      if grc != OK { return FromFs(grc); }
      if st.dir { return IsDir; }
      CountedFacts(opens, files, |t|);
      if st.nlink == 1 && opens[id] > 0 { return Busy; }
      TargetName(t, canon);
      grc := UnlinkName(fs, dir, name);
      if grc != OK { return FromFs(grc); }
      Unlinked(t, dir, name, id, opens, files);
      if IsCanon(canon) { UnlinkSays(t, opens, canon); }
      rc := Done;
    }

    // vfs_rmdir
    method Rmdir(canon: string) returns (rc: VErr)
      requires Valid() && IsPath(canon)
      modifies this, fs
      ensures fs.Steady(old(fs.faults))
      ensures Valid() && opens == old(opens) && files == old(files)
      ensures Answered(rc, old(RmdirAnswer(fs.Stored(), opens, canon)), old(fs.Stored()), fs.Stored(),
        fs.faults > old(fs.faults), !fs.writable,
                       old(fs.freeBlocks < NameSpace(fs.Stored(), canon)))
      ensures rc == Done && IsCanon(canon) ==>
        old(Resolve(fs.Stored(), canon)).Ok? && Resolve(fs.Stored(), canon) == Fail(ENOENT)
    {
      hide Image, View, TreeInv, Namespace.Unlink, Replay, Atomic, Alive, Counted, Target, InDir, LastName, UnlinkSpace;
      if canon == "/" { return Busy; }
      ghost var t := fs.Stored();
      var grc, dir, name, id, st := Locate(canon);
      if grc != OK { return FromFs(grc); }
      if !st.dir { return NotDir; }
      CountedFacts(opens, files, |t|);
      if opens[id] > 0 { return Busy; }
      TargetName(t, canon);
      grc := UnlinkName(fs, dir, name);
      if grc != OK { return FromFs(grc); }
      Unlinked(t, dir, name, id, opens, files);
      if IsCanon(canon) { RmdirSays(t, opens, canon); }
      rc := Done;
    }

    // vfs_mkdir
    method Mkdir(canon: string, mode: nat) returns (rc: VErr)
      requires Valid() && IsPath(canon)
      modifies this, fs
      ensures fs.Steady(old(fs.faults))
      ensures Valid() && opens == old(opens) && files == old(files) && old(|fs.Stored()| >= 2)
      ensures Answered(rc, old(MkdirAnswer(fs.Stored(), canon, mode)), old(fs.Stored()), fs.Stored(),
        fs.faults > old(fs.faults), !fs.writable,
                       old(fs.freeBlocks < 4))
      ensures rc == Done ==> old(Resolve(fs.Stored(), canon)) == Fail(ENOENT) && Resolve(fs.Stored(), canon).Ok?
      ensures rc == Done && IsCanon(canon) ==>
        var id := Resolve(fs.Stored(), canon).v;
        && old(InDir(fs.Stored(), canon)).Ok? && id < |fs.Stored()|
        && fs.Stored()[id] == Dir(map[], old(InDir(fs.Stored(), canon)).v, 1, mode)
    {
      hide Image, View, TreeInv, Create, Replay, Atomic, Alive, Counted, InDir, LastName, Resolve;
      ghost var t := fs.Stored();
      TreeFacts(t);
      if canon == "/" { return Exists; }
      var parent, name := PathSplit(canon);
      DirIs(t, canon);
      var grc, dir := ResolvePath(fs, parent);
      if grc != OK { return FromFs(grc); }
      var id;
      grc, id := CreateAt(fs, dir, name, KDir, mode);
      if grc != OK { return FromFs(grc); }
      CreatedAt(t, canon, dir, name, KDir, mode, opens, files);
      if IsCanon(canon) { MkdirSays(t, canon, mode); }
      rc := Done;
    }

    // The file a path leads to; directories are not linked.
    method FindFile(canon: string) returns (rc: VErr, id: nat)
      requires Valid() && IsPath(canon)
      modifies fs`faults, fs`mp, fs`T, fs`dirty
      ensures Valid() && fs.Steady(old(fs.faults))
      ensures rc == Done ==> Resolve(fs.Stored(), canon) == Ok(id) && id < |fs.Stored()| && fs.Stored()[id].File?
      ensures rc == NotPermitted ==>
        Resolve(fs.Stored(), canon) == Ok(id) && id < |fs.Stored()| && fs.Stored()[id].Dir?
      ensures rc !in {Done, NotPermitted} ==>
        rc.FromFs? && rc.e != OK
        && (Resolve(fs.Stored(), canon) == Fail(rc.e) || (rc.e == EIO && fs.faults > old(fs.faults)))
    {
      hide Image, View, TreeInv, Alive, Counted, Resolve;
      var grc;
      grc, id := ResolvePath(fs, canon);
      if grc != OK { return FromFs(grc), id; }
      ResolveLive(fs.Stored(), canon);
      var st;
      grc, st := NodeGet(fs, id);
      if grc != OK { return FromFs(grc), id; }
      rc := if st.dir then NotPermitted else Done;
    }

    // vfs_link: a second name for a file, never for a directory.
    method Link(ocanon: string, ncanon: string) returns (rc: VErr)
      requires Valid() && IsPath(ocanon) && IsPath(ncanon)
      modifies this, fs
      ensures fs.Steady(old(fs.faults))
      ensures Valid() && opens == old(opens) && files == old(files)
      ensures Answered(rc, old(LinkAnswer(fs.Stored(), ocanon, ncanon)), old(fs.Stored()), fs.Stored(),
        fs.faults > old(fs.faults), !fs.writable,
                       old(fs.freeBlocks < 4))
      ensures rc == Done && IsCanon(ocanon) && IsCanon(ncanon) ==>
        && old(Resolve(fs.Stored(), ncanon)) == Fail(ENOENT) && Resolve(fs.Stored(), ncanon).Ok?
        && Resolve(fs.Stored(), ncanon) == Resolve(fs.Stored(), ocanon) == old(Resolve(fs.Stored(), ocanon))
    {
      hide Image, View, TreeInv, LinkAt, Replay, Atomic, Alive, Counted, InDir, LastName, Resolve, IsCanon, DirPath;
      if ncanon == "/" { return Exists; }
      ghost var t := fs.Stored();
      var parent, name := PathSplit(ncanon);
      DirIs(t, ncanon);
      var id;
      rc, id := FindFile(ocanon);
      if rc != Done { return; }
      var grc, dir := ResolvePath(fs, parent);
      if grc != OK { return FromFs(grc); }
      grc := LinkName(fs, dir, name, id);
      if grc != OK { return FromFs(grc); }
      Linked(t, dir, name, id, opens, files);
      if IsCanon(ocanon) && IsCanon(ncanon) { LinkSays(t, ocanon, ncanon); }
      rc := Done;
    }

    // Create the missing last component in its directory.
    method CreateLast(canon: string, mode: nat) returns (grc: Err, id: nat)
      requires Valid() && IsPath(canon)
      modifies this, fs
      ensures Valid() && opens == old(opens) && files == old(files) && fs.Steady(old(fs.faults))
        && old(|fs.Stored()| >= 2)
      ensures grc == OK ==>
        && old(InDir(fs.Stored(), canon)).Ok? && Resolve(fs.Stored(), canon) == Ok(id)
        && old(Create(fs.Stored(), InDir(fs.Stored(), canon).v, LastName(canon), KFile,
          mode)) == Ok(Created(fs.Stored(), id))
        && 0 < id < |fs.Stored()| && fs.Stored()[id].File? && fs.Stored()[id].content == []
      ensures grc != OK ==> fs.Stored() == old(fs.Stored())
      ensures grc != OK ==>
        || old(InDir(fs.Stored(), canon)) == Fail(grc)
        || (old(InDir(fs.Stored(), canon)).Ok?
          && old(Create(fs.Stored(), InDir(fs.Stored(), canon).v, LastName(canon), KFile, mode)) == Fail(grc))
        || Excused(FromFs(grc), fs.faults > old(fs.faults), !fs.writable, old(fs.freeBlocks < 4))
    {
      hide Image, View, TreeInv, Create, Replay, Atomic, Alive, Counted, InDir, LastName, Resolve;
      ghost var t := fs.Stored();
      TreeFacts(t);
      id := 0;
      var parent, name := PathSplit(canon);
      DirIs(t, canon);
      var dir;
      grc, dir := ResolvePath(fs, parent);
      if grc != OK { return; }
      grc, id := CreateAt(fs, dir, name, KFile, mode);
      if grc == OK {
        CreatedAt(t, canon, dir, name, KFile, mode, opens, files);
        ResolveLive(fs.Stored(), canon);
      }
    }

    // The first half of gfs_open: resolve, or create the missing last component.
    method FindOrCreate(canon: string, fl: Flags, mode: nat) returns (rc: VErr, id: nat, st: Stat)
      requires Valid() && IsPath(canon)
      modifies this, fs
      ensures Valid() && opens == old(opens) && files == old(files) && fs.Steady(old(fs.faults))
        && old(|fs.Stored()| >= 2)
      ensures rc == Done ==> old(Find(fs.Stored(), canon, fl, mode)) == Opening(Done, fs.Stored(), id)
      ensures rc == Done ==>
        0 < id < |fs.Stored()| && !fs.Stored()[id].Free? && st == StatOf(fs.Stored()[id])
        && Resolve(fs.Stored(), canon) == Ok(id)
      ensures rc == Done ==> if old(Resolve(fs.Stored(), canon)).Ok? then fs.freeBlocks == old(fs.freeBlocks)
        else st.size == 0
      ensures rc != Done ==> fs.Stored() == old(fs.Stored()) || fs.Stored() == old(Find(fs.Stored(), canon, fl, mode)).t
      ensures rc != Done ==>
        || (old(Find(fs.Stored(), canon, fl, mode)).rc == rc && fs.Stored() == old(fs.Stored()))
        || Excused(rc, fs.faults > old(fs.faults), !fs.writable, old(fs.freeBlocks < 4))
    {
      hide Image, View, TreeInv, Create, Replay, Atomic, Alive, Counted, InDir, LastName, Resolve;
      ghost var t := fs.Stored();
      TreeFacts(t);
      var grc;
      st := Stat(false, 0, 0, 0, 0, 0);
      grc, id := ResolvePath(fs, canon);
      if grc == OK {
        if fl.creat && fl.excl { return Exists, id, st; }
        ResolveLive(t, canon);
        grc, st := NodeGet(fs, id);
      } else if grc == ENOENT && fl.creat && canon != "/" {
        grc, id := CreateLast(canon, mode);
        if grc == OK { grc, st := NodeGet(fs, id); }
      }
      rc := if grc == OK then Done else FromFs(grc);
    }

    // O_TRUNC.
    method Empty(canon: string, id: nat) returns (grc: Err)
      requires Valid() && IsPath(canon) && Resolve(fs.Stored(), canon) == Ok(id) && 0 < id < |fs.Stored()|
        && fs.Stored()[id].File?
      modifies this, fs
      ensures Valid() && opens == old(opens) && files == old(files) && fs.Steady(old(fs.faults))
      ensures grc == OK ==>
        && old(TruncateTo(fs.Stored(), id, 0)) == Ok(fs.Stored()) && Resolve(fs.Stored(), canon) == Ok(id)
        && id < |fs.Stored()| && fs.Stored()[id].File? && fs.Stored()[id].content == []
      ensures grc != OK ==> fs.Stored() == old(fs.Stored())
      ensures grc != OK ==>
        || old(TruncateTo(fs.Stored(), id, 0)) == Fail(grc)
        || Excused(FromFs(grc), fs.faults > old(fs.faults), !fs.writable, old(fs.freeBlocks < 4))
    {
      hide Image, View, TreeInv, Replay, Atomic, Alive, Counted, TruncateTo, Resolve;
      ghost var t := fs.Stored();
      grc := TruncateFile(fs, id, 0);
      if grc == OK { TruncateKeepsOpens(t, canon, id, opens, files); }
    }

    // gfs_open, with the flag check of vfs_open: the new description holds the node the path leads to.
    method Open(canon: string, fl: Flags, mode: nat, room: bool, h: nat) returns (rc: VErr)
      requires Valid() && IsPath(canon) && h !in files
      modifies this, fs
      ensures fs.Steady(old(fs.faults))
      ensures Valid() && old(|fs.Stored()| >= 2)
      ensures rc == Done ==>
        var o := old(OpenAnswer(fs.Stored(), canon, fl, mode, room));
        && o.rc == Done && o.t == fs.Stored() && o.id < |fs.Stored()| && Resolve(fs.Stored(), canon) == Ok(o.id)
        && files == old(files)[h := Desc(o.id, fs.Stored()[o.id].Dir?, 1)]
      ensures rc != Done ==> opens == old(opens) && files == old(files)
      ensures rc != Done ==>
        || (var o := old(OpenAnswer(fs.Stored(), canon, fl, mode, room)); o.rc == rc && o.t == fs.Stored())
        || (&& Excused(rc, fs.faults > old(fs.faults), !fs.writable, old(fs.freeBlocks < 4))
            && (fs.Stored() == old(fs.Stored()) || fs.Stored() == old(Find(fs.Stored(), canon, fl, mode)).t))
    {
      hide Image, View, TreeInv, Create, Replay, Atomic, Alive, Counted, TruncateTo, Find, Resolve;
      TreeFacts(fs.Stored());
      if fl.directory && fl.creat { return Invalid; }
      var id, st;
      rc, id, st := FindOrCreate(canon, fl, mode);
      if rc != Done { FailedFind(old(fs.Stored()), canon, fl, mode); return; }
      if st.dir {
        if fl.write || fl.creat || fl.trunc { return IsDir; }
      } else {
        if fl.directory { return NotDir; }
        if fl.trunc && st.size > 0 {
          FoundSame(old(fs.Stored()), canon, fl, mode);
          var grc := Empty(canon, id);
          if grc != OK { return FromFs(grc); }
        }
      }
      if !room { return NoMem; }
      Opened(fs.Stored(), opens, files, h, id);
      files := files[h := Desc(id, st.dir, 1)];
      opens := opens[id := opens[id] + 1];
      rc := Done;
    }

    // vfs_rename, with the guard against freeing an open node.  The guard looks only when its own
    // reads succeed; guarded says they did.
    method Rename(ocanon: string, ncanon: string) returns (rc: VErr, ghost guarded: bool)
      requires Valid() && IsPath(ocanon) && IsPath(ncanon)
      modifies this, fs
      ensures fs.Steady(old(fs.faults))
      ensures Sound() && opens == old(opens) && files == old(files)
      ensures !guarded ==> fs.faults > old(fs.faults)
      ensures Answered(rc, old(if guarded then RenameAnswer(fs.Stored(), opens, ocanon, ncanon)
        else PlainRename(fs.Stored(), ocanon, ncanon)),
                       old(fs.Stored()), fs.Stored(), fs.faults > old(fs.faults), !fs.writable,
                       old(fs.freeBlocks < TwoNameSpace(fs.Stored(), ocanon, ncanon)))
      ensures Valid() <==> !(rc == Done && old(HitsOpen(fs.Stored(), opens, ocanon, ncanon)))
      ensures guarded || !old(HitsOpen(fs.Stored(), opens, ocanon, ncanon)) ==> Valid()
      ensures rc == Done && IsCanon(ocanon) && IsCanon(ncanon) ==>
        && old(Resolve(fs.Stored(), ocanon)).Ok? && Resolve(fs.Stored(), ncanon) == old(Resolve(fs.Stored(), ocanon))
        && (old(Resolve(fs.Stored(), ncanon) != Resolve(fs.Stored(), ocanon)) ==>
          Resolve(fs.Stored(), ocanon) == Fail(ENOENT))
    {
      hide Image, View, TreeInv, Namespace.Rename, Replay, Atomic, Alive, Counted, StatOf, InDir, LastName, FreesOpen,
        DirSpace;
      guarded := true;
      if ocanon == "/" || ncanon == "/" { return Busy, guarded; }
      ghost var t := fs.Stored();
      var oparent, oname := PathSplit(ocanon);
      var nparent, nname := PathSplit(ncanon);
      DirIs(t, ocanon);
      DirIs(t, ncanon);
      var grc, odir := ResolvePath(fs, oparent);
      if grc != OK { return FromFs(grc), guarded; }
      var ndir;
      grc, ndir := ResolvePath(fs, nparent);
      if grc != OK { return FromFs(grc), guarded; }
      var busy;
      busy, guarded := Guard(odir, oname, ndir, nname);
      if busy { guarded := true; return Busy, guarded; }
      grc := RenameName(fs, odir, oname, ndir, nname);
      if grc != OK { return FromFs(grc), guarded; }
      CountedFacts(opens, files, |t|);
      Renamed(t, odir, oname, ndir, nname, opens, files);
      if IsCanon(ocanon) && IsCanon(ncanon) { RenameSays(t, ocanon, ncanon); }
      rc := Done;
    }

    // Would the rename free a node that is held open?
    method Guard(od: nat, on: Name, nd: nat, nn: Name) returns (busy: bool, ghost guarded: bool)
      requires Valid()
      modifies fs`faults, fs`mp, fs`T, fs`dirty
      ensures Valid() && fs.Steady(old(fs.faults))
      ensures !guarded ==> fs.faults > old(fs.faults)
      ensures busy ==> FreesOpen(fs.Stored(), od, on, nd, nn, opens)
      ensures guarded && !busy ==> !FreesOpen(fs.Stored(), od, on, nd, nn, opens)
    {
      hide Image, View, TreeInv, Alive, Counted;
      CountedFacts(opens, files, |fs.Stored()|);
      if FreesOpen(fs.Stored(), od, on, nd, nn, opens) { FreesNeeds(fs.Stored(), od, on, nd, nn, opens); }
      guarded, busy := true, false;
      var rcs, src := LookupName(fs, od, on);
      if rcs != OK { guarded := Lookup(fs.Stored(), od, on).Fail?; return; }
      var rcd, dst := LookupName(fs, nd, nn);
      if rcd != OK { guarded := Lookup(fs.Stored(), nd, nn).Fail?; return; }
      if dst == src { return; }
      LinkedLive(fs.Stored(), nd, nn, dst);
      var rcn, st := NodeGet(fs, dst);
      if rcn != OK { guarded := false; return; }
      busy := (st.dir || st.nlink == 1) && opens[dst] > 0;
    }
  }

  lemma SomeHolder(t: Fs, opens: seq<nat>, files: map<nat, Desc>, id: nat) returns (h: nat)
    requires Counted(opens, files, |t|) && Alive(t, files) && id < |t| && opens[id] > 0
    ensures h in files && files[h].node == id && files[h].dir == t[id].Dir?
  {
    assert HeldBy(files, id) != {};
    h :| h in HeldBy(files, id);
    assert OnNode(t, files[h]);
  }

  lemma CountedFacts(opens: seq<nat>, files: map<nat, Desc>, n: nat)
    requires Counted(opens, files, n)
    ensures |opens| == n
  {}

  lemma Unlinked(t: Fs, dir: nat, name: Name, id: nat, opens: seq<nat>, files: map<nat, Desc>)
    requires TreeInv(t) && Counted(opens, files, |t|) && Alive(t, files) && Unlink(t, dir, name).Ok?
    requires Lookup(t, dir, name) == Ok(id) && id < |t| && (Nlink(t[id]) == 1 ==> opens[id] == 0)
    ensures var t' := Unlink(t, dir, name).v; TreeInv(t') && |t'| == |t| && Alive(t', files)
  {
    hide TreeInv, Unlink, Alive;
    StepKeepsTree(t, OUnlink(dir, name));
    forall x: nat | x < |t| && !t[x].Free? && opens[x] > 0 ensures SameKind(t[x], Unlink(t, dir, name).v[x]) {
      UnlinkKinds(t, dir, name, x);
    }
    StayAlive(t, Unlink(t, dir, name).v, opens, files);
  }

  lemma LinkedLive(t: Fs, d: nat, nm: Name, x: nat)
    requires TreeInv(t) && Lookup(t, d, nm) == Ok(x)
    ensures 0 < x < |t| && !t[x].Free?
  {
    assert IsLink(t, d, nm, x);
  }

  lemma FreesNeeds(t: Fs, od: nat, on: Name, nd: nat, nn: Name, opens: seq<nat>)
    requires TreeInv(t) && FreesOpen(t, od, on, nd, nn, opens)
    ensures Lookup(t, od, on).Ok? && Lookup(t, nd, nn).Ok?
  {
    var dst: nat :| Replaces(t, od, on, nd, nn, dst) && dst < |opens| && opens[dst] > 0;
    assert IsLink(t, od, on, t[od].entries[on]);
    assert IsLink(t, nd, nn, dst);
  }

  ghost predicate FreesOpen(t: Fs, od: nat, on: Name, nd: nat, nn: Name, opens: seq<nat>) {
    exists dst: nat :: Replaces(t, od, on, nd, nn, dst) && dst < |opens| && opens[dst] > 0
  }

  // A rename keeps the descriptions alive exactly when it frees no open node.
  lemma Renamed(t: Fs, od: nat, on: Name, nd: nat, nn: Name, opens: seq<nat>, files: map<nat, Desc>)
    requires TreeInv(t) && Counted(opens, files, |t|) && Alive(t, files) && Rename(t, od, on, nd, nn).Ok?
    ensures var t' := Rename(t, od, on, nd, nn).v;
      TreeInv(t') && |t'| == |t| && (Alive(t', files) <==> !FreesOpen(t, od, on, nd, nn, opens))
  {
    hide TreeInv, Rename, Replaces;
    var t' := Rename(t, od, on, nd, nn).v;
    StepKeepsTree(t, ORename(od, on, nd, nn));
    if FreesOpen(t, od, on, nd, nn, opens) {
      var dst: nat :| Replaces(t, od, on, nd, nn, dst) && dst < |opens| && opens[dst] > 0;
      RenameKinds(t, od, on, nd, nn, dst);
      var h := SomeHolder(t, opens, files, dst);
      assert !OnNode(t', files[h]);
    } else {
      forall x: nat | x < |t| && !t[x].Free? && opens[x] > 0 ensures SameKind(t[x], t'[x]) {
        RenameKinds(t, od, on, nd, nn, x);
      }
      StayAlive(t, t', opens, files);
    }
  }

  // The rename by itself keeps every description alive exactly when it hits no open node; with the guard it never
  // loses one.
  lemma GuardNeeded(t: Fs, opens: seq<nat>, files: map<nat, Desc>, op: string, np: string)
    requires TreeInv(t) && Counted(opens, files, |t|) && Alive(t, files) && IsPath(op) && IsPath(np)
    ensures PlainRename(t, op, np).Changed? ==>
      (Alive(PlainRename(t, op, np).t, files) <==> !HitsOpen(t, opens, op, np))
    ensures RenameAnswer(t, opens, op, np).Changed? ==> Alive(RenameAnswer(t, opens, op, np).t, files)
  {
    hide TreeInv, Counted, Alive, Namespace.Rename, InDir, LastName, FreesOpen;
    if PlainRename(t, op, np).Changed? {
      Renamed(t, InDir(t, op).v, LastName(op), InDir(t, np).v, LastName(np), opens, files);
    }
  }

  // Two files, "b" held open by one description.
  const TWO_FILES: Fs := [Free, Dir(map["a" := 2, "b" := 3], ROOT, 0, 0), File([], 1, 0), File([], 1, 0)]
  const B_OPEN: map<nat, Desc> := map[7 := Desc(3, false, 1)]

  lemma TwoFiles()
    ensures TreeInv(TWO_FILES) && Alive(TWO_FILES, B_OPEN) && Counted([0, 0, 0, 1], B_OPEN, 4)
  {
    var t0 := Fresh(4, 0);
    FreshIsTree(4, 0);
    var t1 := AddEntry(t0[2 := NewNode(KFile, 0, ROOT)], ROOT, "a", 2);
    CreateKeepsTree(t0, t1, ROOT, "a", KFile, 0, 2);
    var t := AddEntry(t1[3 := NewNode(KFile, 0, ROOT)], ROOT, "b", 3);
    CreateKeepsTree(t1, t, ROOT, "b", KFile, 0, 3);
    assert t == TWO_FILES;
    assert HeldBy(B_OPEN, 3) == {7} && HeldBy(B_OPEN, 0) == HeldBy(B_OPEN, 1) == HeldBy(B_OPEN, 2) == {};
  }

  // With the guard's reads failing, the open file "b" is replaced and its node freed; the guard would have said busy.
  lemma UnguardedRenameFreesOpen()
    ensures TreeInv(TWO_FILES) && Alive(TWO_FILES, B_OPEN) && Counted([0, 0, 0, 1], B_OPEN, |TWO_FILES|)
    ensures PlainRename(TWO_FILES, "/a", "/b").Changed? && !Alive(PlainRename(TWO_FILES, "/a", "/b").t, B_OPEN)
    ensures RenameAnswer(TWO_FILES, [0, 0, 0, 1], "/a", "/b") == Refuse(Busy)
  {
    hide TreeInv, Counted, Alive;
    var t := TWO_FILES;
    TwoFiles();
    assert WordsFrom("/", 1) == [] && Components("/") == [];
    assert LastSlash("/a") == 0 == LastSlash("/b");
    assert LastName("/a") == "a" && LastName("/b") == "b" && InDir(t, "/a") == Ok(ROOT) == InDir(t, "/b");
    assert IsLink(t, ROOT, "b", 3) && Replaces(t, ROOT, "a", ROOT, "b", 3);
    assert FreesOpen(t, ROOT, "a", ROOT, "b", [0, 0, 0, 1]);
    assert Namespace.Rename(t, ROOT, "a", ROOT, "b").Ok?;
    GuardNeeded(t, [0, 0, 0, 1], B_OPEN, "/a", "/b");
  }

  lemma DirIs(t: Fs, p: string)
    requires IsPath(p)
    ensures InDir(t, p) == Resolve(t, DirPath(p))
  {}

  lemma TargetName(t: Fs, p: string)
    requires IsPath(p) && Target(t, p).Ok?
    ensures InDir(t, p).Ok? && Target(t, p) == Lookup(t, InDir(t, p).v, LastName(p))
  {}

  // A failed search changes nothing, and one that finds the path does not either.
  lemma FailedFind(t: Fs, p: string, fl: Flags, mode: nat)
    requires IsPath(p) && |t| >= 2
    ensures Find(t, p, fl, mode).rc != Done ==> Find(t, p, fl, mode).t == t
  {}

  lemma FoundSame(t: Fs, p: string, fl: Flags, mode: nat)
    requires IsPath(p) && |t| >= 2
    ensures Resolve(t, p).Ok? ==> Find(t, p, fl, mode).t == t
  {}

  // Blocks that removing a name, or moving one, may take.
  ghost function NameSpace(t: Fs, p: string): int
    requires IsPath(p)
  {
    if InDir(t, p).Ok? then UnlinkSpace(t, InDir(t, p).v) + 1 else 0
  }

  ghost function TwoNameSpace(t: Fs, op: string, np: string): int
    requires IsPath(op) && IsPath(np)
  {
    if InDir(t, op).Ok? && InDir(t, np).Ok? then DirSpace(t, InDir(t, op).v, InDir(t, np).v) + 1 else 0
  }

  lemma CreatedAt(t: Fs, canon: string, dir: nat, name: Name, kind: Kind, mode: nat, opens: seq<nat>,
                  files: map<nat, Desc>)
    requires TreeInv(t) && Counted(opens, files, |t|) && Alive(t, files)
    requires IsPath(canon) && InDir(t, canon) == Ok(dir) && name == LastName(canon)
    requires |t| >= 2 && Create(t, dir, name, kind, mode).Ok?
    ensures var c := Create(t, dir, name, kind, mode).v;
      && TreeInv(c.fs) && |c.fs| == |t| && Alive(c.fs, files) && Resolve(c.fs, canon) == Ok(c.id) && c.id < |t|
      && Resolve(t, canon) == Fail(ENOENT) && c.fs[c.id] == NewNode(kind, mode, dir)
  {
    hide TreeInv, Alive;
    var parent := DirPath(canon);
    SplitComponents(canon);
    StepKeepsTree(t, OCreate(dir, name, kind, mode));
    CreateThenResolve(t, parent, name, kind, mode);
    var c := Create(t, dir, name, kind, mode).v;
    OneWord(name);
    SlashSplits(parent, name, 0);
    DescendAppend(t, ROOT, Components(parent), name);
    forall x: nat | x < |t| && !t[x].Free? && opens[x] > 0 ensures SameKind(t[x], c.fs[x]) {
      CreateKinds(t, dir, name, kind, mode, x);
    }
    StayAlive(t, c.fs, opens, files);
  }

  lemma Linked(t: Fs, dir: nat, name: Name, id: nat, opens: seq<nat>, files: map<nat, Desc>)
    requires TreeInv(t) && Counted(opens, files, |t|) && Alive(t, files) && id < |t| && t[id].File?
      && LinkAt(t, dir, name, id).Ok?
    ensures var t' := LinkAt(t, dir, name, id).v; TreeInv(t') && |t'| == |t| && Alive(t', files)
  {
    hide Alive;
    StepKeepsTree(t, OLink(dir, name, id));
    forall x: nat | x < |t| && !t[x].Free? && opens[x] > 0 ensures SameKind(t[x], LinkAt(t, dir, name, id).v[x]) {
      LinkKinds(t, dir, name, id, x);
    }
    StayAlive(t, LinkAt(t, dir, name, id).v, opens, files);
  }

  lemma TruncateKeepsOpens(t: Fs, canon: string, id: nat, opens: seq<nat>, files: map<nat, Desc>)
    requires TreeInv(t) && Counted(opens, files, |t|) && Alive(t, files) && TruncateTo(t, id, 0).Ok?
      && Resolve(t, canon) == Ok(id)
    ensures var t' := TruncateTo(t, id, 0).v;
      && TreeInv(t') && |t'| == |t| && Alive(t', files) && Resolve(t', canon) == Ok(id)
      && id < |t'| && t'[id].File? && t'[id].content == []
  {
    hide Alive, TreeInv;
    var t' := TruncateTo(t, id, 0).v;
    StepKeepsTree(t, OTruncate(id, 0));
    StayAlive(t, t', opens, files);
    DescendKept(t, t', ROOT, Components(canon));
  }

  // One more description of a node in use.
  lemma Opened(t: Fs, opens: seq<nat>, files: map<nat, Desc>, h: nat, id: nat)
    requires Counted(opens, files, |t|) && Alive(t, files) && h !in files && 0 < id < |t| && !t[id].Free?
    ensures Counted(opens[id := opens[id] + 1], files[h := Desc(id, t[id].Dir?, 1)], |t|)
      && Alive(t, files[h := Desc(id, t[id].Dir?, 1)])
    ensures id < |opens|
  {
    var files' := files[h := Desc(id, t[id].Dir?, 1)];
    forall x: nat | x < |t| ensures opens[id := opens[id] + 1][x] == |HeldBy(files', x)| {
      HeldByAdd(files, h, Desc(id, t[id].Dir?, 1), x);
    }
    forall g | g in files' ensures OnNode(t, files'[g]) {
      assert g != h ==> OnNode(t, files[g]);
    }
  }
}
