// Whole runs of namespace and file operations, and the laws that tie operations together.
module NamespaceRuns {
  import opened GfsTypes
  import opened Namespace
  import opened TreeTheory
  import opened Paths

  // ---- file operations leave the tree alone -----------------------------------------------------------

  lemma ContentKeepsTree(fs: Fs, id: nat, c: seq<byte>)
    requires TreeInv(fs) && id < |fs| && fs[id].File?
    ensures TreeInv(fs[id := fs[id].(content := c)])
  {
    var fs' := fs[id := fs[id].(content := c)];
    forall t: nat ensures Links(fs', t) == Links(fs, t) { LinksSame(fs, fs', t); }
    forall d: nat, nm: Name, t: nat | IsLink(fs', d, nm, t) ensures IsLink(fs, d, nm, t) {}
    forall t: nat | t < |fs'| && fs'[t].Dir? ensures Rooted(fs', t) {
      assert Rooted(fs, t);
      var k: nat :| Anc(fs, t, k) == ROOT;
      AncSame(fs, fs', t, k);
    }
    forall t: nat | t < |fs'| && fs'[t].Dir? && t != ROOT ensures HasOneName(fs', t) {
      assert HasOneName(fs, t);
    }
  }

  // ---- runs ---------------------------------------------------------------------------------------------

  datatype Op =
    | OCreate(dir: nat, name: Name, kind: Kind, mode: nat)
    | OLink(dir: nat, name: Name, target: nat)
    | OUnlink(dir: nat, name: Name)
    | ORename(od: nat, on: Name, nd: nat, nn: Name)
    | OWrite(id: nat, off: nat, data: seq<byte>)
    | OTruncate(id: nat, size: nat)

  // What the call does to the tree, or why it refuses.
  ghost function Outcome(fs: Fs, op: Op): Res<Fs>
    requires TreeInv(fs)
  {
    match op
    case OCreate(dir, name, kind, mode) =>
      var r := Create(fs, dir, name, kind, mode);
      if r.Ok? then Ok(r.v.fs) else Fail(r.e)
    case OLink(dir, name, t) => LinkAt(fs, dir, name, t)
    case OUnlink(dir, name) => Unlink(fs, dir, name)
    case ORename(od, on, nd, nn) => Rename(fs, od, on, nd, nn)
    case OWrite(id, off, data) => WriteAt(fs, id, off, data)
    case OTruncate(id, size) => TruncateTo(fs, id, size)
  }

  // Every operation of the filesystem keeps the tree, but for a link to the root.
  lemma StepKeepsTree(fs: Fs, op: Op)
    requires TreeInv(fs) && Outcome(fs, op).Ok?
    ensures TreeInv(Outcome(fs, op).v) <==> !(op.OLink? && op.target == ROOT)
    ensures |Outcome(fs, op).v| == |fs|
  {
    hide TreeInv;
    TreeFacts(fs);
    var fs' := Outcome(fs, op).v;
    match op
    case OCreate(dir, name, kind, mode) =>
      CreateKeepsTree(fs, fs', dir, name, kind, mode, FirstFree(fs, 1));
    case OLink(dir, name, t) => LinkKeepsTreeIff(fs, dir, name, t);
    case OUnlink(dir, name) =>
      assert IsLink(fs, dir, name, fs[dir].entries[name]);
      UnlinkKeepsTree(fs, dir, name, fs[dir].entries[name]);
    case ORename(od, on, nd, nn) =>
      RenameKeepsTree(fs, od, on, nd, nn);
      RenameSize(fs, od, on, nd, nn);
    case OWrite(id, off, data) => if data != [] { ContentKeepsTree(fs, id, WriteBytes(fs[id].content, off, data)); }
    case OTruncate(id, size) => ContentKeepsTree(fs, id, Resize(fs[id].content, size));
  }

  lemma RenameSize(fs: Fs, od: nat, on: Name, nd: nat, nn: Name)
    requires TreeInv(fs) && Rename(fs, od, on, nd, nn).Ok?
    ensures |Rename(fs, od, on, nd, nn).v| == |fs|
  {
    var src := fs[od].entries[on];
    assert IsLink(fs, od, on, src);
    if nn in fs[nd].entries { assert IsLink(fs, nd, nn, fs[nd].entries[nn]); }
  }

  lemma TreeFacts(fs: Fs)
    requires TreeInv(fs)
    ensures |fs| >= 2
  {}

  // A call either takes effect or, refused, changes nothing.  No call links the root.
  ghost predicate Called(fs: Fs, op: Op, fs': Fs) {
    && !(op.OLink? && op.target == ROOT)
    && (fs' == fs || (TreeInv(fs) && Outcome(fs, op) == Ok(fs')))
  }

  ghost predicate Run(trace: seq<Fs>, ops: seq<Op>) {
    && |trace| == |ops| + 1
    && forall i {:trigger ops[i]} :: 0 <= i < |ops| ==> Called(trace[i], ops[i], trace[i + 1])
  }

  // In every state reachable from mkfs the namespace is a tree.
  lemma {:induction false} RunsKeepTree(n: nat, mode: nat, trace: seq<Fs>, ops: seq<Op>)
    requires n >= 2 && Run(trace, ops) && trace[0] == Fresh(n, mode)
    ensures forall i :: 0 <= i < |trace| ==> TreeInv(trace[i]) && |trace[i]| == n
    decreases |ops|
  {
    hide TreeInv, Called;
    FreshIsTree(n, mode);
    if ops != [] {
      var m := |ops| - 1;
      var t, o := trace[..m + 1], ops[..m];
      assert forall i {:trigger o[i]} :: 0 <= i < m ==> o[i] == ops[i] && t[i] == trace[i] && t[i + 1] == trace[i + 1];
      RunsKeepTree(n, mode, t, o);
      assert t[m] == trace[m] && Called(trace[m], ops[m], trace[m + 1]);
      CalledKeepsTree(trace[m], ops[m], trace[m + 1]);
      assert forall i :: 0 <= i <= m ==> trace[i] == t[i];
    }
  }

  lemma CalledKeepsTree(fs: Fs, op: Op, fs': Fs)
    requires TreeInv(fs) && Called(fs, op, fs')
    ensures TreeInv(fs') && |fs'| == |fs|
  {
    hide TreeInv;
    if fs' != fs { StepKeepsTree(fs, op); }
  }

  // ---- laws -----------------------------------------------------------------------------------------------

  // Unlinking what was just created gives the old tree back.
  lemma CreateThenUnlink(fs: Fs, dir: nat, name: Name, kind: Kind, mode: nat)
    requires TreeInv(fs) && Create(fs, dir, name, kind, mode).Ok?
    ensures var fs' := Create(fs, dir, name, kind, mode).v.fs; TreeInv(fs') && Unlink(fs', dir, name) == Ok(fs)
  {
    var c := Create(fs, dir, name, kind, mode).v;
    CreateKeepsTree(fs, c.fs, dir, name, kind, mode, c.id);
    assert c.fs[dir].entries - {name} == fs[dir].entries;
    assert DropEntry(c.fs, dir, name) == fs[c.id := NewNode(kind, mode, dir)];
    assert IsLink(c.fs, dir, name, c.id);
    assert fs[c.id := NewNode(kind, mode, dir)][c.id := Free] == fs;
  }

  // What create reports is what a lookup and a path walk find.
  lemma CreateThenResolve(fs: Fs, path: string, name: Name, kind: Kind, mode: nat)
    requires TreeInv(fs) && Resolve(fs, path).Ok? && Create(fs, Resolve(fs, path).v, name, kind, mode).Ok?
    ensures var c := Create(fs, Resolve(fs, path).v, name, kind, mode).v; Resolve(c.fs, path + "/" + name) == Ok(c.id)
  {
    var dir := Resolve(fs, path).v;
    var c := Create(fs, dir, name, kind, mode).v;
    CreateKeepsTree(fs, c.fs, dir, name, kind, mode, c.id);
    DescendKept(fs, c.fs, ROOT, Components(path));
    SlashSplits(path, name, 0);
    OneWord(name);
    DescendAppend(c.fs, ROOT, Components(path), name);
  }

  // Paths survive any change that keeps every old entry.
  lemma {:induction false} DescendKept(fs: Fs, fs': Fs, x: nat, ws: seq<Name>)
    requires |fs'| == |fs| && Descend(fs, x, ws).Ok?
    requires forall d: nat, nm: Name, t: nat :: IsLink(fs, d, nm, t) ==> fs'[d].Dir? && IsLink(fs', d, nm, t)
    ensures Descend(fs', x, ws) == Descend(fs, x, ws)
    decreases |ws|
  {
    if ws != [] {
      var l := Lookup(fs, x, ws[0]);
      assert IsLink(fs, x, ws[0], l.v);
      DescendKept(fs, fs', l.v, ws[1..]);
    }
  }

  // Renaming back undoes a rename that replaced nothing.
  lemma RenameThenBack(fs: Fs, od: nat, on: Name, nd: nat, nn: Name)
    requires TreeInv(fs) && Rename(fs, od, on, nd, nn).Ok? && nn !in fs[nd].entries
    ensures TreeInv(Rename(fs, od, on, nd, nn).v) && Rename(Rename(fs, od, on, nd, nn).v, nd, nn, od, on) == Ok(fs)
  {
    hide TreeInv;
    var fs' := Rename(fs, od, on, nd, nn).v;
    RenameKeepsTree(fs, od, on, nd, nn);
    var src := fs[od].entries[on];
    RenameBackFacts(fs, fs', od, on, nd, nn, src);
    var back := Move(fs', nd, nn, od, on, src);
    assert back == fs by { MoveThenBack(fs, od, on, nd, nn, src); }
  }

  lemma MoveThenBack(fs: Fs, od: nat, on: Name, nd: nat, nn: Name, src: nat)
    requires TreeInv(fs) && IsLink(fs, od, on, src) && nd < |fs| && fs[nd].Dir? && nn !in fs[nd].entries && src < |fs|
    requires src != od && src != nd
    ensures Move(Move(fs, od, on, nd, nn, src), nd, nn, od, on, src) == fs
  {
    var fs' := Move(fs, od, on, nd, nn, src);
    var back := Move(fs', nd, nn, od, on, src);
    if fs[src].Dir? { ParentIsLink(fs, od, on, src); }
    if od == nd {
      assert (fs[od].entries - {on})[nn := src] - {nn} == fs[od].entries - {on};
      assert back[od].entries == fs[od].entries;
    } else {
      assert fs[nd].entries[nn := src] - {nn} == fs[nd].entries;
      assert (fs[od].entries - {on})[on := src] == fs[od].entries;
    }
  }

  lemma RenameBackFacts(fs: Fs, fs': Fs, od: nat, on: Name, nd: nat, nn: Name, src: nat)
    requires TreeInv(fs) && Rename(fs, od, on, nd, nn) == Ok(fs') && nn !in fs[nd].entries && src == fs[od].entries[on]
    requires TreeInv(fs')
    ensures src != od && src != nd && src < |fs|
    ensures nn in fs'[nd].entries && fs'[nd].entries[nn] == src && on !in fs'[od].entries
    ensures fs'[src].Dir? && od != nd ==> !Under(fs', od, src)
  {
    assert IsLink(fs, od, on, src);
    NoSelfLink(fs, od, on, src);
    if src == nd { assert Anc(fs, nd, 0) == src; }
    if fs'[src].Dir? && od != nd {
      ParentNotBelow(fs, od, on, src);
      forall k: nat ensures Anc(fs', od, k) != src {
        if Anc(fs', od, k) == src { UpFromOld(fs, fs', src, od, k); }
      }
    }
  }

  // A directory never lies below its own child.
  lemma ParentNotBelow(fs: Fs, d: nat, nm: Name, t: nat)
    requires TreeInv(fs) && IsLink(fs, d, nm, t) && t < |fs| && fs[t].Dir?
    ensures !Under(fs, d, t)
  {
    ParentIsLink(fs, d, nm, t);
    assert Rooted(fs, t);
    var r: nat :| Anc(fs, t, r) == ROOT;
    var m := LeastDepth(fs, t, r);
    forall k: nat ensures Anc(fs, d, k) != t {
      assert Anc(fs, t, k + 1) == Anc(fs, d, k);
      if k + 1 <= m {
        ChainDistinct(fs, t, m, 0, k + 1);
      } else {
        AncAdd(fs, t, m, k + 1 - m);
        AncStuck(fs, ROOT, k + 1 - m);
      }
    }
  }

  // Above a directory that is not below src, moving src changes nothing.
  lemma {:induction false} UpFromOld(fs: Fs, fs': Fs, src: nat, x: nat, k: nat)
    requires forall y: nat :: y != src ==> ParentOf(fs', y) == ParentOf(fs, y)
    requires Anc(fs', x, k) == src
    ensures Under(fs, x, src)
    decreases k
  {
    if x == src {
      assert Anc(fs, x, 0) == src;
    } else if k > 0 {
      UpFromOld(fs, fs', src, ParentOf(fs, x), k - 1);
      var j: nat :| Anc(fs, ParentOf(fs, x), j) == src;
      assert Anc(fs, x, j + 1) == src;
    }
  }

  // ---- file contents over any mix of writes and truncations ---------------------------------------------

  datatype FileOp = Put(off: nat, data: seq<byte>) | Cut(size: nat)

  function After(c: seq<byte>, op: FileOp): seq<byte> {
    match op
    case Put(off, data) => if data == [] then c else WriteBytes(c, off, data)
    case Cut(size) => Resize(c, size)
  }

  function AfterAll(ops: seq<FileOp>): seq<byte> {
    if ops == [] then [] else After(AfterAll(ops[..|ops| - 1]), ops[|ops| - 1])
  }

  // The byte at i by the history alone: the last write that covered it, unless a later cut
  // took it away; zero when there is none.
  function LastByte(ops: seq<FileOp>, i: nat): byte {
    if ops == [] then 0
    else
      var op, rest := ops[|ops| - 1], ops[..|ops| - 1];
      match op
      case Put(off, data) => if off <= i < off + |data| then data[i - off] else LastByte(rest, i)
      case Cut(size) => if size <= i then 0 else LastByte(rest, i)
  }

  function ByteOrZero(c: seq<byte>, i: nat): byte { if i < |c| then c[i] else 0 }

  lemma AfterByte(c: seq<byte>, op: FileOp, i: nat)
    ensures ByteOrZero(After(c, op), i) ==
      match op
      case Put(off, data) => if off <= i < off + |data| then data[i - off] else ByteOrZero(c, i)
      case Cut(size) => if size <= i then 0 else ByteOrZero(c, i)
  {}

  // Holes and regrown ranges read as zero; everything else is the last byte written.
  lemma {:induction false} ContentIsHistory(ops: seq<FileOp>, i: nat)
    ensures LastByte(ops, i) == ByteOrZero(AfterAll(ops), i)
  {
    if ops != [] {
      ContentIsHistory(ops[..|ops| - 1], i);
      AfterByte(AfterAll(ops[..|ops| - 1]), ops[|ops| - 1], i);
    }
  }
}
