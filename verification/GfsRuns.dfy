// Whole runs on disk: make a filesystem, mount it, make any calls, and check it.
module GfsRuns {
  import opened GfsTypes
  import opened Namespace
  import opened NamespaceRuns
  import opened GfsDisk
  import opened GfsCore
  import opened GfsCrash
  import opened GfsOps
  import opened GfsRename
  import opened GfsWrite
  import opened GfsTruncate
  import opened GfsFsck
  import opened GfsMount

  // One call: the disk, the image and the tree it started from, its block writes, its answer and the tree it left.
  datatype Moment = Moment(disk: Disk, live: Live, log: seq<Write>, before: Fs, after: Fs, rc: Err)

  // What does not change while a filesystem is mounted.
  datatype Mounted = Mounted(crc: Crc, sound: bool, writable: bool)

  // Free blocks that are always enough for a call.
  ghost function Space(t: Fs, op: Op): int {
    match op
    case OCreate(_, _, _, _) => 4
    case OLink(_, _, _) => 4
    case OUnlink(dir, _) => UnlinkSpace(t, dir) + 1
    case ORename(od, _, nd, _) => DirSpace(t, od, nd) + 1
    case OWrite(_, off, data) => Needed(off, data) + 2
    case OTruncate(_, _) => 3
  }

  // The call would leave a file with more than eight extents.
  ghost predicate Fragments(L: Live, op: Op) {
    match op
    case OWrite(id, off, data) => WriteSplits(L, id, off, data)
    case OTruncate(id, size) => CutSplits(L, id, size)
    case _ => false
  }

  // A call does what the plain operation says.  When it changes nothing, the plain operation refuses it with the same
  // code, or the device failed, the mount is read-only, blocks were short or the file would have too many extents.
  ghost predicate Explained(e: Mounted, op: Op, m: Moment) {
    TreeInv(m.before) && Image(e.crc, m.disk, m.live) && m.before == View(m.live.g, m.disk, m.live.T) &&
    if m.rc == OK then NamespaceRuns.Outcome(m.before, op) == Ok(m.after) && !Fragments(m.live, op)
    else
      && m.after == m.before
      && (|| NamespaceRuns.Outcome(m.before, op) == Fail(m.rc)
          || (m.rc == EIO && !e.sound)
          || (m.rc == EROFS && !e.writable)
          || (m.rc == ENOSPC && m.live.freeBlocks < Space(m.before, op))
          || (m.rc == EFRAG && Fragments(m.live, op)))
  }

  // Power may fail after any number of the call's writes: the next mount finds the tree from before the call, or from
  // after it once all writes have landed.
  ghost predicate CrashSafe(crc: Crc, m: Moment) {
    forall k: nat :: k <= |m.log| ==>
      RecoversTo(crc, Replay(m.disk, m.log[..k]), if k < |m.log| then m.before else m.after)
  }

  lemma AtomicIsSafe(crc: Crc, base: Disk, log: seq<Write>, L: Live, L': Live, m: Moment)
    requires Atomic(crc, base, log, L, L') && m.disk == base && m.log == log
    requires m.before == View(L.g, base, L.T) && m.after == View(L'.g, Replay(base, log), L'.T)
    ensures CrashSafe(crc, m)
  {
    hide View, Atomic, RecoversTo, Replay;
    forall k: nat | k <= |log|
      ensures RecoversTo(crc, Replay(base, log[..k]), if k < |log| then View(L.g, base, L.T)
        else View(L'.g, Replay(base, log), L'.T))
    {
      if k < |log| {
        CrashFindsBefore(crc, base, log, L, L', k, Junk);
      } else {
        assert log[..k] == log;
        NoCrashFindsAfter(crc, base, log, L, L');
      }
    }
  }

  // Every call but a link to the root.
  predicate Allowed(op: Op) { !(op.OLink? && op.target == ROOT) }

  lemma SameGeo(fs: Gfs)
    requires fs.Valid()
    ensures fs.live.g == fs.g && fs.live.freeBlocks == fs.freeBlocks && Image(fs.crc, fs.disk, fs.live)
  {}

  ghost function MountOf(fs: Gfs): Mounted
    reads fs
  {
    Mounted(fs.crc, fs.sound, fs.writable)
  }

  // Any call, on any mounted filesystem whose namespace is a tree.
  method Perform(fs: Gfs, op: Op) returns (rc: Err, ghost m: Moment)
    requires fs.Valid() && TreeInv(fs.Stored()) && Allowed(op)
    modifies fs
    ensures fs.Valid() && TreeInv(fs.Stored())
    ensures m == Moment(old(fs.disk), old(fs.live), fs.log, old(fs.Stored()), fs.Stored(), rc)
    ensures fs.disk == Replay(m.disk, m.log) && Explained(MountOf(fs), op, m) && CrashSafe(fs.crc, m)
  {
    hide Gfs.Valid, Image, View, Atomic, Replay, TreeInv, CrashSafe, Create, LinkAt, Unlink, Rename, WriteAt,
      TruncateTo, UnlinkSpace, DirSpace, Needed, WriteSplits, CutSplits;
    SameGeo(fs);
    match op {
      case OCreate(dir, name, kind, mode) => var id; rc, id := CreateAt(fs, dir, name, kind, mode);
      case OLink(dir, name, t) => rc := LinkName(fs, dir, name, t);
      case OUnlink(dir, name) => rc := UnlinkName(fs, dir, name);
      case ORename(od, on, nd, nn) => rc := RenameName(fs, od, on, nd, nn);
      case OWrite(id, off, data) => rc := WriteFile(fs, id, off, data);
      case OTruncate(id, size) => rc := TruncateFile(fs, id, size);
    }
    m := Moment(old(fs.disk), old(fs.live), fs.log, old(fs.Stored()), fs.Stored(), rc);
    SameGeo(fs);
    AtomicIsSafe(fs.crc, old(fs.disk), fs.log, old(fs.live), fs.live, m);
    CalledKeepsTree(m.before, op, m.after);
  }

  // Call i of a run starts where the one before it stopped.
  ghost predicate Linked(e: Mounted, ms: seq<Moment>, ops: seq<Op>, i: nat)
    requires i < |ms| && i < |ops|
  {
    && Explained(e, ops[i], ms[i]) && CrashSafe(e.crc, ms[i])
    && (i > 0 ==> ms[i].before == ms[i - 1].after && ms[i].disk == Replay(ms[i - 1].disk, ms[i - 1].log))
  }

  // A run from one tree to another.
  ghost predicate Chained(e: Mounted, ms: seq<Moment>, ops: seq<Op>, disk: Disk, first: Fs, last: Fs) {
    && |ms| == |ops|
    && (if ms == [] then first == last else ms[0].disk == disk && ms[0].before == first && ms[|ms| - 1].after == last)
    && (forall i {:trigger Linked(e, ms, ops, i)} :: 0 <= i < |ms| ==> Linked(e, ms, ops, i))
  }

  ghost function DiskAfter(disk: Disk, ms: seq<Moment>): Disk {
    if ms == [] then disk else Replay(ms[|ms| - 1].disk, ms[|ms| - 1].log)
  }

  lemma ChainedNext(e: Mounted, ms: seq<Moment>, ops: seq<Op>, disk: Disk, first: Fs, last: Fs, m: Moment, op: Op)
    requires Chained(e, ms, ops, disk, first, last) && m.before == last && m.disk == DiskAfter(disk, ms)
    requires Explained(e, op, m) && CrashSafe(e.crc, m)
    ensures Chained(e, ms + [m], ops + [op], disk, first, m.after)
      && DiskAfter(disk, ms + [m]) == Replay(m.disk, m.log)
  {
    hide Explained, CrashSafe, Replay;
    forall i | 0 <= i <= |ms| ensures Linked(e, ms + [m], ops + [op], i) {
      if i < |ms| { assert Linked(e, ms, ops, i); }
    }
  }

  lemma NewShown(crc: Crc, disk: Disk, g: Geo)
    requires Image(crc, disk, NewLive(crc, g, 1))
    ensures var L := NewLive(crc, g, 1); L.g == g && L.gen == 1 && View(g, disk, L.T) == Fresh(g.nodeCount, 0)
  {
    hide View, TreeOk, BitmapAt, UsedOk, SlotsOk, NewTree;
    NewView(g, disk, g.DataFirst(), 0);
  }

  // mkfs and mount: the empty tree, on a consistent image.
  method MakeAndMount(sound: bool, crc: Crc, disk0: Disk, total: nat, nodeCount: nat)
    returns (ok: bool, fs: Gfs?)
    requires total <= |disk0|
    ensures sound ==> (ok <==> total >= UsedPrefix(total))
    ensures ok ==> total >= UsedPrefix(total) && fs != null && fresh(fs)
    ensures ok ==> fs.crc == crc && fs.sound == sound && fs.writable
    ensures ok ==> fs.Valid() && fs.Stored() == Fresh(Clamp(nodeCount), 0)
  {
    hide Gfs.Valid, Image, View, RecoversTo, Newest, SbSane, UsedPrefix, EmptyLive;
    ok, fs := false, null;
    ghost var bad;
    var rc, disk;
    rc, disk, bad := Mkfs(sound, crc, disk0, total, nodeCount);
    if rc != OK { return false, fs; }
    ghost var sb, seen;
    rc, fs, sb, seen, bad := Mount(sound, crc, disk, true, true);
    NewShown(crc, disk, NewGeo(total, nodeCount));
    SlotCount(crc, disk, NewLive(crc, NewGeo(total, nodeCount), 1));
    ok := rc == OK && fs.generation == 1;
  }

  // Any list of calls, each succeeding or failing.
  method RunAll(fs: Gfs, ops: seq<Op>) returns (ghost ms: seq<Moment>)
    requires fs.Valid() && TreeInv(fs.Stored()) && forall i :: 0 <= i < |ops| ==> Allowed(ops[i])
    modifies fs
    ensures fs.Valid() && TreeInv(fs.Stored()) && fs.disk == DiskAfter(old(fs.disk), ms)
    ensures Chained(MountOf(fs), ms, ops, old(fs.disk), old(fs.Stored()), fs.Stored())
  {
    hide Gfs.Valid, Image, View, Chained, TreeInv, Replay, DiskAfter, Explained, CrashSafe;
    ms := [];
    NoneChained(MountOf(fs), fs.disk, fs.Stored());
    assert ops[..0] == [];
    var i := 0;
    while i < |ops|
      invariant i <= |ops| && fs.Valid() && TreeInv(fs.Stored()) && fs.disk == DiskAfter(old(fs.disk), ms)
      invariant Chained(MountOf(fs), ms, ops[..i], old(fs.disk), old(fs.Stored()), fs.Stored())
    {
      ghost var m;
      var rc;
      rc, m := Perform(fs, ops[i]);
      ChainedNext(MountOf(fs), ms, ops[..i], old(fs.disk), old(fs.Stored()), m.before, m, ops[i]);
      assert ops[..i + 1] == ops[..i] + [ops[i]];
      ms, i := ms + [m], i + 1;
    }
    assert ops[..i] == ops;
  }

  lemma NoneChained(e: Mounted, disk: Disk, t: Fs)
    ensures Chained(e, [], [], disk, t, t) && DiskAfter(disk, []) == disk
  {}

  // From mkfs through any list of calls: the image stays consistent and the namespace a tree, a crash in the middle of
  // any call is recovered from, and fsck finds nothing to report.  With a device that never fails, all of it takes
  // place.
  method MakeAndRun(sound: bool, crc: Crc, disk0: Disk, total: nat, nodeCount: nat, ops: seq<Op>)
    returns (ran: bool, rc: Err, errors: nat, fs: Gfs?, ghost ms: seq<Moment>, ghost made: Disk)
    requires total <= |disk0| && forall i :: 0 <= i < |ops| ==> Allowed(ops[i])
    ensures sound ==> (ran <==> total >= UsedPrefix(total)) && (ran ==> rc == OK)
    ensures ran ==>
      && fs != null && fs.Valid() && TreeInv(fs.Stored()) && fs.disk == DiskAfter(made, ms)
      && Chained(Mounted(crc, sound, true), ms, ops, made, Fresh(Clamp(nodeCount), 0), fs.Stored())
    ensures ran ==> (rc == OK <==> errors == 0)
  {
    hide Gfs.Valid, Image, View, Chained, TreeInv, Replay, DiskAfter, UsedPrefix, Fresh, Consistent;
    rc, errors, ms, made := EIO, 0, [], disk0;
    ran, fs := MakeAndMount(sound, crc, disk0, total, nodeCount);
    if !ran { return; }
    FreshIsTree(Clamp(nodeCount), 0);
    made := fs.disk;
    ms := RunAll(fs, ops);
    TreeIffConsistent(fs.Stored());
    rc, errors := Fsck(fs);
  }
}
