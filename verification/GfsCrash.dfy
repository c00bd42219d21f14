// Crash atomicity: what a remount finds after power fails between, or in the middle of, any two
// block writes of a call.
module GfsCrash {
  import opened GfsTypes
  import opened Namespace
  import opened GfsDisk
  import opened GfsFrame
  import opened GfsCore

  // The block writes of one call, started on disk `base` with image L, ended with image L'.
  ghost predicate Atomic(crc: Crc, base: Disk, log: seq<Write>, L: Live, L': Live) {
    || (L' == L && Traced(crc, base, log, L))
    || Published(crc, base, log, L, L')
  }

  lemma TracedPrefix(crc: Crc, base: Disk, log: seq<Write>, L: Live, k: nat)
    requires Traced(crc, base, log, L) && k <= |log|
    ensures Traced(crc, base, log[..k], L)
  {
    hide Image, Harmless;
  }

  lemma Recovers(crc: Crc, disk: Disk, L: Live)
    requires Image(crc, disk, L)
    ensures RecoversTo(crc, disk, View(L.g, disk, L.T))
  {
    hide Image, View;
  }

  lemma CrashBeforePublish(crc: Crc, base: Disk, log: seq<Write>, L: Live, k: nat, torn: Block)
    requires Traced(crc, base, log, L) && k <= |log|
    ensures RecoversTo(crc, Replay(base, log[..k]), View(L.g, base, L.T))
    ensures Image(crc, Replay(base, log[..k]), L) && View(L.g, Replay(base, log[..k]), L.T) == View(L.g, base, L.T)
    ensures k < |log| ==> 2 <= log[k].lba < |base|
    ensures k < |log| ==> RecoversTo(crc, Replay(base, log[..k])[log[k].lba := torn], View(L.g, base, L.T))
  {
    hide Image, Harmless, View, RecoversTo, Replay;
    var d := Replay(base, log[..k]);
    TracedPrefix(crc, base, log, L, k);
    TracedImage(crc, base, log[..k], L);
    Recovers(crc, d, L);
    if k < |log| {
      HarmlessSlot(L, log[k].lba);
      ImageFrame(crc, d, L, log[k].lba, torn);
      Recovers(crc, d[log[k].lba := torn], L);
    }
  }

  // Power fails after any proper prefix of the writes: a remount finds the filesystem from
  // before the call.  The same holds when the next write tears, leaving anything at all in its
  // block, except that a torn superblock must fail its own checksum.
  lemma CrashFindsBefore(crc: Crc, base: Disk, log: seq<Write>, L: Live, L': Live, k: nat, torn: Block)
    requires Atomic(crc, base, log, L, L') && k < |log|
    ensures RecoversTo(crc, Replay(base, log[..k]), View(L.g, base, L.T))
    ensures log[k].lba < |base|
    ensures log[k].lba >= 2 || !SbValid(crc, torn) ==>
      RecoversTo(crc, Replay(base, log[..k])[log[k].lba := torn], View(L.g, base, L.T))
  {
    hide Image, Harmless, View, Prepared, SbBlock, RecoversTo, Replay, Traced, SbValid;
    if L' == L && Traced(crc, base, log, L) {
      CrashBeforePublish(crc, base, log, L, k, torn);
    } else {
      var pre := log[..|log| - 1];
      assert pre[..k] == log[..k];
      CrashBeforePublish(crc, base, pre, L, k, torn);
      if k == |pre| {
        assert log[..k] == pre;
        TornAtPublish(crc, Replay(base, pre), L, L', torn);
      }
    }
  }

  // The publishing write itself tears.
  lemma TornAtPublish(crc: Crc, d: Disk, L: Live, L': Live, torn: Block)
    requires Image(crc, d, L) && Prepared(crc, d, L, L')
    ensures L'.gen % 2 < |d| && L'.gen % 2 < 2
    ensures !SbValid(crc, torn) ==> RecoversTo(crc, d[L'.gen % 2 := torn], View(L.g, d, L.T))
  {
    hide Image, Harmless, View, Prepared, SbBlock, RecoversTo, SbValid;
    PreparedFacts(crc, d, L, L');
    if !SbValid(crc, torn) {
      TornPublish(crc, d, L, torn);
      Recovers(crc, d[1 - L.gen % 2 := torn], L);
    }
  }

  lemma HarmlessSlot(L: Live, lba: nat)
    requires Harmless(L, lba)
    ensures lba >= 2
  {}

  // Once all writes have landed, a remount finds the filesystem the call left behind.
  lemma NoCrashFindsAfter(crc: Crc, base: Disk, log: seq<Write>, L: Live, L': Live)
    requires Atomic(crc, base, log, L, L')
    ensures Image(crc, Replay(base, log), L')
    ensures RecoversTo(crc, Replay(base, log), View(L'.g, Replay(base, log), L'.T))
  {
    hide Image, Harmless, View, Prepared, SbBlock;
    if L' == L && Traced(crc, base, log, L) {
      TracedImage(crc, base, log, L);
    } else {
      PublishImage(crc, Replay(base, log[..|log| - 1]), L, L');
      PreparedFacts(crc, Replay(base, log[..|log| - 1]), L, L');
    }
  }

  // ---- a disk holds at most one filesystem ----------------------------------------------------

  lemma SameSuperblock(crc: Crc, disk: Disk, L: Live, M: Live)
    requires SlotsOk(crc, disk, L) && SlotsOk(crc, disk, M)
    ensures SbBlock(crc, L) == SbBlock(crc, M)
  {}

  lemma {:induction false} ChainUnique(crc: Crc, disk: Disk, head: Bp, c: seq<nat>, d: seq<nat>)
    requires ChainOk(crc, disk, head, c) && ChainOk(crc, disk, head, d)
    ensures c == d
    decreases |c|
  {
    if c != [] { assert EdgeBlockOk(crc, disk, c, |c| - 1); }
    if d != [] { assert EdgeBlockOk(crc, disk, d, |d| - 1); }
    if c != [] && d != [] {
      ChainTail(crc, disk, head, c);
      ChainTail(crc, disk, head, d);
      ChainUnique(crc, disk, disk[head.phys].next, c[..|c| - 1], d[..|d| - 1]);
    }
  }

  lemma SameTree(crc: Crc, disk: Disk, g: Geo, mp: seq<Bp>, T: Tree, S: Tree)
    requires g.Ok() && TreeOk(g, crc, disk, mp, T, {}) && TreeOk(g, crc, disk, mp, S, {})
    ensures T.nodes == S.nodes && T.chains == S.chains
  {
    forall id: nat | id < MAX_NODES ensures T.nodes[id] == S.nodes[id] && T.chains[id] == S.chains[id] {
      assert RecOk(disk, mp, T, {}, id) && RecOk(disk, mp, S, {}, id);
      assert NodeOk(g, crc, disk, T, id) && NodeOk(g, crc, disk, S, id);
      if T.nodes[id].typ == TNamespace {
        ChainUnique(crc, disk, T.nodes[id].edgeHead, T.chains[id], S.chains[id]);
      }
    }
  }

  // The filesystem is a function of the disk, so "a remount finds it" is unambiguous.
  lemma RecoveryIsUnique(crc: Crc, disk: Disk, a: Fs, b: Fs)
    requires RecoversTo(crc, disk, a) && RecoversTo(crc, disk, b)
    ensures a == b
  {
    var L :| Image(crc, disk, L) && View(L.g, disk, L.T) == a;
    var M :| Image(crc, disk, M) && View(M.g, disk, M.T) == b;
    SameSuperblock(crc, disk, L, M);
    assert L.g == M.g && L.nodemap == M.nodemap && L.mp == M.mp;
    SameTree(crc, disk, L.g, L.mp, L.T, M.T);
  }
}
