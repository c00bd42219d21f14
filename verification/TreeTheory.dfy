// What the namespace tree gives its users: depth, subtrees, path resolution and whole runs.
module TreeTheory {
  import opened GfsTypes
  import opened Namespace
  import opened Counting

  // ---- depth -------------------------------------------------------------------------------------

  lemma {:induction false} LeastDepth(fs: Fs, x: nat, k: nat) returns (m: nat)
    requires Anc(fs, x, k) == ROOT
    ensures m <= k && Anc(fs, x, m) == ROOT && forall j: nat :: j < m ==> Anc(fs, x, j) != ROOT
    decreases k
  {
    if j: nat :| j < k && Anc(fs, x, j) == ROOT {
      m := LeastDepth(fs, x, j);
    } else {
      m := k;
    }
  }

  // Up to the root, a chain never meets the same node twice.
  lemma ChainDistinct(fs: Fs, x: nat, m: nat, i: nat, j: nat)
    requires Anc(fs, x, m) == ROOT && (forall k: nat :: k < m ==> Anc(fs, x, k) != ROOT) && i < j <= m
    ensures Anc(fs, x, i) != Anc(fs, x, j)
  {
    AncAdd(fs, x, i, m - j);
    AncAdd(fs, x, j, m - j);
  }

  ghost function ChainNodes(fs: Fs, x: nat, n: nat): set<nat> {
    if n == 0 then {} else ChainNodes(fs, x, n - 1) + {Anc(fs, x, n - 1)}
  }

  lemma {:induction false} ChainMember(fs: Fs, x: nat, n: nat, y: nat)
    ensures y in ChainNodes(fs, x, n) <==> exists j: nat :: j < n && Anc(fs, x, j) == y
    decreases n
  {
    if n > 0 {
      ChainMember(fs, x, n - 1, y);
      if y in ChainNodes(fs, x, n) {
        if y != Anc(fs, x, n - 1) {
          var j: nat :| j < n - 1 && Anc(fs, x, j) == y;
          assert j < n && Anc(fs, x, j) == y;
        } else {
          var j: nat := n - 1;
          assert j < n && Anc(fs, x, j) == y;
        }
      }
    }
  }

  lemma {:induction false} CountChain(fs: Fs, x: nat, m: nat, n: nat)
    requires n <= m + 1 && Anc(fs, x, m) == ROOT && (forall k: nat :: k < m ==> Anc(fs, x, k) != ROOT)
    ensures |ChainNodes(fs, x, n)| == n
    decreases n
  {
    if n > 0 {
      CountChain(fs, x, m, n - 1);
      ChainMember(fs, x, n - 1, Anc(fs, x, n - 1));
      forall j: nat | j < n - 1 ensures Anc(fs, x, j) != Anc(fs, x, n - 1) { ChainDistinct(fs, x, m, j, n - 1); }
    }
  }

  lemma BoundedSet(s: set<nat>, n: nat)
    requires forall x :: x in s ==> 0 < x < n
    ensures s != {} ==> |s| < n
    ensures |s| <= n
  {
    if s != {} { Bounded(s + {0}, n); }
  }

  // Every directory reaches the root in fewer steps than there are nodes: the guard of
  // gfs_rename's ancestor walk never fires.
  lemma DepthBound(fs: Fs, x: nat) returns (m: nat)
    requires TreeInv(fs) && x < |fs| && fs[x].Dir?
    ensures m < |fs| && Anc(fs, x, m) == ROOT && forall j: nat :: j < m ==> Anc(fs, x, j) != ROOT
    ensures forall j: nat :: j <= m ==> 0 < Anc(fs, x, j) < |fs| && fs[Anc(fs, x, j)].Dir?
  {
    assert Rooted(fs, x);
    var k: nat :| Anc(fs, x, k) == ROOT;
    m := LeastDepth(fs, x, k);
    forall j: nat | j <= m ensures 0 < Anc(fs, x, j) < |fs| && fs[Anc(fs, x, j)].Dir? {
      RootChainIsDirs(fs, x, m, j);
    }
    CountChain(fs, x, m, m + 1);
    var met := ChainNodes(fs, x, m + 1);
    forall y | y in met ensures 0 < y < |fs| { ChainMember(fs, x, m + 1, y); }
    BoundedSet(met, |fs|);
  }

  // ---- subtrees --------------------------------------------------------------------------------------

  // Follow names downwards.
  function Descend(fs: Fs, x: nat, path: seq<Name>): Res<nat>
    decreases |path|
  {
    if path == [] then Ok(x)
    else
      var l := Lookup(fs, x, path[0]);
      if l.Fail? then l else Descend(fs, l.v, path[1..])
  }

  // The stored parent fields and the names agree on what lies below a directory.
  lemma UnderIsDescend(fs: Fs, x: nat, top: nat)
    requires TreeInv(fs) && 0 < top < |fs| && 0 < x < |fs| && fs[x].Dir? && fs[top].Dir?
    ensures Under(fs, x, top) <==> exists path: seq<Name> :: Descend(fs, top, path) == Ok(x)
  {
    if Under(fs, x, top) {
      var k: nat :| Anc(fs, x, k) == top;
      var path := PathDown(fs, x, top, k);
    }
    if path: seq<Name> :| Descend(fs, top, path) == Ok(x) {
      DescendIsUnder(fs, top, path, x);
    }
  }

  lemma {:induction false} DescendAppend(fs: Fs, x: nat, path: seq<Name>, nm: Name)
    requires Descend(fs, x, path).Ok?
    ensures Descend(fs, x, path + [nm]) == Lookup(fs, Descend(fs, x, path).v, nm)
    decreases |path|
  {
    if path == [] {
      var l := Lookup(fs, x, nm);
      assert ([] + [nm])[1..] == [];
    } else {
      assert (path + [nm])[1..] == path[1..] + [nm];
      DescendAppend(fs, Lookup(fs, x, path[0]).v, path[1..], nm);
    }
  }

  lemma {:induction false} PathDown(fs: Fs, x: nat, top: nat, k: nat) returns (path: seq<Name>)
    requires TreeInv(fs) && 0 < top < |fs| && fs[top].Dir? && 0 < x < |fs| && fs[x].Dir? && Anc(fs, x, k) == top
    ensures Descend(fs, top, path) == Ok(x)
    decreases k
  {
    if k == 0 {
      path := [];
    } else if x == ROOT {
      AncStuck(fs, ROOT, k);
      path := [];
    } else {
      assert HasOneName(fs, x);
      var p := fs[x].parent;
      var nm :| Links(fs, x) == {Link(p, nm)};
      LinksMember(fs, p, nm, x);
      assert IsLink(fs, p, nm, x);
      var up := PathDown(fs, p, top, k - 1);
      path := up + [nm];
      DescendAppend(fs, top, up, nm);
    }
  }

  lemma {:induction false} DescendIsUnder(fs: Fs, top: nat, path: seq<Name>, x: nat)
    requires TreeInv(fs) && 0 < top < |fs| && fs[top].Dir? && x < |fs| && fs[x].Dir? && Descend(fs, top, path) == Ok(x)
    ensures Under(fs, x, top)
    decreases |path|
  {
    if path == [] {
      assert Anc(fs, x, 0) == top;
    } else {
      var y := Lookup(fs, top, path[0]).v;
      assert IsLink(fs, top, path[0], y);
      if path[1..] != [] { assert Lookup(fs, y, path[1..][0]).Ok?; }
      DescendIsUnder(fs, y, path[1..], x);
      var k: nat :| Anc(fs, x, k) == y;
      ParentIsLink(fs, top, path[0], y);
      AncAdd(fs, x, k, 1);
      assert Anc(fs, x, k + 1) == top;
    }
  }

  // Renaming a directory into another directory is refused with EINVAL, once both directories
  // and the source exist, exactly when the new directory lies in the source's subtree.
  lemma RenameIntoSelf(fs: Fs, od: nat, on: Name, nd: nat, nn: Name)
    requires TreeInv(fs) && NameCheck(on) == OK && NameCheck(nn) == OK
    requires DirCheck(fs, od) == OK && DirCheck(fs, nd) == OK && od != nd && on in fs[od].entries
    requires 0 < fs[od].entries[on] < |fs| && fs[fs[od].entries[on]].Dir?
    ensures Rename(fs, od, on, nd, nn) == Fail(EINVAL) <==> exists path: seq<Name> ::
      Descend(fs, fs[od].entries[on], path) == Ok(nd)
  {
    UnderIsDescend(fs, nd, fs[od].entries[on]);
  }
}
