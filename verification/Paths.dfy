// Absolute paths: the components a walk takes, and the laws that pin them down.
module Paths {
  import opened GfsTypes
  import opened Namespace
  import opened TreeTheory

  // Position of the first slash at or after i, or the end.
  function WordEnd(p: string, i: nat): (n: nat)
    requires i <= |p|
    ensures i <= n <= |p| && (n < |p| ==> p[n] == '/') && forall j :: i <= j < n ==> p[j] != '/'
    decreases |p| - i
  {
    if i == |p| || p[i] == '/' then i else WordEnd(p, i + 1)
  }

  lemma {:induction false} WordEndIs(p: string, i: nat, n: nat)
    requires i <= n <= |p| && (n < |p| ==> p[n] == '/') && forall j :: i <= j < n ==> p[j] != '/'
    ensures WordEnd(p, i) == n
    decreases n - i
  {
    if i < n { WordEndIs(p, i + 1, n); }
  }

  // The maximal slash-free runs from position i on, in order.
  function WordsFrom(p: string, i: nat): seq<Name>
    requires i <= |p|
    decreases |p| - i
  {
    if i == |p| then []
    else if p[i] == '/' then WordsFrom(p, i + 1)
    else [p[i..WordEnd(p, i)]] + WordsFrom(p, WordEnd(p, i))
  }

  function Components(p: string): seq<Name> { WordsFrom(p, 0) }

  predicate IsWord(w: Name) { w != [] && '/' !in w }

  lemma {:induction false} ComponentsAreWords(p: string, i: nat)
    requires i <= |p|
    ensures forall w :: w in WordsFrom(p, i) ==> IsWord(w)
    decreases |p| - i
  {
    if i < |p| {
      if p[i] == '/' { ComponentsAreWords(p, i + 1); } else { ComponentsAreWords(p, WordEnd(p, i)); }
    }
  }

  lemma WordEndShift(a: string, b: string, i: nat)
    requires i <= |b|
    ensures WordEnd(a + b, |a| + i) == |a| + WordEnd(b, i)
      && (a + b)[|a| + i..|a| + WordEnd(b, i)] == b[i..WordEnd(b, i)]
  {
    hide WordEnd;
    var p, n := a + b, WordEnd(b, i);
    forall j | |a| + i <= j < |a| + n ensures p[j] != '/' { assert p[j] == b[j - |a|]; }
    assert n < |b| ==> p[|a| + n] == b[n];
    WordEndIs(p, |a| + i, |a| + n);
  }

  // Only the text from i on matters.
  lemma {:induction false} WordsShift(a: string, b: string, i: nat)
    requires i <= |b|
    ensures WordsFrom(a + b, |a| + i) == WordsFrom(b, i)
    decreases |b| - i
  {
    if i < |b| {
      assert (a + b)[|a| + i] == b[i];
      if b[i] == '/' {
        WordsShift(a, b, i + 1);
      } else {
        WordEndShift(a, b, i);
        WordsShift(a, b, WordEnd(b, i));
      }
    }
  }

  lemma SameWord(a: string, c: string, i: nat, n: nat)
    requires i < |a| && a[i] != '/' && n == WordEnd(a, i) && c != "" && c[0] == '/'
    ensures i < n <= |a| && WordEnd(a + c, i) == n && (a + c)[i..n] == a[i..n]
  {
    var p := a + c;
    assert n < |a| ==> p[n] == a[n];
    assert n == |a| ==> p[n] == '/';
    assert forall j :: i <= j < n ==> p[j] == a[j];
    WordEndIs(p, i, n);
  }

  // A slash separates, whatever is on either side: runs of slashes and trailing slashes are harmless.
  lemma {:induction false} SlashSplits(a: string, b: string, i: nat)
    requires i <= |a|
    ensures WordsFrom(a + "/" + b, i) == WordsFrom(a, i) + Components(b)
    decreases |a| - i
  {
    var p := a + "/" + b;
    if i == |a| {
      assert p[i] == '/';
      assert p == (a + "/") + b;
      WordsShift(a + "/", b, 0);
    } else {
      assert p[i] == a[i];
      if a[i] == '/' {
        SlashSplits(a, b, i + 1);
      } else {
        var n := WordEnd(a, i);
        SameWord(a, "/" + b, i, n);
        assert p == a + ("/" + b);
        SlashSplits(a, b, n);
      }
    }
  }

  function Join(ws: seq<Name>): string {
    if ws == [] then "" else "/" + ws[0] + Join(ws[1..])
  }

  lemma OneWord(w: Name)
    requires IsWord(w)
    ensures Components(w) == [w]
  {
    WordEndIs(w, 0, |w|);
    assert w[0..|w|] == w && w[0] != '/';
    assert WordsFrom(w, |w|) == [];
  }

  lemma AfterWord(w: Name, rest: string)
    requires IsWord(w) && (rest == "" || rest[0] == '/')
    ensures Components("/" + w + rest) == [w] + Components(rest)
  {
    SlashSplits("", w + rest, 0);
    assert "" + "/" + (w + rest) == "/" + w + rest;
    OneWord(w);
    if rest == "" {
      assert w + rest == w;
    } else {
      var tail := rest[1..];
      assert rest == "" + "/" + tail;
      assert w + rest == w + "/" + tail;
      SlashSplits(w, tail, 0);
      SlashSplits("", tail, 0);
    }
  }

  // Writing a path out and splitting it again gives the same components.
  lemma {:induction false} JoinRoundTrip(ws: seq<Name>)
    requires forall w :: w in ws ==> IsWord(w)
    ensures Components(Join(ws)) == ws
  {
    if ws != [] {
      JoinRoundTrip(ws[1..]);
      AfterWord(ws[0], Join(ws[1..]));
    }
  }

  // gfs_resolve: follow the components down from the root.
  function Resolve(fs: Fs, path: string): Res<nat> {
    if path == "" || path[0] != '/' then Fail(EINVAL) else Descend(fs, ROOT, Components(path))
  }

  lemma {:induction false} DescendThrough(fs: Fs, x: nat, a: seq<Name>, b: seq<Name>)
    requires Descend(fs, x, a).Ok?
    ensures Descend(fs, x, a + b) == Descend(fs, Descend(fs, x, a).v, b)
    decreases |a|
  {
    if a == [] {
      assert a + b == b;
    } else {
      assert (a + b)[1..] == a[1..] + b;
      DescendThrough(fs, Lookup(fs, x, a[0]).v, a[1..], b);
    }
  }

  lemma {:induction false} DescendFails(fs: Fs, x: nat, a: seq<Name>, b: seq<Name>)
    requires Descend(fs, x, a).Fail?
    ensures Descend(fs, x, a + b) == Descend(fs, x, a)
    decreases |a|
  {
    assert (a + b)[0] == a[0] && (a + b)[1..] == a[1..] + b;
    if Lookup(fs, x, a[0]).Ok? { DescendFails(fs, Lookup(fs, x, a[0]).v, a[1..], b); }
  }

  // Resolving a longer path goes on from where the shorter one arrived.
  lemma ResolveJoins(fs: Fs, a: string, b: string)
    requires Resolve(fs, a).Ok?
    ensures Resolve(fs, a + "/" + b) == Descend(fs, Resolve(fs, a).v, Components(b))
  {
    SlashSplits(a, b, 0);
    DescendThrough(fs, ROOT, Components(a), Components(b));
  }

  lemma WaysDown(fs: Fs, x: nat) returns (ws: seq<Name>)
    requires TreeInv(fs) && 0 < x < |fs| && !fs[x].Free?
    ensures Descend(fs, ROOT, ws) == Ok(x)
    decreases if fs[x].Dir? then 0 else 1
  {
    if fs[x].Dir? {
      assert Rooted(fs, x);
      var k: nat :| Anc(fs, x, k) == ROOT;
      ws := PathDown(fs, x, ROOT, k);
    } else {
      assert |Links(fs, x)| > 0;
      var l :| l in Links(fs, x);
      assert IsLink(fs, l.d, l.nm, x);
      var up := WaysDown(fs, l.d);
      DescendAppend(fs, ROOT, up, l.nm);
      ws := up + [l.nm];
    }
  }

  // Every node in use has a path, and resolving that path finds it.
  lemma NodeHasPath(fs: Fs, x: nat) returns (path: string)
    requires TreeInv(fs) && 0 < x < |fs| && !fs[x].Free?
    ensures Resolve(fs, path) == Ok(x)
  {
    var ws := WaysDown(fs, x);
    DescendNames(fs, ROOT, ws);
    JoinRoundTrip(ws);
    path := if ws == [] then "/" else Join(ws);
    if ws == [] { assert Components("/") == []; }
  }

  lemma {:induction false} DescendNames(fs: Fs, x: nat, ws: seq<Name>)
    requires Descend(fs, x, ws).Ok?
    ensures forall w :: w in ws ==> IsWord(w)
    decreases |ws|
  {
    if ws != [] { DescendNames(fs, Lookup(fs, x, ws[0]).v, ws[1..]); }
  }
}
