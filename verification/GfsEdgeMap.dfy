// A list of uniquely named edges is a finite map from name to node.
module GfsEdgeMap {
  import opened GfsTypes
  import opened GfsDisk

  lemma {:induction false} EntryMapFirst(es: seq<Edge>, i: nat)
    requires i < |es| && forall j :: 0 <= j < i ==> es[j].name != es[i].name
    ensures es[i].name in EntryMap(es) && EntryMap(es)[es[i].name] == es[i].target
  {
    if i > 0 { EntryMapFirst(es[1..], i - 1); }
  }

  lemma {:induction false} EntryMapAbsent(es: seq<Edge>, name: Name)
    requires forall j :: 0 <= j < |es| ==> es[j].name != name
    ensures name !in EntryMap(es)
  {
    if es != [] { EntryMapAbsent(es[1..], name); }
  }

  lemma {:induction false} EntryMapSize(es: seq<Edge>)
    requires NamesUnique(es)
    ensures |EntryMap(es)| == |es|
  {
    if es != [] {
      var rest := EntryMap(es[1..]);
      EntryMapSize(es[1..]);
      EntryMapAbsent(es[1..], es[0].name);
      assert EntryMap(es).Keys == rest.Keys + {es[0].name};
      assert |EntryMap(es)| == |EntryMap(es).Keys| && |rest| == |rest.Keys|;
    }
  }

  ghost predicate Maps(m: map<Name, nat>, nm: Name, t: nat) { nm in m && m[nm] == t }

  lemma MapExt(m: map<Name, nat>, m': map<Name, nat>)
    requires forall nm: Name, t: nat :: Maps(m, nm, t) <==> Maps(m', nm, t)
    ensures m == m'
  {
    forall nm: Name ensures nm in m <==> nm in m' {
      if nm in m { assert Maps(m, nm, m[nm]); }
      if nm in m' { assert Maps(m', nm, m'[nm]); }
    }
    forall nm: Name | nm in m ensures m[nm] == m'[nm] { assert Maps(m, nm, m[nm]); }
  }

  // With unique names the map is exactly the set of edges.
  lemma EntryMapMember(es: seq<Edge>, nm: Name, t: nat)
    requires NamesUnique(es)
    ensures Maps(EntryMap(es), nm, t) <==> Edge(nm, t) in es
  {
    if i: nat :| i < |es| && es[i].name == nm {
      EntryMapFirst(es, i);
      if Edge(nm, t) in es {
        var j: nat :| j < |es| && es[j] == Edge(nm, t);
        assert j == i;
      }
    } else {
      EntryMapAbsent(es, nm);
    }
  }

  lemma {:induction false} NoDupCount(es: seq<Edge>, e: Edge)
    requires NamesUnique(es)
    ensures multiset(es)[e] <= 1
  {
    if es != [] {
      assert es == [es[0]] + es[1..];
      NoDupCount(es[1..], e);
      if es[0] == e { assert e !in es[1..]; }
    }
  }

  lemma TwiceCounted(es: seq<Edge>, i: nat, j: nat)
    requires i < j < |es| && es[i] == es[j]
    ensures multiset(es)[es[i]] >= 2
  {
    assert es == es[..j] + [es[j]] + es[j + 1..];
    assert es[i] in es[..j];
  }

  // Names are unique exactly when no edge repeats and no two edges share a name.
  ghost predicate UniqueBag(m: multiset<Edge>) {
    && (forall e :: m[e] <= 1)
    && (forall a, b :: a in m && b in m && a.name == b.name ==> a == b)
  }

  lemma UniqueIsBag(es: seq<Edge>)
    ensures NamesUnique(es) <==> UniqueBag(multiset(es))
  {
    if NamesUnique(es) {
      forall e ensures multiset(es)[e] <= 1 { NoDupCount(es, e); }
    }
    if UniqueBag(multiset(es)) {
      forall i, j | 0 <= i < j < |es| ensures es[i].name != es[j].name {
        if es[i].name == es[j].name {
          assert es[i] in multiset(es) && es[j] in multiset(es);
          TwiceCounted(es, i, j);
        }
      }
    }
  }

  // Adding an edge with a new name, wherever it lands in the list, adds one binding.
  lemma EntryMapAdd(es: seq<Edge>, es': seq<Edge>, e: Edge)
    requires NamesUnique(es) && e.name !in EntryMap(es)
    requires multiset(es') == multiset(es) + multiset{e}
    ensures NamesUnique(es') && EntryMap(es') == EntryMap(es)[e.name := e.target] && |es'| == |es| + 1
  {
    assert |multiset(es')| == |es'|;
    UniqueAdd(es, es', e);
    var m := EntryMap(es)[e.name := e.target];
    forall nm: Name, t: nat ensures Maps(EntryMap(es'), nm, t) <==> Maps(m, nm, t) {
      EntryMapMember(es, nm, t);
      EntryMapMember(es', nm, t);
      BagMember(es, es', e, Edge(nm, t));
      if nm == e.name { assert Maps(EntryMap(es), nm, t) ==> nm in EntryMap(es); }
    }
    MapExt(EntryMap(es'), m);
  }

  lemma BagMember(es: seq<Edge>, es': seq<Edge>, e: Edge, x: Edge)
    requires multiset(es') == multiset(es) + multiset{e}
    ensures x in es' <==> x in es || x == e
  {
    assert x in es' <==> x in multiset(es');
    assert x in es <==> x in multiset(es);
  }

  lemma UniqueAdd(es: seq<Edge>, es': seq<Edge>, e: Edge)
    requires NamesUnique(es) && e.name !in EntryMap(es)
    requires multiset(es') == multiset(es) + multiset{e}
    ensures NamesUnique(es')
  {
    UniqueIsBag(es);
    UniqueIsBag(es');
    forall x | x in es ensures x.name != e.name {
      EntryMapMember(es, x.name, x.target);
    }
    assert forall x :: x in es <==> x in multiset(es);
  }

  // Removing an edge from a uniquely named list removes its binding and no other.
  lemma EntryMapRemove(es: seq<Edge>, es': seq<Edge>, e: Edge)
    requires NamesUnique(es)
    requires multiset(es) == multiset(es') + multiset{e}
    ensures NamesUnique(es') && EntryMap(es') == EntryMap(es) - {e.name} && |es'| == |es| - 1
  {
    assert |multiset(es)| == |es|;
    assert |multiset(es')| == |es'|;
    UniqueRemove(es, es', e);
    var m := EntryMap(es) - {e.name};
    forall nm: Name, t: nat ensures Maps(EntryMap(es'), nm, t) <==> Maps(m, nm, t) {
      EntryMapMember(es, nm, t);
      EntryMapMember(es', nm, t);
      BagMember(es', es, e, Edge(nm, t));
    }
    MapExt(EntryMap(es'), m);
  }

  lemma UniqueRemove(es: seq<Edge>, es': seq<Edge>, e: Edge)
    requires NamesUnique(es)
    requires multiset(es) == multiset(es') + multiset{e}
    ensures NamesUnique(es') && forall x :: x in es' ==> x.name != e.name
  {
    UniqueIsBag(es);
    UniqueIsBag(es');
    forall x | x in es' ensures x.name != e.name {
      assert x in multiset(es') && x in multiset(es) && e in multiset(es);
      assert multiset(es)[e] <= 1;
    }
  }
}
