/**
  The static route builder: a string-keyed map of mutable sets, filled one
  endpoint at a time and turned into a sorted listing.
*/
module StaticRoute {
  import opened GoStrings
  import opened Ordering
  import opened EndpointTrie
  import opened Listing

  /** A set of strings whose elements come out in no particular order. */
  class UnorderedSet {
    var elems: set<string>

    constructor ()
      ensures elems == {}
    {
      elems := {};
    }

    method Insert(v: string)
      modifies this
      ensures elems == old(elems) + {v}
    {
      elems := elems + {v};
    }

    /** The arguments of the successive callbacks: every element once, in an order of the set's choosing. */
    method Range() returns (calls: seq<string>)
      ensures NoDuplicates(calls)
      ensures forall v :: v in calls <==> v in elems
    {
      calls := [];
      var pending := elems;
      while pending != {}
        invariant pending <= elems
        invariant NoDuplicates(calls)
        invariant forall v :: v in calls <==> v in elems && v !in pending
        decreases pending
      {
        var k :| k in pending;
        calls, pending := calls + [k], pending - {k};
      }
    }
  }

  lemma AddEndpoint(E: set<Components>, endpoint: string)
    requires AllWellFormed(E)
    ensures WellFormed(ComponentsOf(endpoint))
    ensures AllWellFormed(E + {ComponentsOf(endpoint)})
    ensures Graft(TrieOf(E), ComponentsOf(endpoint), 1) == TrieOf(E + {ComponentsOf(endpoint)})
  {
    ComponentsWellFormed(endpoint);
    GraftIsTrie(E, ComponentsOf(endpoint));
  }

  class Builder {
    var b: map<string, UnorderedSet>

    // the component lists of the endpoints added so far
    ghost var added: set<Components>

    /** The map as a value. */
    ghost function Contents(): map<string, set<string>>
      reads this, b.Values
    {
      map p | p in b :: b[p].elems
    }

    /** No two keys share a set. */
    ghost predicate Unshared()
      reads this
    {
      forall p, p' :: p in b && p' in b && p != p' ==> b[p] != b[p']
    }

    ghost predicate Valid()
      reads this, b.Values
    {
      Unshared() && AllWellFormed(added) && Contents() == TrieOf(added)
    }

    constructor ()
      ensures Valid() && added == {} && b == map[]
    {
      b := map[];
      added := {};
      new;
      assert Keys({}) == {};
    }

    /** Create the set of p on first use. */
    method EnsureKey(p: string)
      requires Unshared()
      modifies this`b
      ensures Unshared() && p in b
      ensures Contents() == old(Contents())[p := if p in old(Contents()) then old(Contents())[p] else {}]
      ensures fresh(b.Values - old(b.Values))
    {
      if p !in b {
        var children := new UnorderedSet();
        b := b[p := children];
      }
    }

    /** Insert c into the set of p; no other key sees it, since sets are not shared. */
    method InsertAt(p: string, c: string)
      requires Unshared() && p in b
      modifies b[p]
      ensures Unshared()
      ensures Contents() == old(Contents())[p := old(Contents())[p] + {c}]
    {
      ghost var before := Contents();
      b[p].Insert(c);
      forall p' | p' in b && p' != p ensures Contents()[p'] == before[p'] {
        assert b[p'] != b[p];
      }
    }

    method Record(p: string, c: string)
      requires Unshared()
      modifies this`b, b.Values
      ensures Unshared()
      ensures Contents() == Touch(old(Contents()), p, c)
      ensures fresh(b.Values - old(b.Values))
    {
      EnsureKey(p);
      InsertAt(p, c);
    }

    /** The body of the descending loop: record the level i component under its parent path. */
    method RecordLevel(split: Components, i: nat, ghost before: map<string, set<string>>)
      requires Unshared() && 1 <= i < |split|
      requires Contents() == Graft(before, split, i + 1)
      modifies this`b, b.Values
      ensures Unshared()
      ensures Contents() == Graft(before, split, i)
      ensures fresh(b.Values - old(b.Values))
    {
      var concat := Join(split[..i], SLASH);
      Record(concat, split[i]);
    }

    method FromEndpoint(endpoint: string)
      requires Valid()
      modifies this, b.Values
      ensures Valid()
      ensures added == old(added) + {ComponentsOf(endpoint)}
      ensures fresh(b.Values - old(b.Values))
    {
      var absolute := endpoint;
      if !HasPrefix(absolute, "/") {
        absolute := "/" + absolute;
      }
      var split := Split(absolute, SLASH);
      ghost var before := Contents();
      var i := |split| - 1;
      while i > 0
        invariant 0 <= i < |split|
        invariant Unshared() && added == old(added)
        invariant fresh(b.Values - old(b.Values))
        invariant Contents() == Graft(before, split, i + 1)
      {
        RecordLevel(split, i, before);
        i := i - 1;
      }
      AddEndpoint(added, endpoint);
      added := added + {split};
    }

    method Build() returns (routes: seq<Route>)
      requires Valid()
      ensures routes == ListingOf(added)
    {
      ghost var m := TrieOf(added);
      assert b.Keys == Contents().Keys == m.Keys;
      var unsorted: seq<Route> := [];
      var pending := b.Keys;
      while pending != {}
        invariant pending <= b.Keys
        invariant NoDuplicates(Endpoints(unsorted))
        invariant forall p :: p in Endpoints(unsorted) <==> p in m && p !in pending
        invariant forall r :: r in unsorted ==> ListsChildren(m, r)
        decreases pending
      {
        var parent :| parent in pending;
        var children := BuildChildren(parent);
        ghost var es := Endpoints(unsorted);
        unsorted, pending := unsorted + [Route(parent, children)], pending - {parent};
        assert Endpoints(unsorted) == es + [parent];
      }
      routes := SortRoutes(unsorted);
      ListingOfUnique(added, routes);
    }

    /** The marked and sorted children of one route. */
    method BuildChildren(parent: string) returns (children: seq<string>)
      requires Valid() && parent in b
      ensures ListsChildren(TrieOf(added), Route(parent, children))
    {
      ghost var m := TrieOf(added);
      assert m[parent] == Contents()[parent] == b[parent].elems;
      var calls := b[parent].Range();
      var names: seq<string> := [];
      for n := 0 to |calls|
        invariant |names| == n
        invariant forall k :: 0 <= k < n ==> names[k] == Mark(m, parent, calls[k])
      {
        var child := calls[n];
        var asParent := Join([parent, child], SLASH);
        assert asParent in b <==> asParent in m by {
          assert b.Keys == Contents().Keys;
        }
        if asParent in b {
          child := child + "/";
        }
        names := names + [child];
      }
      MarkedOnce(added, parent, calls, names);
      children := SortStrings(names);
    }
  }

  /** Marking never makes two children equal. */
  lemma MarkedOnce(E: set<Components>, p: string, calls: seq<string>, names: seq<string>)
    requires AllWellFormed(E) && p in TrieOf(E)
    requires NoDuplicates(calls) && forall v :: v in calls <==> v in TrieOf(E)[p]
    requires |names| == |calls| && forall k :: 0 <= k < |names| ==> names[k] == Mark(TrieOf(E), p, calls[k])
    ensures NoDuplicates(names)
    ensures forall name :: name in names <==> name in Marked(TrieOf(E), p)
  {
    forall i, j | 0 <= i < j < |names| ensures names[i] != names[j] {
      MarkTrims(E, p, calls[i]);
      MarkTrims(E, p, calls[j]);
    }
    forall name | name in Marked(TrieOf(E), p) ensures name in names {
      var c :| c in TrieOf(E)[p] && name == Mark(TrieOf(E), p, c);
      var k :| 0 <= k < |calls| && calls[k] == c;
      assert names[k] == name;
    }
  }

  method SortStrings(names: seq<string>) returns (sorted: seq<string>)
    requires NoDuplicates(names)
    ensures StrictlySorted(sorted)
    ensures forall name :: name in sorted <==> name in names
  {
    var a := new string[|names|](i requires 0 <= i < |names| => names[i]);
    assert a[..] == names;
    Sort(a, name => name);
    sorted := a[..];
    PermutationNoDuplicates(names, sorted);
    SamePermutationElements(names, sorted);
    SortedBecomesStrict(sorted);
  }

  /** Routes are compared by endpoint alone, so the result is unique only because endpoints are distinct. */
  method SortRoutes(unsorted: seq<Route>) returns (routes: seq<Route>)
    requires NoDuplicates(Endpoints(unsorted))
    ensures StrictlySorted(Endpoints(routes))
    ensures multiset(routes) == multiset(unsorted)
    ensures forall p :: p in Endpoints(routes) <==> p in Endpoints(unsorted)
    ensures forall r :: r in routes <==> r in unsorted
  {
    var a := new Route[|unsorted|](i requires 0 <= i < |unsorted| => unsorted[i]);
    assert a[..] == unsorted;
    Sort(a, (r: Route) => r.endpoint);
    routes := a[..];
    SamePermutationElements(unsorted, routes);
    EndpointsMember(unsorted);
    EndpointsMember(routes);
    EndpointsPermutation(unsorted, routes);
    SortedBecomesStrict(Endpoints(routes));
  }

  lemma EndpointsMember(routes: seq<Route>)
    ensures forall p :: p in Endpoints(routes) <==> exists r :: r in routes && r.endpoint == p
  {
  }

  lemma EndpointsPermutation(xs: seq<Route>, ys: seq<Route>)
    requires NoDuplicates(Endpoints(xs)) && multiset(xs) == multiset(ys)
    ensures NoDuplicates(Endpoints(ys))
  {
    assert NoDuplicates(xs);
    PermutationNoDuplicates(xs, ys);
    SamePermutationElements(xs, ys);
    forall i, j | 0 <= i < j < |ys| ensures ys[i].endpoint != ys[j].endpoint {
      assert ys[i] in xs && ys[j] in xs;
      var k :| 0 <= k < |xs| && xs[k] == ys[i];
      var l :| 0 <= l < |xs| && xs[l] == ys[j];
      assert k != l;
      assert Endpoints(xs)[k] != Endpoints(xs)[l];
    }
  }

  // ----- Whole runs -----

  /** A new builder fed these endpoints in this order, then built. */
  method BuildFrom(endpoints: seq<string>) returns (routes: seq<Route>)
    ensures routes == ListingOf(History(endpoints))
  {
    var builder := new Builder();
    assert History(endpoints[..0]) == {};
    for n := 0 to |endpoints|
      invariant fresh(builder) && fresh(builder.b.Values)
      invariant builder.Valid() && builder.added == History(endpoints[..n])
    {
      builder.FromEndpoint(endpoints[n]);
      HistoryStep(endpoints, n);
    }
    assert endpoints[..|endpoints|] == endpoints;
    routes := builder.Build();
  }

  ghost function NormalisedSet(endpoints: seq<string>): set<string> {
    set x | x in endpoints :: Normalise(x)
  }

  /**
    Building is canonical. Two histories with the same normalised endpoints,
    whatever the order, the repetitions and the missing leading slashes, build
    the same routes; and exactly the histories with the same maximal endpoints do.
  */
  method BuildTwice(endpoints: seq<string>, endpoints': seq<string>)
    returns (routes: seq<Route>, routes': seq<Route>)
    ensures NormalisedSet(endpoints) == NormalisedSet(endpoints') ==> routes == routes'
    ensures routes == routes' <==> Maximal(History(endpoints)) == Maximal(History(endpoints'))
  {
    routes := BuildFrom(endpoints);
    routes' := BuildFrom(endpoints');
    HistoryWellFormed(endpoints);
    HistoryWellFormed(endpoints');
    SameListing(History(endpoints), History(endpoints'), routes, routes');
    if NormalisedSet(endpoints) == NormalisedSet(endpoints') {
      SameHistory(endpoints, endpoints');
    }
  }

  lemma SameHistory(endpoints: seq<string>, endpoints': seq<string>)
    requires NormalisedSet(endpoints) == NormalisedSet(endpoints')
    ensures History(endpoints) == History(endpoints')
  {
    forall e ensures e in History(endpoints) <==> e in History(endpoints') {
      HistoryMember(endpoints, e);
      HistoryMember(endpoints', e);
    }
  }

  lemma HistoryMember(endpoints: seq<string>, e: Components)
    ensures e in History(endpoints) <==> exists s :: s in NormalisedSet(endpoints) && e == Split(s, SLASH)
  {
    if x :| x in endpoints && e == ComponentsOf(x) {
      assert Normalise(x) in NormalisedSet(endpoints);
    }
  }

  /** Build, feed the unmarked paths to a new builder, build again: the same routes. */
  method Rebuild(endpoints: seq<string>) returns (routes: seq<Route>, rebuilt: seq<Route>)
    ensures routes == ListingOf(History(endpoints))
    ensures rebuilt == routes
  {
    routes := BuildFrom(endpoints);
    rebuilt := BuildFrom(ListedPaths(routes, false));
    HistoryWellFormed(endpoints);
    RebuildRoundTrip(History(endpoints), routes, rebuilt);
  }
}
