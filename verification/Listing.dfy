/**
  The routes built from a trie, stated without the order in which the map and
  its sets are walked: Lists(E, routes) says that routes is the listing of the
  history E, and the lemmas say what such a listing tells a client.
*/
module Listing {
  import opened GoStrings
  import opened Ordering
  import opened EndpointTrie

  datatype Route = Route(endpoint: string, children: seq<string>)

  /** A child name, with a slash appended when the child is itself a key. */
  function Mark(m: map<string, set<string>>, p: string, c: string): string {
    if Join([p, c], SLASH) in m then c + "/" else c
  }

  ghost function Marked(m: map<string, set<string>>, p: string): set<string>
    requires p in m
  {
    set c | c in m[p] :: Mark(m, p, c)
  }

  function Endpoints(routes: seq<Route>): (es: seq<string>)
    ensures |es| == |routes|
    ensures forall i :: 0 <= i < |routes| ==> es[i] == routes[i].endpoint
  {
    seq(|routes|, i requires 0 <= i < |routes| => routes[i].endpoint)
  }

  ghost predicate ListsChildren(m: map<string, set<string>>, r: Route) {
    && r.endpoint in m
    && StrictlySorted(r.children)
    && (forall name :: name in r.children <==> name in Marked(m, r.endpoint))
  }

  /** One route per key, in strict order, each with its marked children in strict order. */
  ghost predicate ListsMap(m: map<string, set<string>>, routes: seq<Route>) {
    && StrictlySorted(Endpoints(routes))
    && (forall p :: p in Endpoints(routes) <==> p in m)
    && (forall i :: 0 <= i < |routes| ==> ListsChildren(m, routes[i]))
  }

  ghost predicate Lists(E: set<Components>, routes: seq<Route>) {
    ListsMap(TrieOf(E), routes)
  }

  /** The listing is canonical: a history admits one sequence of routes only. */
  lemma ListingUnique(m: map<string, set<string>>, routes: seq<Route>, routes': seq<Route>)
    requires ListsMap(m, routes) && ListsMap(m, routes')
    ensures routes == routes'
  {
    var es, es' := Endpoints(routes), Endpoints(routes');
    StrictlySortedUnique(es, es');
    forall i | 0 <= i < |routes| ensures routes[i] == routes'[i] {
      assert routes[i].endpoint == es[i] == es'[i] == routes'[i].endpoint;
      assert ListsChildren(m, routes[i]) && ListsChildren(m, routes'[i]);
      StrictlySortedUnique(routes[i].children, routes'[i].children);
    }
  }

  /** The listing of a history. */
  ghost function ListingOf(E: set<Components>): (routes: seq<Route>)
    ensures Lists(E, routes)
  {
    var m, keys := TrieOf(E), SortedOf(TrieOf(E).Keys);
    var routes := seq(|keys|, i requires 0 <= i < |keys| =>
                        assert keys[i] in keys; Route(keys[i], SortedOf(Marked(m, keys[i]))));
    assert Endpoints(routes) == keys;
    routes
  }

  lemma ListingOfUnique(E: set<Components>, routes: seq<Route>)
    ensures Lists(E, routes) <==> routes == ListingOf(E)
  {
    if Lists(E, routes) {
      ListingUnique(TrieOf(E), routes, ListingOf(E));
    }
  }

  // ----- Names and paths -----

  predicate IsMarked(name: string) {
    HasSuffix(name, "/")
  }

  /** The path a listed name stands for, without its slash marker. */
  function PathOf(p: string, name: string): string {
    p + "/" + TrimSuffix(name, "/")
  }

  lemma MarkTrims(E: set<Components>, p: string, c: string)
    requires AllWellFormed(E) && p in TrieOf(E) && c in TrieOf(E)[p]
    ensures TrimSuffix(Mark(TrieOf(E), p, c), "/") == c
    ensures IsMarked(Mark(TrieOf(E), p, c)) <==> p + "/" + c in TrieOf(E)
    ensures PathOf(p, Mark(TrieOf(E), p, c)) == p + "/" + c == Join(Split(p, SLASH) + [c], SLASH)
  {
    KidSlashFree(E, p, c);
    assert Join([p, c], SLASH) == p + "/" + c;
    assert |c| > 0 ==> c[|c| - 1..] == [c[|c| - 1]];
    assert (c + "/")[..|c|] == c;
    assert HasSuffix(c + "/", "/");
  }

  /** The child component behind a listed name. */
  lemma NameToKid(E: set<Components>, r: Route, name: string) returns (c: string)
    requires AllWellFormed(E) && ListsChildren(TrieOf(E), r) && name in r.children
    ensures c in TrieOf(E)[r.endpoint] && name == Mark(TrieOf(E), r.endpoint, c)
    ensures c == TrimSuffix(name, "/")
    ensures IsBranch(E, Split(r.endpoint, SLASH) + [c])
    ensures PathOf(r.endpoint, name) == Join(Split(r.endpoint, SLASH) + [c], SLASH)
    ensures Split(PathOf(r.endpoint, name), SLASH) == Split(r.endpoint, SLASH) + [c]
    ensures IsMarked(name) <==> PathOf(r.endpoint, name) in TrieOf(E)
  {
    assert name in Marked(TrieOf(E), r.endpoint);
    c :| c in TrieOf(E)[r.endpoint] && name == Mark(TrieOf(E), r.endpoint, c);
    MarkTrims(E, r.endpoint, c);
    KidSlashFree(E, r.endpoint, c);
    KidIsBranch(E, Split(r.endpoint, SLASH), c);
  }

  lemma KidToName(E: set<Components>, r: Route, c: string)
    requires AllWellFormed(E) && ListsChildren(TrieOf(E), r)
    requires IsBranch(E, Split(r.endpoint, SLASH) + [c])
    ensures Mark(TrieOf(E), r.endpoint, c) in r.children
    ensures c in TrieOf(E)[r.endpoint]
  {
  }

  lemma RouteFor(E: set<Components>, routes: seq<Route>, p: string) returns (i: nat)
    requires Lists(E, routes) && p in TrieOf(E)
    ensures i < |routes| && routes[i].endpoint == p && ListsChildren(TrieOf(E), routes[i])
  {
    i :| 0 <= i < |Endpoints(routes)| && Endpoints(routes)[i] == p;
  }

  /**
    Slash markers are truthful: a listed name is marked if and only if its path
    is the endpoint of another route of the same listing, and is unmarked if and
    only if its path spells a maximal endpoint.
  */
  lemma MarkersTruthful(E: set<Components>, routes: seq<Route>, i: nat, name: string)
    requires AllWellFormed(E) && Lists(E, routes) && i < |routes| && name in routes[i].children
    ensures IsMarked(name) <==>
              exists k :: 0 <= k < |routes| && k != i && routes[k].endpoint == PathOf(routes[i].endpoint, name)
    ensures !IsMarked(name) <==> IsMaximal(E, Split(PathOf(routes[i].endpoint, name), SLASH))
  {
    var p, path := routes[i].endpoint, PathOf(routes[i].endpoint, name);
    assert ListsChildren(TrieOf(E), routes[i]);
    var c := NameToKid(E, routes[i], name);
    KeyIsDir(E, path);
    BranchDirOrMaximal(E, Split(path, SLASH));
    if IsMarked(name) {
      var k := RouteFor(E, routes, path);
      assert |path| > |p|;
      assert k != i;
    }
    if k :| 0 <= k < |routes| && k != i && routes[k].endpoint == path {
      assert ListsChildren(TrieOf(E), routes[k]);
    }
  }

  // ----- All listed paths -----

  function NamesPaths(p: string, names: seq<string>, marked: bool): seq<string> {
    if names == [] then []
    else (if IsMarked(names[0]) == marked then [PathOf(p, names[0])] else []) + NamesPaths(p, names[1..], marked)
  }

  /** The paths of every listed name that is marked, or of every one that is not, in listing order. */
  function ListedPaths(routes: seq<Route>, marked: bool): seq<string> {
    if routes == [] then []
    else NamesPaths(routes[0].endpoint, routes[0].children, marked) + ListedPaths(routes[1..], marked)
  }

  lemma {:induction false} NamesPathsMember(p: string, names: seq<string>, marked: bool, x: string)
    ensures x in NamesPaths(p, names, marked) <==>
              exists name :: name in names && IsMarked(name) == marked && x == PathOf(p, name)
  {
    if names == [] {
    } else {
      NamesPathsMember(p, names[1..], marked, x);
      assert names == [names[0]] + names[1..];
      if name :| name in names && IsMarked(name) == marked && x == PathOf(p, name) {
        assert name == names[0] || name in names[1..];
      }
      if x in NamesPaths(p, names[1..], marked) {
        var name :| name in names[1..] && IsMarked(name) == marked && x == PathOf(p, name);
        assert name in names;
      }
    }
  }

  ghost predicate ListedAt(r: Route, marked: bool, name: string, x: string) {
    name in r.children && IsMarked(name) == marked && x == PathOf(r.endpoint, name)
  }

  lemma {:induction false} ListedPathsMember(routes: seq<Route>, marked: bool, x: string)
    ensures x in ListedPaths(routes, marked) <==>
              exists r, name :: r in routes && ListedAt(r, marked, name, x)
  {
    if routes == [] {
    } else {
      var r0, rest := routes[0], routes[1..];
      ListedPathsMember(rest, marked, x);
      NamesPathsMember(r0.endpoint, r0.children, marked, x);
      assert routes == [r0] + rest;
      if x in NamesPaths(r0.endpoint, r0.children, marked) {
        var name :| name in r0.children && IsMarked(name) == marked && x == PathOf(r0.endpoint, name);
        assert r0 in routes && ListedAt(r0, marked, name, x);
      }
      if x in ListedPaths(rest, marked) {
        var r, name :| r in rest && ListedAt(r, marked, name, x);
        assert r in routes;
      }
      if r, name :| r in routes && ListedAt(r, marked, name, x) {
        assert r == r0 || r in rest;
      }
    }
  }

  lemma {:induction false} NamesPathsDistinct(E: set<Components>, r: Route, names: seq<string>, marked: bool)
    requires AllWellFormed(E) && ListsChildren(TrieOf(E), r)
    requires NoDuplicates(names) && forall name :: name in names ==> name in r.children
    ensures NoDuplicates(NamesPaths(r.endpoint, names, marked))
  {
    if names == [] {
    } else {
      var rest := names[1..];
      NamesPathsDistinct(E, r, rest, marked);
      var x := PathOf(r.endpoint, names[0]);
      NamesPathsMember(r.endpoint, rest, marked, x);
      if name :| name in rest && x == PathOf(r.endpoint, name) {
        SameName(E, r, names[0], r, name);
        assert false;
      }
    }
  }

  /** A listed path is listed by one route, under one name. */
  lemma SameName(E: set<Components>, r: Route, name: string, r': Route, name': string)
    requires AllWellFormed(E) && ListsChildren(TrieOf(E), r) && ListsChildren(TrieOf(E), r')
    requires name in r.children && name' in r'.children
    requires PathOf(r.endpoint, name) == PathOf(r'.endpoint, name')
    ensures r.endpoint == r'.endpoint && name == name'
  {
    var c := NameToKid(E, r, name);
    var c' := NameToKid(E, r', name');
    SplitAppendInjective(r.endpoint, c, r'.endpoint, c', SLASH);
  }

  lemma {:induction false} ListedPathsDistinct(E: set<Components>, routes: seq<Route>, marked: bool)
    requires AllWellFormed(E) && NoDuplicates(Endpoints(routes))
    requires forall i :: 0 <= i < |routes| ==> ListsChildren(TrieOf(E), routes[i])
    ensures NoDuplicates(ListedPaths(routes, marked))
  {
    if routes == [] {
    } else {
      var r, rest := routes[0], routes[1..];
      assert Endpoints(rest) == Endpoints(routes)[1..];
      ListedPathsDistinct(E, rest, marked);
      StrictlySortedNoDuplicates(r.children);
      NamesPathsDistinct(E, r, r.children, marked);
      forall r' | r' in rest ensures r'.endpoint != r.endpoint && ListsChildren(TrieOf(E), r') {
        var k :| 0 <= k < |rest| && rest[k] == r';
        assert Endpoints(routes)[0] != Endpoints(routes)[k + 1];
        assert routes[k + 1] == r';
      }
      forall x | x in NamesPaths(r.endpoint, r.children, marked) ensures x !in ListedPaths(rest, marked) {
        NamesPathsMember(r.endpoint, r.children, marked, x);
        ListedPathsMember(rest, marked, x);
        if r', name' :| r' in rest && ListedAt(r', marked, name', x) {
          var name :| name in r.children && IsMarked(name) == marked && x == PathOf(r.endpoint, name);
          SameName(E, r, name, r', name');
          assert false;
        }
      }
      NoDuplicatesConcat(NamesPaths(r.endpoint, r.children, marked), ListedPaths(rest, marked));
    }
  }

  /** The paths listed under marked names are exactly the endpoints of the non-root routes. */
  lemma MarkedPathsAreEndpoints(E: set<Components>, routes: seq<Route>, x: string)
    requires AllWellFormed(E) && Lists(E, routes)
    ensures x in ListedPaths(routes, true) <==> x in Endpoints(routes) && x != ""
  {
    ListedPathsMember(routes, true, x);
    if r, name :| r in routes && ListedAt(r, true, name, x) {
      var c := NameToKid(E, r, name);
    }
    if x in Endpoints(routes) && x != "" {
      var parent, c := ParentExists(E, x);
      var i := RouteFor(E, routes, parent);
      KidIsBranch(E, Split(parent, SLASH), c);
      KeyIsDir(E, parent);
      KidToName(E, routes[i], c);
      MarkTrims(E, parent, c);
      assert ListedAt(routes[i], true, Mark(TrieOf(E), parent, c), x);
    }
  }

  lemma LeafPathIsMaximal(E: set<Components>, routes: seq<Route>, r: Route, name: string)
    requires AllWellFormed(E) && Lists(E, routes)
    requires r in routes && name in r.children && !IsMarked(name)
    ensures IsMaximal(E, Split(PathOf(r.endpoint, name), SLASH))
  {
    var i :| 0 <= i < |routes| && routes[i] == r;
    MarkersTruthful(E, routes, i, name);
  }

  lemma MaximalIsListed(E: set<Components>, routes: seq<Route>, e: Components) returns (r: Route, name: string)
    requires AllWellFormed(E) && Lists(E, routes) && IsMaximal(E, e)
    ensures r in routes && ListedAt(r, false, name, Join(e, SLASH))
  {
    var n := |e| - 1;
    var q, c := e[..n], e[n];
    assert e == q + [c] && q < e;
    DirIsKey(E, q);
    var i := RouteFor(E, routes, Join(q, SLASH));
    r := routes[i];
    assert IsBranch(E, e);
    KidToName(E, r, c);
    name := Mark(TrieOf(E), r.endpoint, c);
    MarkTrims(E, r.endpoint, c);
    BranchDirOrMaximal(E, e);
    BranchWellFormed(E, e);
    KeyIsDir(E, Join(e, SLASH));
  }

  /** The paths listed under unmarked names are exactly the spellings of the maximal endpoints. */
  lemma LeafPathsAreMaximal(E: set<Components>, routes: seq<Route>, x: string)
    requires AllWellFormed(E) && Lists(E, routes)
    ensures x in ListedPaths(routes, false) <==> Split(x, SLASH) in Maximal(E)
  {
    ListedPathsMember(routes, false, x);
    if r, name :| r in routes && ListedAt(r, false, name, x) {
      LeafPathIsMaximal(E, routes, r, name);
    }
    if Split(x, SLASH) in Maximal(E) {
      JoinSplit(x, SLASH);
      var r, name := MaximalIsListed(E, routes, Split(x, SLASH));
    }
  }

  /** How many names the routes list in all. */
  function NameCount(routes: seq<Route>): nat {
    if routes == [] then 0 else |routes[0].children| + NameCount(routes[1..])
  }

  lemma {:induction false} NamesPathsCount(p: string, names: seq<string>)
    ensures |NamesPaths(p, names, true)| + |NamesPaths(p, names, false)| == |names|
  {
    if names == [] {
    } else {
      NamesPathsCount(p, names[1..]);
    }
  }

  lemma {:induction false} NameCountSplits(routes: seq<Route>)
    ensures |ListedPaths(routes, true)| + |ListedPaths(routes, false)| == NameCount(routes)
  {
    if routes == [] {
    } else {
      NamesPathsCount(routes[0].endpoint, routes[0].children);
      NameCountSplits(routes[1..]);
    }
  }

  lemma {:induction false} JoinImageCount(E: set<Components>, xs: seq<string>)
    requires NoDuplicates(xs)
    requires forall x :: x in xs <==> Split(x, SLASH) in E
    requires forall e :: e in E ==> WellFormed(e)
    ensures |xs| == |E|
    decreases |xs|
  {
    if xs == [] {
      if e :| e in E {
        SplitJoin(e, SLASH);
        assert false;
      }
    } else {
      var x, rest := xs[0], xs[1..];
      var e := Split(x, SLASH);
      assert x in xs;
      assert xs == [x] + rest;
      forall y ensures y in rest <==> Split(y, SLASH) in E - {e} {
        JoinSplit(x, SLASH);
        JoinSplit(y, SLASH);
        assert y in xs <==> y == x || y in rest;
      }
      JoinImageCount(E - {e}, rest);
    }
  }

  /**
    The routes form a tree. Marked names and non-root routes are in bijection, so
    there is one marked name fewer than there are routes; unmarked names and
    maximal endpoints are in bijection.
  */
  lemma TreeCounts(E: set<Components>, routes: seq<Route>)
    requires AllWellFormed(E) && E != {} && Lists(E, routes)
    ensures NoDuplicates(ListedPaths(routes, true)) && NoDuplicates(ListedPaths(routes, false))
    ensures forall x :: x in ListedPaths(routes, true) <==> x in Endpoints(routes) && x != ""
    ensures forall x :: x in ListedPaths(routes, false) <==> Split(x, SLASH) in Maximal(E)
    ensures |ListedPaths(routes, true)| == |routes| - 1
    ensures |ListedPaths(routes, false)| == |Maximal(E)|
    ensures NameCount(routes) == |routes| - 1 + |Maximal(E)|
  {
    StrictlySortedNoDuplicates(Endpoints(routes));
    ListedPathsDistinct(E, routes, true);
    ListedPathsDistinct(E, routes, false);
    forall x ensures x in ListedPaths(routes, true) <==> x in Endpoints(routes) && x != "" {
      MarkedPathsAreEndpoints(E, routes, x);
    }
    forall x ensures x in ListedPaths(routes, false) <==> Split(x, SLASH) in Maximal(E) {
      LeafPathsAreMaximal(E, routes, x);
    }
    var root: Components := [""];
    var e :| e in E;
    assert root < e;
    assert Split("", SLASH) == root;
    KeyIsDir(E, "");
    assert "" in Endpoints(routes);
    NoDuplicatesCount(ListedPaths(routes, true));
    NoDuplicatesCount(Endpoints(routes));
    assert Elements(Endpoints(routes)) == Elements(ListedPaths(routes, true)) + {""};
    JoinImageCount(Maximal(E), ListedPaths(routes, false));
    NameCountSplits(routes);
  }

  // ----- Rebuilding from the leaves -----

  /** The history recorded by feeding these endpoints to a new builder. */
  ghost function History(endpoints: seq<string>): set<Components> {
    set x | x in endpoints :: ComponentsOf(x)
  }

  lemma HistoryAppend(xs: seq<string>, x: string)
    ensures History(xs + [x]) == History(xs) + {ComponentsOf(x)}
  {
    forall e ensures e in History(xs + [x]) <==> e in History(xs) + {ComponentsOf(x)} {
      if e in History(xs) {
        var y :| y in xs && e == ComponentsOf(y);
        assert y in xs + [x];
      }
      assert x in xs + [x];
    }
  }

  lemma HistoryStep(endpoints: seq<string>, n: nat)
    requires n < |endpoints|
    ensures History(endpoints[..n + 1]) == History(endpoints[..n]) + {ComponentsOf(endpoints[n])}
  {
    assert endpoints[..n + 1] == endpoints[..n] + [endpoints[n]];
    HistoryAppend(endpoints[..n], endpoints[n]);
  }

  lemma HistoryWellFormed(endpoints: seq<string>)
    ensures AllWellFormed(History(endpoints))
  {
  }

  lemma TrieOfMaximal(E: set<Components>)
    requires AllWellFormed(E)
    ensures TrieOf(Maximal(E)) == TrieOf(E)
  {
    var M := Maximal(E);
    forall q: Components, e | e in E && q <= e ensures IsBranch(M, q) && (q != [] && q < e ==> IsDir(M, q)) {
      var m := ExtendsToMaximal(E, e);
      assert m in M && q <= m;
      assert q < e ==> q < m;
    }
    forall p ensures p in Keys(M) <==> p in Keys(E) {
      KeyIsDir(E, p);
      KeyIsDir(M, p);
    }
    forall p | p in Keys(E) ensures Kids(M, Split(p, SLASH)) == Kids(E, Split(p, SLASH)) {
      forall c ensures c in Kids(M, Split(p, SLASH)) <==> c in Kids(E, Split(p, SLASH)) {
        KidIsBranch(E, Split(p, SLASH), c);
        KidIsBranch(M, Split(p, SLASH), c);
      }
    }
  }

  lemma LeafHistory(E: set<Components>, routes: seq<Route>)
    requires AllWellFormed(E) && Lists(E, routes)
    ensures History(ListedPaths(routes, false)) == Maximal(E)
  {
    var leaves := ListedPaths(routes, false);
    forall e ensures e in History(leaves) <==> e in Maximal(E) {
      if x :| x in leaves && e == ComponentsOf(x) {
        LeafPathsAreMaximal(E, routes, x);
        JoinSplit(x, SLASH);
        ComponentsOfJoin(Split(x, SLASH));
      }
      if e in Maximal(E) {
        var x := Join(e, SLASH);
        SplitJoin(e, SLASH);
        LeafPathsAreMaximal(E, routes, x);
        ComponentsOfJoin(e);
        assert x in leaves && ComponentsOf(x) == e;
      }
    }
  }

  /** Feeding a new builder the unmarked paths of a listing gives back that listing and no other. */
  lemma RebuildRoundTrip(E: set<Components>, routes: seq<Route>, rebuilt: seq<Route>)
    requires AllWellFormed(E) && Lists(E, routes)
    ensures Lists(History(ListedPaths(routes, false)), rebuilt) <==> rebuilt == routes
  {
    LeafHistory(E, routes);
    TrieOfMaximal(E);
    if ListsMap(TrieOf(E), rebuilt) {
      ListingUnique(TrieOf(E), routes, rebuilt);
    }
  }

  /** Two histories have the same listing if and only if they have the same maximal endpoints. */
  lemma SameListing(E: set<Components>, E': set<Components>, routes: seq<Route>, routes': seq<Route>)
    requires AllWellFormed(E) && AllWellFormed(E')
    requires Lists(E, routes) && Lists(E', routes')
    ensures routes == routes' <==> Maximal(E) == Maximal(E')
  {
    if routes == routes' {
      LeafHistory(E, routes);
      LeafHistory(E', routes);
    }
    if Maximal(E) == Maximal(E') {
      TrieOfMaximal(E);
      TrieOfMaximal(E');
      ListingUnique(TrieOf(E), routes, routes');
    }
  }

  // ----- One more endpoint -----

  /** Routes that are not on the path of the new endpoint e are unchanged. */
  lemma OffPathUnchanged(E: set<Components>, e: Components, routes: seq<Route>, routes': seq<Route>, r: Route)
    requires AllWellFormed(E) && WellFormed(e)
    requires Lists(E, routes) && Lists(E + {e}, routes')
    requires !(Split(r.endpoint, SLASH) < e)
    ensures r in routes <==> r in routes'
  {
    if r in routes {
      var i :| 0 <= i < |routes| && routes[i] == r;
      SameRouteOffPath(E, e, routes', r);
    }
    if r in routes' {
      var i :| 0 <= i < |routes'| && routes'[i] == r;
      KeyIsDir(E, r.endpoint);
      KeyIsDir(E + {e}, r.endpoint);
      var k := RouteFor(E, routes, r.endpoint);
      SameRouteOffPath(E, e, routes', routes[k]);
      OneRoutePerEndpoint(routes', r, routes[k]);
    }
  }

  lemma OneRoutePerEndpoint(routes: seq<Route>, r: Route, r': Route)
    requires StrictlySorted(Endpoints(routes)) && r in routes && r' in routes && r.endpoint == r'.endpoint
    ensures r == r'
  {
    var i :| 0 <= i < |routes| && routes[i] == r;
    var j :| 0 <= j < |routes| && routes[j] == r';
    StrictlySortedNoDuplicates(Endpoints(routes));
    assert Endpoints(routes)[i] == Endpoints(routes)[j];
  }

  lemma SameRouteOffPath(E: set<Components>, e: Components, routes': seq<Route>, r: Route)
    requires AllWellFormed(E) && WellFormed(e)
    requires ListsChildren(TrieOf(E), r) && Lists(E + {e}, routes')
    requires !(Split(r.endpoint, SLASH) < e)
    ensures r in routes'
  {
    var F, p := E + {e}, r.endpoint;
    KeyIsDir(E, p);
    KeyIsDir(F, p);
    var k := RouteFor(F, routes', p);
    SameMarkedOffPath(E, e, p);
    StrictlySortedUnique(r.children, routes'[k].children);
  }

  lemma SameMarkedOffPath(E: set<Components>, e: Components, p: string)
    requires AllWellFormed(E) && WellFormed(e)
    requires p in TrieOf(E) && p in TrieOf(E + {e}) && !(Split(p, SLASH) < e)
    ensures Marked(TrieOf(E), p) == Marked(TrieOf(E + {e}), p)
  {
    var F, q := E + {e}, Split(p, SLASH);
    assert Kids(E, q) == Kids(F, q);
    forall c | c in Kids(E, q) ensures Mark(TrieOf(E), p, c) == Mark(TrieOf(F), p, c) {
      KidSlashFree(E, p, c);
      SameMarkOffPath(E, e, p, c);
    }
  }

  lemma SameMarkOffPath(E: set<Components>, e: Components, p: string, c: string)
    requires AllWellFormed(E) && WellFormed(e)
    requires !(Split(p, SLASH) < e) && SLASH !in c
    ensures Mark(TrieOf(E), p, c) == Mark(TrieOf(E + {e}), p, c)
  {
    SplitAppend(p, c, SLASH);
    assert Join([p, c], SLASH) == p + "/" + c;
    KeyIsDir(E, p + "/" + c);
    KeyIsDir(E + {e}, p + "/" + c);
  }

  /**
    How the route r becomes r' when an endpoint whose component after r is `next`
    is added: every other name stays as it is and no other name appears; `next`
    is listed afterwards, once, and with its slash if and only if it had it or
    the new endpoint goes deeper.
  */
  ghost predicate Grows(r: Route, r': Route, next: string, deeper: bool) {
    && r.endpoint == r'.endpoint
    && (forall name :: TrimSuffix(name, "/") != next ==> (name in r.children <==> name in r'.children))
    && (next + "/" in r'.children <==> next + "/" in r.children || deeper)
    && (next in r'.children <==> !(next + "/" in r'.children))
  }

  lemma OnPathGrowth(E: set<Components>, e: Components, r: Route, r': Route)
    requires AllWellFormed(E) && WellFormed(e)
    requires ListsChildren(TrieOf(E), r) && ListsChildren(TrieOf(E + {e}), r') && r.endpoint == r'.endpoint
    requires Split(r.endpoint, SLASH) < e
    ensures Grows(r, r', e[|Split(r.endpoint, SLASH)|], |e| > |Split(r.endpoint, SLASH)| + 1)
  {
    var F, p, q := E + {e}, r.endpoint, Split(r.endpoint, SLASH);
    var next := e[|q|];
    StepIsBranch(F, q, e);
    KidToName(F, r', next);
    MarkTrims(F, p, next);
    OneNamePerKid(F, r', next);
    MarkedMeansDir(F, r', next);
    MarkedMeansDir(E, r, next);
    DirBelow(E, e, q);
    forall name | TrimSuffix(name, "/") != next ensures name in r.children <==> name in r'.children {
      OtherNamesStay(E, e, r, r', name);
    }
  }

  /** A component is listed with a slash if and only if it leads to a directory. */
  lemma MarkedMeansDir(E: set<Components>, r: Route, c: string)
    requires AllWellFormed(E) && ListsChildren(TrieOf(E), r) && SLASH !in c
    ensures c + "/" in r.children <==> IsDir(E, Split(r.endpoint, SLASH) + [c])
  {
    var q := Split(r.endpoint, SLASH);
    assert TrimSuffix(c + "/", "/") == c;
    SplitAppend(r.endpoint, c, SLASH);
    KeyIsDir(E, r.endpoint + "/" + c);
    if c + "/" in r.children {
      var k := NameToKid(E, r, c + "/");
    }
    if IsDir(E, q + [c]) {
      DirIsBranch(E, q + [c]);
      KidToName(E, r, c);
      MarkTrims(E, r.endpoint, c);
    }
  }

  lemma DirBelow(E: set<Components>, e: Components, q: Components)
    requires WellFormed(e) && q < e
    ensures SLASH !in e[|q|]
    ensures IsDir(E + {e}, q + [e[|q|]]) <==> IsDir(E, q + [e[|q|]]) || |e| > |q| + 1
  {
    var step := q + [e[|q|]];
    assert step == e[..|q| + 1];
    assert step < e <==> |e| > |q| + 1;
  }

  /** A route that the new endpoint e creates is on its path and lists e's next component only. */
  lemma NewRoute(E: set<Components>, e: Components, r': Route)
    requires AllWellFormed(E) && WellFormed(e)
    requires ListsChildren(TrieOf(E + {e}), r') && r'.endpoint !in TrieOf(E)
    ensures ListsNextOnly(r', e)
  {
    var F, q := E + {e}, Split(r'.endpoint, SLASH);
    KeyIsDir(E, r'.endpoint);
    KeyIsDir(F, r'.endpoint);
    var next := e[|q|];
    OnlyKid(E, e, q);
    assert TrieOf(F)[r'.endpoint] == {next};
    DirBelow(E, e, q);
    NoDirBelow(E, q, next);
    SplitAppend(r'.endpoint, next, SLASH);
    KeyIsDir(F, r'.endpoint + "/" + next);
    var name := Mark(TrieOf(F), r'.endpoint, next);
    assert Join([r'.endpoint, next], SLASH) == r'.endpoint + "/" + next;
    assert Marked(TrieOf(F), r'.endpoint) == {name};
    StrictlySortedUnique(r'.children, [name]);
  }

  lemma OnlyKid(E: set<Components>, e: Components, q: Components)
    requires q != [] && !IsDir(E, q) && q < e
    ensures Kids(E + {e}, q) == {e[|q|]}
  {
  }

  lemma NoDirBelow(E: set<Components>, q: Components, c: string)
    requires q != [] && !IsDir(E, q)
    ensures !IsDir(E, q + [c])
  {
    if IsDir(E, q + [c]) {
      DirIsBranch(E, q + [c]);
      BranchHasParent(E, q, c);
    }
  }

  lemma OneNamePerKid(E: set<Components>, r: Route, c: string)
    requires AllWellFormed(E) && ListsChildren(TrieOf(E), r)
    ensures !(c in r.children && c + "/" in r.children)
  {
    if c in r.children && c + "/" in r.children {
      var k := NameToKid(E, r, c + "/");
      assert TrimSuffix(c + "/", "/") == c;
      MarkTrims(E, r.endpoint, c);
      var k' := NameToKid(E, r, c);
    }
  }

  lemma OtherNamesStay(E: set<Components>, e: Components, r: Route, r': Route, name: string)
    requires AllWellFormed(E) && WellFormed(e)
    requires ListsChildren(TrieOf(E), r) && ListsChildren(TrieOf(E + {e}), r') && r.endpoint == r'.endpoint
    requires Split(r.endpoint, SLASH) < e && TrimSuffix(name, "/") != e[|Split(r.endpoint, SLASH)|]
    ensures name in r.children <==> name in r'.children
  {
    if name in r'.children {
      var c := NameToKid(E + {e}, r', name);
      KidSlashFree(E + {e}, r.endpoint, c);
      SameMark(E, e, r.endpoint, c);
      KidToName(E, r, c);
    }
    if name in r.children {
      var c := NameToKid(E, r, name);
      KidSlashFree(E, r.endpoint, c);
      SameMark(E, e, r.endpoint, c);
      KidToName(E + {e}, r', c);
    }
  }

  /** Some route of routes' is what r becomes when e is added below it. */
  ghost predicate GrowsInto(r: Route, e: Components, routes': seq<Route>)
    requires Split(r.endpoint, SLASH) < e
  {
    var q := Split(r.endpoint, SLASH);
    exists r' :: r' in routes' && Grows(r, r', e[|q|], |e| > |q| + 1)
  }

  /** r is on the path of e and lists e's next component only, marked when e goes deeper. */
  ghost predicate ListsNextOnly(r: Route, e: Components) {
    var q := Split(r.endpoint, SLASH);
    q < e && r.children == [if |e| > |q| + 1 then e[|q|] + "/" else e[|q|]]
  }

  lemma RouteGrows(E: set<Components>, e: Components, routes: seq<Route>, routes': seq<Route>, r: Route)
    requires AllWellFormed(E) && WellFormed(e)
    requires Lists(E, routes) && Lists(E + {e}, routes')
    requires r in routes && Split(r.endpoint, SLASH) < e
    ensures GrowsInto(r, e, routes')
  {
    var i :| 0 <= i < |routes| && routes[i] == r;
    KeyIsDir(E + {e}, r.endpoint);
    var k := RouteFor(E + {e}, routes', r.endpoint);
    OnPathGrowth(E, e, r, routes'[k]);
    assert routes'[k] in routes';
  }

  /**
    Adding one endpoint e leaves every route off its path as it was, changes the
    routes on its path by the growth above, and creates only routes on its path
    that list nothing but e's next component.
  */
  lemma OneMoreEndpoint(E: set<Components>, e: Components, routes: seq<Route>, routes': seq<Route>)
    requires AllWellFormed(E) && WellFormed(e)
    requires Lists(E, routes) && Lists(E + {e}, routes')
    ensures forall r: Route :: !(Split(r.endpoint, SLASH) < e) ==> (r in routes <==> r in routes')
    ensures forall r :: r in routes && Split(r.endpoint, SLASH) < e ==> GrowsInto(r, e, routes')
    ensures forall r' :: r' in routes' && r'.endpoint !in Endpoints(routes) ==> ListsNextOnly(r', e)
  {
    forall r: Route | !(Split(r.endpoint, SLASH) < e) ensures r in routes <==> r in routes' {
      OffPathUnchanged(E, e, routes, routes', r);
    }
    forall r | r in routes && Split(r.endpoint, SLASH) < e ensures GrowsInto(r, e, routes') {
      RouteGrows(E, e, routes, routes', r);
    }
    forall r' | r' in routes' && r'.endpoint !in Endpoints(routes) ensures ListsNextOnly(r', e) {
      var i :| 0 <= i < |routes'| && routes'[i] == r';
      NewRoute(E, e, r');
    }
  }

  lemma SameMark(E: set<Components>, e: Components, p: string, c: string)
    requires AllWellFormed(E) && WellFormed(e)
    requires Split(p, SLASH) < e && c != e[|Split(p, SLASH)|] && SLASH !in c
    requires IsBranch(E + {e}, Split(p, SLASH) + [c])
    ensures IsBranch(E, Split(p, SLASH) + [c])
    ensures Mark(TrieOf(E), p, c) == Mark(TrieOf(E + {e}), p, c)
  {
    var q := Split(p, SLASH);
    assert (q + [c])[|q|] == c;
    assert Join([p, c], SLASH) == p + "/" + c;
    SplitAppend(p, c, SLASH);
    KeyIsDir(E, p + "/" + c);
    KeyIsDir(E + {e}, p + "/" + c);
  }
}
