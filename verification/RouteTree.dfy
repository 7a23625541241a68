/** Which sequences of routes are listings: exactly the well-formed trees. */
module RouteTree {
  import opened GoStrings
  import opened Ordering
  import opened EndpointTrie
  import opened Listing

  /** A non-empty strictly sorted list of slash-free names, each marked or unmarked but not both. */
  ghost predicate GoodNames(names: seq<string>) {
    && names != [] && StrictlySorted(names)
    && (forall name :: name in names ==> SLASH !in TrimSuffix(name, "/"))
    && (forall c :: c in names ==> c + "/" !in names)
  }

  /** A root, good names everywhere, and marked names in correspondence with the other routes. */
  ghost predicate IsTree(routes: seq<Route>) {
    && StrictlySorted(Endpoints(routes))
    && (routes != [] ==> "" in Endpoints(routes))
    && (forall r :: r in routes ==> GoodNames(r.children))
    && (forall r, name :: r in routes && name in r.children && IsMarked(name) ==>
          PathOf(r.endpoint, name) in Endpoints(routes))
    && (forall p :: p in Endpoints(routes) && p != "" ==> HasParent(routes, p))
  }

  /** Some route lists p under a marked name. */
  ghost predicate HasParent(routes: seq<Route>, p: string) {
    exists r, name :: r in routes && ListedAt(r, true, name, p)
  }

  // ----- Paths in a tree -----

  lemma EndpointRoute(routes: seq<Route>, p: string) returns (r: Route)
    requires p in Endpoints(routes)
    ensures r in routes && r.endpoint == p
  {
    var i :| 0 <= i < |routes| && Endpoints(routes)[i] == p;
    r := routes[i];
  }

  lemma RouteEndpoint(routes: seq<Route>, r: Route)
    requires r in routes
    ensures r.endpoint in Endpoints(routes)
  {
    var i :| 0 <= i < |routes| && routes[i] == r;
    assert Endpoints(routes)[i] == r.endpoint;
  }

  lemma PathParts(r: Route, name: string)
    requires GoodNames(r.children) && name in r.children
    ensures Split(PathOf(r.endpoint, name), SLASH) == Split(r.endpoint, SLASH) + [TrimSuffix(name, "/")]
    ensures name == if IsMarked(name) then TrimSuffix(name, "/") + "/" else TrimSuffix(name, "/")
  {
    SplitAppend(r.endpoint, TrimSuffix(name, "/"), SLASH);
  }

  lemma {:induction false} Rooted(routes: seq<Route>, p: string)
    requires IsTree(routes) && p in Endpoints(routes)
    ensures p == "" || HasPrefix(p, "/")
    decreases |p|
  {
    if p == "" {
    } else {
      var r, name :| r in routes && ListedAt(r, true, name, p);
      RouteEndpoint(routes, r);
      Rooted(routes, r.endpoint);
      assert p == r.endpoint + "/" + TrimSuffix(name, "/");
    }
  }

  /** Every non-empty component-prefix of an endpoint is an endpoint. */
  lemma {:induction false} AncestorListed(routes: seq<Route>, p: string, q: Components)
    requires IsTree(routes) && p in Endpoints(routes)
    requires q != [] && q <= Split(p, SLASH)
    ensures Join(q, SLASH) in Endpoints(routes)
    decreases |p|
  {
    JoinSplit(p, SLASH);
    if q == Split(p, SLASH) {
    } else {
      assert p != "" by { assert Split("", SLASH) == [""]; }
      var r, name :| r in routes && ListedAt(r, true, name, p);
      PathParts(r, name);
      RouteEndpoint(routes, r);
      assert q <= Split(r.endpoint, SLASH);
      AncestorListed(routes, r.endpoint, q);
    }
  }

  ghost function Longer(routes: seq<Route>, n: nat): set<string> {
    set p | p in Endpoints(routes) && |p| > n
  }

  /** Below every endpoint there is an unmarked path. */
  lemma {:induction false} LeafExists(routes: seq<Route>, p: string) returns (x: string)
    requires IsTree(routes) && p in Endpoints(routes)
    ensures x in ListedPaths(routes, false) && Split(p, SLASH) < Split(x, SLASH)
    decreases Longer(routes, |p|)
  {
    var r := EndpointRoute(routes, p);
    var name := r.children[0];
    PathParts(r, name);
    var path := PathOf(p, name);
    if IsMarked(name) {
      assert Longer(routes, |path|) < Longer(routes, |p|) by {
        assert path in Longer(routes, |p|) && path !in Longer(routes, |path|);
      }
      x := LeafExists(routes, path);
    } else {
      x := path;
      ListedPathsMember(routes, false, x);
      assert ListedAt(r, false, name, x);
    }
  }

  // ----- The history of a tree -----

  /** The history made of the unmarked paths. */
  ghost function Leaves(routes: seq<Route>): set<Components> {
    History(ListedPaths(routes, false))
  }

  lemma LeafSource(routes: seq<Route>, e: Components) returns (r: Route, name: string)
    requires IsTree(routes) && e in Leaves(routes)
    ensures r in routes && name in r.children && !IsMarked(name)
    ensures e == Split(PathOf(r.endpoint, name), SLASH) == Split(r.endpoint, SLASH) + [name]
  {
    var x :| x in ListedPaths(routes, false) && e == ComponentsOf(x);
    ListedPathsMember(routes, false, x);
    r, name :| r in routes && ListedAt(r, false, name, x);
    PathParts(r, name);
    RouteEndpoint(routes, r);
    Rooted(routes, r.endpoint);
  }

  lemma LeafInHistory(routes: seq<Route>, r: Route, name: string)
    requires IsTree(routes) && r in routes && name in r.children && !IsMarked(name)
    ensures Split(PathOf(r.endpoint, name), SLASH) in Leaves(routes)
  {
    var x := PathOf(r.endpoint, name);
    assert ListedAt(r, false, name, x);
    ListedPathsMember(routes, false, x);
    RouteEndpoint(routes, r);
    Rooted(routes, r.endpoint);
    assert ComponentsOf(x) in Leaves(routes);
  }

  lemma KeyIsEndpoint(routes: seq<Route>, p: string)
    requires IsTree(routes)
    ensures p in TrieOf(Leaves(routes)) <==> p in Endpoints(routes)
  {
    var E, q := Leaves(routes), Split(p, SLASH);
    HistoryWellFormed(ListedPaths(routes, false));
    KeyIsDir(E, p);
    JoinSplit(p, SLASH);
    if IsDir(E, q) {
      var e :| e in E && q < e;
      var r, name := LeafSource(routes, e);
      RouteEndpoint(routes, r);
      assert q <= Split(r.endpoint, SLASH);
      AncestorListed(routes, r.endpoint, q);
    }
    if p in Endpoints(routes) {
      var x := LeafExists(routes, p);
      LeafComponents(routes, x);
    }
  }

  lemma LeafComponents(routes: seq<Route>, x: string)
    requires IsTree(routes) && x in ListedPaths(routes, false)
    ensures Split(x, SLASH) in Leaves(routes)
  {
    ListedPathsMember(routes, false, x);
    var r, name :| r in routes && ListedAt(r, false, name, x);
    LeafInHistory(routes, r, name);
  }

  /** A marked child of the trie is listed with its slash. */
  lemma DirListed(routes: seq<Route>, r: Route, c: string)
    requires IsTree(routes) && r in routes && SLASH !in c
    ensures r.endpoint + "/" + c in Endpoints(routes) <==> c + "/" in r.children
  {
    var path := r.endpoint + "/" + c;
    assert TrimSuffix(c + "/", "/") == c && IsMarked(c + "/");
    if path in Endpoints(routes) {
      var r', name :| r' in routes && ListedAt(r', true, name, path);
      PathParts(r', name);
      SplitAppend(r.endpoint, c, SLASH);
      SplitAppendInjective(r.endpoint, c, r'.endpoint, TrimSuffix(name, "/"), SLASH);
      OneRoutePerEndpoint(routes, r, r');
    }
  }

  lemma ChildrenAreMarked(routes: seq<Route>, r: Route, name: string)
    requires IsTree(routes) && r in routes && name in r.children
    ensures r.endpoint in TrieOf(Leaves(routes)) && name in Marked(TrieOf(Leaves(routes)), r.endpoint)
  {
    var E, q, c := Leaves(routes), Split(r.endpoint, SLASH), TrimSuffix(name, "/");
    HistoryWellFormed(ListedPaths(routes, false));
    RouteEndpoint(routes, r);
    KeyIsEndpoint(routes, r.endpoint);
    KeyIsEndpoint(routes, r.endpoint + "/" + c);
    PathParts(r, name);
    DirListed(routes, r, c);
    KidIsBranch(E, q, c);
    assert Join([r.endpoint, c], SLASH) == r.endpoint + "/" + c;
    if IsMarked(name) {
      KeyIsDir(E, r.endpoint + "/" + c);
      DirIsBranch(E, q + [c]);
    } else {
      LeafInHistory(routes, r, name);
    }
    assert name == Mark(TrieOf(E), r.endpoint, c);
  }

  lemma MarkedAreChildren(routes: seq<Route>, r: Route, c: string)
    requires IsTree(routes) && r in routes
    requires r.endpoint in TrieOf(Leaves(routes)) && c in TrieOf(Leaves(routes))[r.endpoint]
    ensures Mark(TrieOf(Leaves(routes)), r.endpoint, c) in r.children
  {
    var E, q := Leaves(routes), Split(r.endpoint, SLASH);
    HistoryWellFormed(ListedPaths(routes, false));
    KidSlashFree(E, r.endpoint, c);
    KeyIsEndpoint(routes, r.endpoint + "/" + c);
    DirListed(routes, r, c);
    assert Join([r.endpoint, c], SLASH) == r.endpoint + "/" + c;
    if r.endpoint + "/" + c !in TrieOf(E) {
      KidIsBranch(E, q, c);
      KeyIsDir(E, r.endpoint + "/" + c);
      BranchDirOrMaximal(E, q + [c]);
      var r', name := LeafSource(routes, q + [c]);
      LeafListedHere(routes, r, c, r', name);
    }
  }

  lemma LeafListedHere(routes: seq<Route>, r: Route, c: string, r': Route, name: string)
    requires IsTree(routes) && r in routes && r' in routes && name in r'.children
    requires Split(r.endpoint, SLASH) + [c] == Split(r'.endpoint, SLASH) + [name]
    ensures r == r' && c == name
  {
    SplitAppendInjective(r.endpoint, c, r'.endpoint, name, SLASH);
    OneRoutePerEndpoint(routes, r, r');
  }

  /** A well-formed tree is the listing of its unmarked paths. */
  lemma TreeIsListing(routes: seq<Route>)
    requires IsTree(routes)
    ensures Lists(Leaves(routes), routes)
  {
    var m := TrieOf(Leaves(routes));
    forall p ensures p in Endpoints(routes) <==> p in m {
      KeyIsEndpoint(routes, p);
    }
    forall i | 0 <= i < |routes| ensures ListsChildren(m, routes[i]) {
      var r := routes[i];
      RouteEndpoint(routes, r);
      assert GoodNames(r.children);
      forall name | name in r.children ensures name in Marked(m, r.endpoint) {
        ChildrenAreMarked(routes, r, name);
      }
      forall name | name in Marked(m, r.endpoint) ensures name in r.children {
        var c :| c in m[r.endpoint] && name == Mark(m, r.endpoint, c);
        MarkedAreChildren(routes, r, c);
      }
    }
  }

  // ----- Listings are trees -----

  lemma ListedNamesGood(E: set<Components>, r: Route)
    requires AllWellFormed(E) && ListsChildren(TrieOf(E), r)
    ensures GoodNames(r.children)
  {
    TrieAncestorClosed(E);
    var c :| c in TrieOf(E)[r.endpoint];
    assert Mark(TrieOf(E), r.endpoint, c) in Marked(TrieOf(E), r.endpoint);
    forall name | name in r.children ensures SLASH !in TrimSuffix(name, "/") {
      var k := NameToKid(E, r, name);
      KidSlashFree(E, r.endpoint, k);
    }
    forall k | k in r.children ensures k + "/" !in r.children {
      OneNamePerKid(E, r, k);
    }
  }

  lemma ListingIsTree(E: set<Components>, routes: seq<Route>)
    requires AllWellFormed(E) && Lists(E, routes)
    ensures IsTree(routes)
  {
    TrieAncestorClosed(E);
    if routes != [] {
      assert Endpoints(routes)[0] in TrieOf(E);
    }
    forall r | r in routes ensures GoodNames(r.children) {
      var i :| 0 <= i < |routes| && routes[i] == r;
      ListedNamesGood(E, r);
    }
    forall r, name | r in routes && name in r.children && IsMarked(name)
      ensures PathOf(r.endpoint, name) in Endpoints(routes)
    {
      var i :| 0 <= i < |routes| && routes[i] == r;
      var c := NameToKid(E, r, name);
    }
    forall p | p in Endpoints(routes) && p != "" ensures HasParent(routes, p) {
      MarkedPathsAreEndpoints(E, routes, p);
      ListedPathsMember(routes, true, p);
    }
  }

  /** The listings that builders produce are exactly the well-formed trees. */
  lemma ListingsAreTrees(routes: seq<Route>)
    ensures IsTree(routes) <==> exists E :: AllWellFormed(E) && Lists(E, routes)
  {
    if IsTree(routes) {
      HistoryWellFormed(ListedPaths(routes, false));
      TreeIsListing(routes);
    }
    if E :| AllWellFormed(E) && Lists(E, routes) {
      ListingIsTree(E, routes);
    }
  }
}
