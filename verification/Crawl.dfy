/**
  A client that discovers a metadata site by following its listings: names that
  end in a slash are descended into, the others are collected.
*/
module Crawl {
  import opened GoStrings
  import opened Ordering
  import opened Wrappers
  import opened Ec2
  import opened EndpointTrie
  import opened Listing
  import opened Routing
  import opened Responses

  /** What a client reads at each path: the names listed there. */
  type Site = map<string, seq<string>>

  /** The measure of a crawl: descending only ever moves to longer paths. */
  ghost function AtLeast(site: Site, n: nat): set<string> {
    set k | k in site && |k| >= n
  }

  function From(site: Site, p: string): (found: seq<string>)
    decreases AtLeast(site, |p|), 1, 0
  {
    if p in site then FromNames(site, p, site[p]) else []
  }

  function FromNames(site: Site, p: string, names: seq<string>): (found: seq<string>)
    requires p in site
    decreases AtLeast(site, |p|), 0, |names|
  {
    if names == [] then []
    else
      var path := PathOf(p, names[0]);
      assert AtLeast(site, |path|) < AtLeast(site, |p|) by {
        assert p in AtLeast(site, |p|) && p !in AtLeast(site, |path|);
      }
      (if IsMarked(names[0]) then From(site, path) else [path]) + FromNames(site, p, names[1..])
  }

  /** The site serves, at every directory of E, the listing of E. */
  ghost predicate Serves(site: Site, E: set<Components>) {
    forall p :: p in TrieOf(E) ==> p in site && ListsChildren(TrieOf(E), Route(p, site[p]))
  }

  /** x spells a maximal endpoint of E strictly below the directory p. */
  ghost predicate LeafBelow(E: set<Components>, p: string, x: string) {
    Split(x, SLASH) in Maximal(E) && Split(p, SLASH) < Split(x, SLASH)
  }

  /** x spells a maximal endpoint of E at or below the path of one of these names listed at p. */
  ghost predicate LeafUnder(E: set<Components>, p: string, names: seq<string>, x: string) {
    Split(x, SLASH) in Maximal(E) && exists name :: name in names && Split(PathOf(p, name), SLASH) <= Split(x, SLASH)
  }

  /** A found path begins with the listed name it was found under. */
  ghost predicate Under(p: string, name: string, x: string) {
    x == p + "/" + name || (IsMarked(name) && p + "/" + name <= x)
  }

  // ----- Order -----

  /** Everything found under an earlier name precedes everything found under a later one. */
  lemma {:induction false} NamesSeparate(d: string, x: string, d': string, x': string)
    requires Less(d, d')
    requires x == d || (IsMarked(d) && d <= x)
    requires d' <= x'
    requires forall i :: 0 <= i < |d'| - 1 ==> d'[i] != SLASH
    ensures Less(x, x')
  {
    if d == "" {
    } else if d[0] == d'[0] {
      assert |d| == 1 ==> d[|d| - 1..] == d;
      assert IsMarked(d) ==> d[1..][|d| - 2..] == d[|d| - 1..];
      forall i | 0 <= i < |d'[1..]| - 1 ensures d'[1..][i] != SLASH {
        assert d'[1..][i] == d'[i + 1];
      }
      NamesSeparate(d[1..], x[1..], d'[1..], x'[1..]);
    }
  }

  lemma UnderSeparate(p: string, name: string, x: string, name': string, x': string)
    requires Less(name, name') && Under(p, name, x) && Under(p, name', x')
    requires forall i :: 0 <= i < |name'| - 1 ==> name'[i] != SLASH
    ensures Less(x, x')
  {
    var stem := p + "/";
    var d, d' := x[|stem|..], x'[|stem|..];
    assert x == stem + d && x' == stem + d';
    NamesSeparate(name, d, name', d');
    LessAfterCommonPrefix(stem, d, d');
  }

  lemma FoundSeparate(E: set<Components>, r: Route, name: string, x: string, name': string, x': string)
    requires AllWellFormed(E) && ListsChildren(TrieOf(E), r)
    requires name in r.children && name' in r.children && Less(name, name')
    requires Under(r.endpoint, name, x) && Under(r.endpoint, name', x')
    ensures Less(x, x')
  {
    var c' := NameToKid(E, r, name');
    KidSlashFree(E, r.endpoint, c');
    forall i | 0 <= i < |name'| - 1 ensures name'[i] != SLASH {
      assert name'[i] == c'[i];
    }
    UnderSeparate(r.endpoint, name, x, name', x');
  }

  // ----- The crawl -----

  lemma {:induction false} StrictlySortedConcat(xs: seq<string>, ys: seq<string>)
    requires StrictlySorted(xs) && StrictlySorted(ys)
    requires forall x, y :: x in xs && y in ys ==> Less(x, y)
    ensures StrictlySorted(xs + ys)
  {
  }

  /** From a directory, the crawl finds the maximal endpoints below it, each once, in order. */
  lemma {:induction false} FromDirectory(site: Site, E: set<Components>, p: string)
    requires AllWellFormed(E) && Serves(site, E) && p in TrieOf(E)
    ensures StrictlySorted(From(site, p))
    ensures forall x :: x in From(site, p) <==> LeafBelow(E, p, x)
    decreases AtLeast(site, |p|), 1, 0
  {
    var r := Route(p, site[p]);
    FromListed(site, E, r, r.children);
    forall x ensures LeafUnder(E, p, r.children, x) <==> LeafBelow(E, p, x) {
      LeafUnderAll(E, r, x);
    }
  }

  lemma LeafUnderAll(E: set<Components>, r: Route, x: string)
    requires AllWellFormed(E) && ListsChildren(TrieOf(E), r)
    ensures LeafUnder(E, r.endpoint, r.children, x) <==> LeafBelow(E, r.endpoint, x)
  {
    var q, e := Split(r.endpoint, SLASH), Split(x, SLASH);
    if LeafUnder(E, r.endpoint, r.children, x) {
      var name :| name in r.children && Split(PathOf(r.endpoint, name), SLASH) <= e;
      var c := NameToKid(E, r, name);
      assert q < q + [c];
    }
    if LeafBelow(E, r.endpoint, x) {
      var c := e[|q|];
      StepIsBranch(E, q, e);
      KidToName(E, r, c);
      MarkTrims(E, r.endpoint, c);
      KidSlashFree(E, r.endpoint, c);
      var name := Mark(TrieOf(E), r.endpoint, c);
      assert name in r.children && Split(PathOf(r.endpoint, name), SLASH) == q + [c] <= e;
    }
  }

  /** Where each found path was found. */
  ghost predicate AllUnder(p: string, names: seq<string>, found: seq<string>) {
    forall x :: x in found ==> exists name :: name in names && Under(p, name, x)
  }

  lemma FoundInOrder(E: set<Components>, r: Route, name: string, rest: seq<string>,
                     here: seq<string>, later: seq<string>)
    requires AllWellFormed(E) && ListsChildren(TrieOf(E), r)
    requires name in r.children && forall name' :: name' in rest ==> name' in r.children && Less(name, name')
    requires forall x :: x in here ==> Under(r.endpoint, name, x)
    requires AllUnder(r.endpoint, rest, later)
    ensures forall x, y :: x in here && y in later ==> Less(x, y)
  {
    forall x, y | x in here && y in later ensures Less(x, y) {
      var name' :| name' in rest && Under(r.endpoint, name', y);
      FoundSeparate(E, r, name, x, name', y);
    }
  }

  lemma UnderCons(p: string, name: string, rest: seq<string>, here: seq<string>, later: seq<string>)
    requires forall x :: x in here ==> Under(p, name, x)
    requires AllUnder(p, rest, later)
    ensures AllUnder(p, [name] + rest, here + later)
  {
  }

  lemma {:induction false} FromListed(site: Site, E: set<Components>, r: Route, names: seq<string>)
    requires AllWellFormed(E) && Serves(site, E)
    requires r.endpoint in site && ListsChildren(TrieOf(E), r)
    requires StrictlySorted(names) && forall name :: name in names ==> name in r.children
    ensures StrictlySorted(FromNames(site, r.endpoint, names))
    ensures forall x :: x in FromNames(site, r.endpoint, names) <==> LeafUnder(E, r.endpoint, names, x)
    ensures AllUnder(r.endpoint, names, FromNames(site, r.endpoint, names))
    decreases AtLeast(site, |r.endpoint|), 0, |names|
  {
    if names == [] {
    } else {
      var name, rest := names[0], names[1..];
      assert names == [name] + rest;
      forall name' | name' in rest ensures name' in r.children && Less(name, name') {
        var j :| 0 <= j < |rest| && rest[j] == name';
        assert names[j + 1] == name';
      }
      FromListed(site, E, r, rest);
      FromOne(site, E, r, name);
      var here, later := FromOneName(site, r.endpoint, name), FromNames(site, r.endpoint, rest);
      FoundInOrder(E, r, name, rest, here, later);
      StrictlySortedConcat(here, later);
      UnderCons(r.endpoint, name, rest, here, later);
      LeafUnderCons(E, r.endpoint, name, rest);
    }
  }

  lemma LeafUnderCons(E: set<Components>, p: string, name: string, rest: seq<string>)
    ensures forall x :: LeafUnder(E, p, [name] + rest, x) <==> LeafUnder(E, p, [name], x) || LeafUnder(E, p, rest, x)
  {
  }

  function FromOneName(site: Site, p: string, name: string): seq<string> {
    if IsMarked(name) then From(site, PathOf(p, name)) else [PathOf(p, name)]
  }

  lemma FromOne(site: Site, E: set<Components>, r: Route, name: string)
    requires AllWellFormed(E) && Serves(site, E)
    requires r.endpoint in site && ListsChildren(TrieOf(E), r) && name in r.children
    ensures StrictlySorted(FromOneName(site, r.endpoint, name))
    ensures forall x :: x in FromOneName(site, r.endpoint, name) <==> LeafUnder(E, r.endpoint, [name], x)
    ensures forall x :: x in FromOneName(site, r.endpoint, name) ==> Under(r.endpoint, name, x)
    decreases AtLeast(site, |r.endpoint|), 0, 0
  {
    var path := PathOf(r.endpoint, name);
    var c := NameToKid(E, r, name);
    if IsMarked(name) {
      assert AtLeast(site, |path|) < AtLeast(site, |r.endpoint|) by {
        assert r.endpoint in AtLeast(site, |r.endpoint|) && r.endpoint !in AtLeast(site, |path|);
      }
      FromDirectory(site, E, path);
      MarkedLeaves(E, r, name);
    } else {
      UnmarkedLeaf(E, r, name);
    }
  }

  lemma MarkedLeaves(E: set<Components>, r: Route, name: string)
    requires AllWellFormed(E) && ListsChildren(TrieOf(E), r) && name in r.children && IsMarked(name)
    ensures forall x :: LeafBelow(E, PathOf(r.endpoint, name), x) <==> LeafUnder(E, r.endpoint, [name], x)
    ensures forall x :: LeafBelow(E, PathOf(r.endpoint, name), x) ==> Under(r.endpoint, name, x)
  {
    var path := PathOf(r.endpoint, name);
    var c := NameToKid(E, r, name);
    KeyIsDir(E, path);
    DirNotMaximal(E, Split(path, SLASH));
    OnlyLeavesBelow(E, r.endpoint, name);
    forall x | LeafBelow(E, path, x) ensures Under(r.endpoint, name, x) {
      BelowIsUnder(r.endpoint, name, x);
    }
  }

  lemma OnlyLeavesBelow(E: set<Components>, p: string, name: string)
    requires Split(PathOf(p, name), SLASH) !in Maximal(E)
    ensures forall x :: LeafBelow(E, PathOf(p, name), x) <==> LeafUnder(E, p, [name], x)
  {
    assert name in [name];
    forall x ensures LeafBelow(E, PathOf(p, name), x) <==> LeafUnder(E, p, [name], x) {
      var q, e := Split(PathOf(p, name), SLASH), Split(x, SLASH);
      assert q <= e && |q| == |e| ==> q == e;
    }
  }

  lemma BelowIsUnder(p: string, name: string, x: string)
    requires IsMarked(name) && Split(PathOf(p, name), SLASH) < Split(x, SLASH)
    ensures Under(p, name, x)
  {
    SplitPrefix(PathOf(p, name), x, SLASH);
    assert name == TrimSuffix(name, "/") + "/";
    assert p + "/" + name == PathOf(p, name) + "/";
  }

  lemma DirNotMaximal(E: set<Components>, q: Components)
    requires IsDir(E, q)
    ensures q !in Maximal(E)
  {
  }

  lemma UnmarkedLeaf(E: set<Components>, r: Route, name: string)
    requires AllWellFormed(E) && ListsChildren(TrieOf(E), r) && name in r.children && !IsMarked(name)
    ensures forall x :: x == PathOf(r.endpoint, name) <==> LeafUnder(E, r.endpoint, [name], x)
    ensures Under(r.endpoint, name, PathOf(r.endpoint, name))
  {
    var path := PathOf(r.endpoint, name);
    var q := Split(path, SLASH);
    var c := NameToKid(E, r, name);
    KeyIsDir(E, path);
    BranchDirOrMaximal(E, q);
    JoinSplit(path, SLASH);
    assert q in Maximal(E) && name in [name];
    forall x ensures x == path ==> LeafUnder(E, r.endpoint, [name], x) {
      assert Split(PathOf(r.endpoint, name), SLASH) <= q;
    }
    forall x ensures LeafUnder(E, r.endpoint, [name], x) ==> x == path {
      JoinSplit(x, SLASH);
      if LeafUnder(E, r.endpoint, [name], x) {
        assert q <= Split(x, SLASH) && !(q < Split(x, SLASH));
        assert q == Split(x, SLASH);
      }
    }
  }

  /** The crawl finds the spellings of the maximal endpoints and nothing else. */
  ghost predicate Discovers(site: Site, E: set<Components>) {
    forall x :: x in From(site, "") <==> Split(x, SLASH) in Maximal(E)
  }

  /**
    Crawl equals sort: from the root, a client finds the spellings of the
    maximal endpoints, each exactly once, in strictly increasing order.
  */
  lemma CrawlEqualsSort(site: Site, E: set<Components>)
    requires AllWellFormed(E) && E != {} && Serves(site, E)
    ensures StrictlySorted(From(site, "")) && Discovers(site, E)
  {
    var e :| e in E;
    var root: Components := [""];
    assert root < e;
    assert Split("", SLASH) == root;
    KeyIsDir(E, "");
    FromDirectory(site, E, "");
    forall x | Split(x, SLASH) in Maximal(E) ensures LeafBelow(E, "", x) {
      assert root < Split(x, SLASH);
    }
  }

  // ----- Listings read from served text -----

  /** A listing can be read back from its body if and only if it is non-empty and no name holds a newline. */
  lemma BodyReadable(names: seq<string>)
    ensures Split(JoinLines(names), NEWLINE) == names <==> names != [] && SeparatorFree(names, NEWLINE)
  {
    if names != [] && SeparatorFree(names, NEWLINE) {
      SplitJoin(names, NEWLINE);
    }
  }

  ghost predicate NewlineFree(E: set<Components>) {
    forall e :: e in E ==> SeparatorFree(e, NEWLINE)
  }

  /** A client recovers a listing by splitting the served body into lines. */
  lemma BodyRoundTrip(E: set<Components>, r: Route)
    requires AllWellFormed(E) && NewlineFree(E) && ListsChildren(TrieOf(E), r)
    ensures Split(JoinLines(r.children), NEWLINE) == r.children
  {
    forall i | 0 <= i < |r.children| ensures NEWLINE !in r.children[i] {
      var name := r.children[i];
      var c := NameToKid(E, r, name);
      var q := Split(r.endpoint, SLASH);
      var e :| e in E && q + [c] <= e;
      assert c == (q + [c])[|q|] == e[|q|];
    }
    TrieAncestorClosed(E);
    var c :| c in TrieOf(E)[r.endpoint];
    assert Mark(TrieOf(E), r.endpoint, c) in r.children;
    BodyReadable(r.children);
  }

  ghost function NamesAt(routes: seq<Route>, p: string): (names: seq<string>)
    requires p in Endpoints(routes)
    ensures Route(p, names) in routes
  {
    var i :| 0 <= i < |routes| && Endpoints(routes)[i] == p;
    assert routes[i] in routes;
    routes[i].children
  }

  /** What a client reads from a response: the lines of its body. */
  function LinesOf(response: Response): seq<string> {
    Split(response.body, NEWLINE)
  }

  /** The site served by a list of routes to one remote address, each listing read from its response. */
  ghost function SiteOf(routes: seq<Route>, remote: Option<string>, client: Backend): Site {
    map p | p in Endpoints(routes) :: LinesOf(Respond(StaticHandler(NamesAt(routes, p)), remote, client))
  }

  /** Every added endpoint is newline-free if and only if the maximal ones are. */
  lemma NewlineFreeMaximal(E: set<Components>)
    ensures NewlineFree(E) <==> NewlineFree(Maximal(E))
  {
    if NewlineFree(Maximal(E)) {
      forall e | e in E ensures SeparatorFree(e, NEWLINE) {
        var m := ExtendsToMaximal(E, e);
        assert m in Maximal(E);
        forall i | 0 <= i < |e| ensures NEWLINE !in e[i] {
          assert e[i] == m[i];
        }
      }
    }
  }

  /** No listing of the site holds a newline, as is so of listings recovered from lines. */
  ghost predicate ReadByLines(site: Site) {
    forall p :: p in site ==> SeparatorFree(site[p], NEWLINE)
  }

  /** A path put together from lines holds no newline. */
  lemma {:induction false} FromReadsLines(site: Site, p: string)
    requires ReadByLines(site) && NEWLINE !in p
    ensures SeparatorFree(From(site, p), NEWLINE)
    decreases AtLeast(site, |p|), 1, 0
  {
    if p in site {
      FromNamesReadsLines(site, p, site[p]);
    }
  }

  lemma {:induction false} FromNamesReadsLines(site: Site, p: string, names: seq<string>)
    requires ReadByLines(site) && NEWLINE !in p
    requires p in site && SeparatorFree(names, NEWLINE)
    ensures SeparatorFree(FromNames(site, p, names), NEWLINE)
    decreases AtLeast(site, |p|), 0, |names|
  {
    if names == [] {
    } else {
      var path := PathOf(p, names[0]);
      assert NEWLINE !in path;
      assert AtLeast(site, |path|) < AtLeast(site, |p|) by {
        assert p in AtLeast(site, |p|) && p !in AtLeast(site, |path|);
      }
      if IsMarked(names[0]) {
        FromReadsLines(site, path);
      }
      FromNamesReadsLines(site, p, names[1..]);
    }
  }

  /** A client that reads lines can only find every maximal endpoint when all are newline-free. */
  lemma FoundByLines(site: Site, E: set<Components>)
    requires AllWellFormed(E) && ReadByLines(site)
    requires forall e :: e in Maximal(E) ==> Join(e, SLASH) in From(site, "")
    ensures NewlineFree(E)
  {
    FromReadsLines(site, "");
    forall e | e in Maximal(E) ensures SeparatorFree(e, NEWLINE) {
      var i :| 0 <= i < |From(site, "")| && From(site, "")[i] == Join(e, SLASH);
      SplitAvoids(Join(e, SLASH), SLASH, NEWLINE);
      SplitJoin(e, SLASH);
    }
    NewlineFreeMaximal(E);
  }

  lemma RoutesServe(E: set<Components>, routes: seq<Route>, remote: Option<string>, client: Backend)
    requires AllWellFormed(E) && NewlineFree(E) && Lists(E, routes)
    ensures Serves(SiteOf(routes, remote, client), E)
  {
    var site := SiteOf(routes, remote, client);
    forall p | p in TrieOf(E) ensures p in site && ListsChildren(TrieOf(E), Route(p, site[p])) {
      var r := Route(p, NamesAt(routes, p));
      var i :| 0 <= i < |routes| && routes[i] == r;
      BodyRoundTrip(E, r);
    }
  }

  lemma RoutesDiscover(E: set<Components>, routes: seq<Route>, remote: Option<string>, client: Backend)
    requires AllWellFormed(E) && Lists(E, routes) && NewlineFree(E)
    ensures Discovers(SiteOf(routes, remote, client), E) && StrictlySorted(From(SiteOf(routes, remote, client), ""))
  {
    if E == {} {
      KeyIsDir(E, "");
      assert "" !in SiteOf(routes, remote, client);
    } else {
      RoutesServe(E, routes, remote, client);
      CrawlEqualsSort(SiteOf(routes, remote, client), E);
    }
  }

  lemma DiscoveredByLines(site: Site, E: set<Components>)
    requires AllWellFormed(E) && ReadByLines(site) && Discovers(site, E)
    ensures NewlineFree(E)
  {
    forall e | e in Maximal(E) ensures Join(e, SLASH) in From(site, "") {
      SplitJoin(e, SLASH);
    }
    FoundByLines(site, E);
  }

  /**
    A client that only reads bodies from the built routes discovers exactly the
    maximal endpoints of the history if and only if no endpoint holds a newline,
    and then finds each exactly once, in strictly increasing order.
  */
  lemma CrawlOfRoutes(E: set<Components>, routes: seq<Route>, remote: Option<string>, client: Backend)
    requires AllWellFormed(E) && Lists(E, routes)
    ensures Discovers(SiteOf(routes, remote, client), E) <==> NewlineFree(E)
    ensures NewlineFree(E) ==> StrictlySorted(From(SiteOf(routes, remote, client), ""))
  {
    if NewlineFree(E) {
      RoutesDiscover(E, routes, remote, client);
    }
    if Discovers(SiteOf(routes, remote, client), E) {
      DiscoveredByLines(SiteOf(routes, remote, client), E);
    }
  }
}
