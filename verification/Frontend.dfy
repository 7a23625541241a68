/**
  Composing data endpoints, static routes and slash twins into one routing
  table, and when that succeeds.
*/
module Frontend {
  import opened GoStrings
  import opened Ordering
  import opened Ec2
  import opened EndpointTrie
  import opened Listing
  import opened StaticRoute
  import opened Routing

  const BASE := "/2009-04-04"

  // ----- Configure -----

  function DataRegistrations(routes: seq<DataRoute>): (rs: seq<Registration>)
    ensures |rs| == |routes|
    ensures forall i :: 0 <= i < |routes| ==>
              rs[i] == Registration(Relative(routes[i].endpoint), DataHandler(routes[i].filter))
  {
    seq(|routes|, i requires 0 <= i < |routes| =>
          Registration(Relative(routes[i].endpoint), DataHandler(routes[i].filter)))
  }

  function StaticRegistrations(listing: seq<Route>): (rs: seq<Registration>)
    ensures |rs| == |listing|
    ensures forall i :: 0 <= i < |listing| ==>
              rs[i] == Registration(listing[i].endpoint, StaticHandler(listing[i].children))
  {
    seq(|listing|, i requires 0 <= i < |listing| =>
          Registration(listing[i].endpoint, StaticHandler(listing[i].children)))
  }

  /** Everything Configure asks the slash helper to register, in order. */
  function Registrations(routes: seq<DataRoute>, listing: seq<Route>): seq<Registration> {
    DataRegistrations(routes) + StaticRegistrations(listing)
  }

  function Configuration(table: Table, routes: seq<DataRoute>, listing: seq<Route>): (Table, bool) {
    RegisterAll(table, AllTwins(BASE, Registrations(routes, listing)))
  }

  /** The endpoints of the data routes, each with its leading slash. */
  function RootedEndpoints(routes: seq<DataRoute>): (endpoints: seq<string>)
    ensures |endpoints| == |routes|
    ensures forall i :: 0 <= i < |routes| ==> endpoints[i] == Normalise(routes[i].endpoint)
  {
    seq(|routes|, i requires 0 <= i < |routes| => Normalise(routes[i].endpoint))
  }

  lemma SameComponents(endpoint: string)
    ensures ComponentsOf(Normalise(endpoint)) == ComponentsOf(endpoint)
  {
  }

  ghost function HistoryOf(routes: seq<DataRoute>): set<Components> {
    History(RootedEndpoints(routes))
  }

  /** What the first n of these registrations, with their twins, make of a table. */
  ghost predicate Progress(before: Table, rs: seq<Registration>, n: nat, table: Table, ok: bool)
    requires n <= |rs|
  {
    (table, ok) == RegisterAll(before, AllTwins(BASE, rs[..n]))
  }

  /** Binds one endpoint to its handler, through the slash helper. */
  method Bind(v20090404: TrailingSlashRouteHelper, endpoint: string, handler: Handler,
              ghost before: Table, ghost rs: seq<Registration>, ghost n: nat) returns (ok: bool)
    requires v20090404.base == BASE
    requires n < |rs| && rs[n] == Registration(Relative(endpoint), handler)
    requires Progress(before, rs, n, v20090404.router.table, true)
    modifies v20090404.router
    ensures Progress(before, rs, n + 1, v20090404.router.table, ok)
    ensures !ok ==> Progress(before, rs, |rs|, v20090404.router.table, false)
  {
    RegisterNext(before, rs, n);
    ok := v20090404.GET(endpoint, handler);
    assert rs[..|rs|] == rs;
    if !ok {
      RefusalStays(before, rs, n + 1);
    }
  }

  lemma NoProgress(before: Table, rs: seq<Registration>)
    ensures Progress(before, rs, 0, before, true)
  {
  }

  /** One turn of the loop over the data routes: bind the route, then feed its endpoint to the static route builder. */
  method BindRoute(v20090404: TrailingSlashRouteHelper, staticRoutes: Builder, r: DataRoute,
                   ghost before: Table, ghost rs: seq<Registration>, ghost n: nat) returns (ok: bool)
    requires v20090404.base == BASE && staticRoutes.Valid()
    requires n < |rs| && rs[n] == Registration(Relative(r.endpoint), DataHandler(r.filter))
    requires Progress(before, rs, n, v20090404.router.table, true)
    modifies v20090404.router, staticRoutes, staticRoutes.b.Values
    ensures staticRoutes.Valid() && fresh(staticRoutes.b.Values - old(staticRoutes.b.Values))
    ensures Progress(before, rs, n + 1, v20090404.router.table, ok)
    ensures ok ==> staticRoutes.added == old(staticRoutes.added) + {ComponentsOf(r.endpoint)}
    ensures !ok ==> Progress(before, rs, |rs|, v20090404.router.table, false)
  {
    ok := Bind(v20090404, r.endpoint, DataHandler(r.filter), before, rs, n);
    if ok {
      staticRoutes.FromEndpoint(r.endpoint);
    }
  }

  method BindData(v20090404: TrailingSlashRouteHelper, staticRoutes: Builder, routes: seq<DataRoute>) returns (ok: bool)
    requires v20090404.base == BASE
    requires staticRoutes.Valid() && staticRoutes.added == {}
    modifies v20090404.router, staticRoutes, staticRoutes.b.Values
    ensures staticRoutes.Valid()
    ensures Progress(old(v20090404.router.table), DataRegistrations(routes), |routes|, v20090404.router.table, ok)
    ensures ok ==> staticRoutes.added == HistoryOf(routes)
    ensures fresh(staticRoutes.b.Values - old(staticRoutes.b.Values))
  {
    var router := v20090404.router;
    ghost var before, data := router.table, DataRegistrations(routes);
    ghost var endpoints := RootedEndpoints(routes);
    assert History(endpoints[..0]) == {};
    NoProgress(before, data);
    for n := 0 to |routes|
      invariant staticRoutes.Valid() && staticRoutes.added == History(endpoints[..n])
      invariant fresh(staticRoutes.b.Values - old(staticRoutes.b.Values))
      invariant Progress(before, data, n, router.table, true)
    {
      ok := BindRoute(v20090404, staticRoutes, routes[n], before, data, n);
      if !ok {
        return;
      }
      HistoryStep(endpoints, n);
      SameComponents(routes[n].endpoint);
    }
    assert endpoints[..|routes|] == endpoints;
    ok := true;
  }

  /** A built endpoint is empty or has its leading slash. */
  lemma ListedAreRelative(E: set<Components>, listing: seq<Route>)
    requires AllWellFormed(E) && Lists(E, listing)
    ensures forall i :: 0 <= i < |listing| ==> Relative(listing[i].endpoint) == listing[i].endpoint
  {
    forall i | 0 <= i < |listing| ensures Relative(listing[i].endpoint) == listing[i].endpoint {
      var p := Endpoints(listing)[i];
      KeyIsDir(E, p);
      JoinSplit(p, SLASH);
    }
  }

  /** The loop over the built static routes. */
  method BindStatic(v20090404: TrailingSlashRouteHelper, listing: seq<Route>) returns (ok: bool)
    requires v20090404.base == BASE
    requires forall i :: 0 <= i < |listing| ==> Relative(listing[i].endpoint) == listing[i].endpoint
    modifies v20090404.router
    ensures Progress(old(v20090404.router.table), StaticRegistrations(listing), |listing|, v20090404.router.table, ok)
  {
    var router := v20090404.router;
    ghost var before, rs := router.table, StaticRegistrations(listing);
    NoProgress(before, rs);
    for n := 0 to |listing|
      invariant Progress(before, rs, n, router.table, true)
    {
      ok := Bind(v20090404, listing[n].endpoint, StaticHandler(listing[n].children), before, rs, n);
      if !ok {
        return;
      }
    }
    ok := true;
  }

  lemma DataRefused(before: Table, routes: seq<DataRoute>, listing: seq<Route>, after: Table)
    requires Progress(before, DataRegistrations(routes), |routes|, after, false)
    ensures Configuration(before, routes, listing) == (after, false)
  {
    var data, static_ := DataRegistrations(routes), StaticRegistrations(listing);
    assert data[..|routes|] == data;
    AllTwinsAppend(BASE, data, static_);
    RegisterAppend(before, AllTwins(BASE, data), AllTwins(BASE, static_));
  }

  lemma BothLoops(before: Table, routes: seq<DataRoute>, listing: seq<Route>,
                  between: Table, after: Table, ok: bool)
    requires Progress(before, DataRegistrations(routes), |routes|, between, true)
    requires Progress(between, StaticRegistrations(listing), |listing|, after, ok)
    ensures Configuration(before, routes, listing) == (after, ok)
  {
    var data, static_ := DataRegistrations(routes), StaticRegistrations(listing);
    assert data[..|routes|] == data && static_[..|listing|] == static_;
    AllTwinsAppend(BASE, data, static_);
    RegisterAppend(before, AllTwins(BASE, data), AllTwins(BASE, static_));
  }

  /**
    Data endpoints come before static routes: when one of them is refused nothing
    else is registered, and once all are registered they stay, whether or not a
    static route is refused.
  */
  lemma DataBeforeStatic(before: Table, routes: seq<DataRoute>, listing: seq<Route>)
    ensures var twins := AllTwins(BASE, DataRegistrations(routes));
            var (between, ok) := RegisterAll(before, twins);
            var after := Configuration(before, routes, listing).0;
            && (!ok ==> Configuration(before, routes, listing) == (between, false))
            && (ok ==> forall t :: t in twins ==> t.path in after && after[t.path] == t.handler)
  {
    var data, static_ := DataRegistrations(routes), StaticRegistrations(listing);
    var twins := AllTwins(BASE, data);
    AllTwinsAppend(BASE, data, static_);
    RegisterAppend(before, twins, AllTwins(BASE, static_));
    if RegisterAll(before, twins).1 {
      RegisteredStays(before, twins, AllTwins(BASE, static_));
    }
  }

  /** Stops at the first refused registration, as gin's panic does. */
  method Configure(router: Router, routes: seq<DataRoute>) returns (ok: bool)
    modifies router
    ensures (router.table, ok) == Configuration(old(router.table), routes, ListingOf(HistoryOf(routes)))
  {
    var v20090404 := new TrailingSlashRouteHelper(router, BASE);
    var staticRoutes := new Builder();
    ghost var before := router.table;
    ok := BindData(v20090404, staticRoutes, routes);
    if ok {
      ghost var between := router.table;
      var listing := staticRoutes.Build();
      ListedAreRelative(HistoryOf(routes), listing);
      ok := BindStatic(v20090404, listing);
      BothLoops(before, routes, listing, between, router.table, ok);
    } else {
      DataRefused(before, routes, ListingOf(HistoryOf(routes)), router.table);
    }
  }

  lemma RegisterNext(before: Table, rs: seq<Registration>, n: nat)
    requires n < |rs| && RegisterAll(before, AllTwins(BASE, rs[..n])).1
    ensures RegisterAll(before, AllTwins(BASE, rs[..n + 1])) ==
              RegisterAll(RegisterAll(before, AllTwins(BASE, rs[..n])).0, Twins(BASE, rs[n]))
  {
    OneMoreTwin(BASE, rs, n);
    RegisterAppend(before, AllTwins(BASE, rs[..n]), Twins(BASE, rs[n]));
  }

  lemma RefusalStays(before: Table, rs: seq<Registration>, n: nat)
    requires n <= |rs| && !RegisterAll(before, AllTwins(BASE, rs[..n])).1
    ensures RegisterAll(before, AllTwins(BASE, rs)) == RegisterAll(before, AllTwins(BASE, rs[..n]))
  {
    assert rs == rs[..n] + rs[n..];
    AllTwinsAppend(BASE, rs[..n], rs[n..]);
    RegisterAppend(before, AllTwins(BASE, rs[..n]), AllTwins(BASE, rs[n..]));
  }

  // ----- When Configure succeeds -----

  /** A component that neither path cleaning nor route matching treats specially. */
  ghost predicate PlainComponent(c: string) {
    c != "" && c !in {".", ".."} && ':' !in c && '*' !in c
  }

  /** Plain components below the root, with an empty last one after a trailing slash. */
  ghost predicate PlainBelowRoot(q: Components) {
    forall i :: 1 <= i < |q| ==> PlainComponent(q[i]) || (i == |q| - 1 && q[i] == "")
  }

  ghost predicate Registrable(endpoint: string) {
    PlainBelowRoot(ComponentsOf(endpoint))
  }

  ghost predicate AllRegistrable(routes: seq<DataRoute>) {
    forall r :: r in routes ==> Registrable(r.endpoint)
  }

  /** No trailing slash, no repetition, and no endpoint below another. */
  ghost predicate CollisionFree(endpoints: seq<string>) {
    && (forall x :: x in endpoints ==> !HasSuffix(x, "/"))
    && NoDuplicates(endpoints)
    && PrefixFree(endpoints)
  }

  /** x is a proper component-prefix of an endpoint. */
  ghost predicate IsAbove(x: string, endpoints: seq<string>) {
    exists y :: y in endpoints && Split(x, SLASH) < Split(y, SLASH)
  }

  /** No endpoint is a proper component-prefix of another. */
  ghost predicate PrefixFree(endpoints: seq<string>) {
    forall x :: x in endpoints ==> !IsAbove(x, endpoints)
  }

  /** Nothing outside the group has been registered under its prefix. */
  ghost predicate GroupFree(table: Table) {
    forall p :: p in table ==> !(BASE <= p)
  }

  lemma EndpointComponents(routes: seq<DataRoute>, e: Components) returns (x: string)
    requires AllRegistrable(routes) && e in HistoryOf(routes)
    ensures x in RootedEndpoints(routes) && e == Split(x, SLASH) && Registrable(x) && HasPrefix(x, "/")
  {
    x :| x in RootedEndpoints(routes) && e == ComponentsOf(x);
    EndpointMember(routes, x);
  }

  lemma EndpointMember(routes: seq<DataRoute>, x: string)
    requires AllRegistrable(routes) && x in RootedEndpoints(routes)
    ensures Registrable(x) && HasPrefix(x, "/") && Split(x, SLASH) in HistoryOf(routes)
    ensures exists i :: 0 <= i < |routes| && Normalise(routes[i].endpoint) == x
  {
    var i :| 0 <= i < |routes| && RootedEndpoints(routes)[i] == x;
    SameComponents(routes[i].endpoint);
    assert routes[i] in routes && ComponentsOf(x) == Split(x, SLASH);
  }

  lemma LastNotEmpty(p: string)
    requires p != "" && Split(p, SLASH)[|Split(p, SLASH)| - 1] != ""
    ensures !HasSuffix(p, "/")
  {
    if HasSuffix(p, "/") {
      TrailingSlashAbove(p);
    }
  }

  lemma StaticHasNoTrailingSlash(routes: seq<DataRoute>, p: string)
    requires AllRegistrable(routes) && p in TrieOf(HistoryOf(routes))
    ensures !HasSuffix(p, "/")
  {
    var E, q := HistoryOf(routes), Split(p, SLASH);
    HistoryWellFormed(RootedEndpoints(routes));
    KeyIsDir(E, p);
    if p != "" {
      JoinSplit(p, SLASH);
      var e :| e in E && q < e;
      var x := EndpointComponents(routes, e);
      assert q[|q| - 1] == e[|q| - 1];
      InnerPlain(x, |q| - 1);
      LastNotEmpty(p);
    }
  }

  lemma InnerPlain(x: string, i: nat)
    requires Registrable(x) && HasPrefix(x, "/") && 1 <= i < |Split(x, SLASH)| - 1
    ensures PlainComponent(Split(x, SLASH)[i])
  {
    assert ComponentsOf(x) == Split(x, SLASH);
  }

  lemma SharedPathRefused(table: Table, rs: seq<Registration>, i: int, j: int)
    requires 0 <= i < j < |rs| && rs[i].path == rs[j].path
    ensures !RegisterAll(table, rs).1
  {
    RegisterSucceeds(table, rs);
  }

  lemma TrailingSlashAbove(x: string)
    requires HasSuffix(x, "/")
    ensures x == TrimSuffix(x, "/") + "/" && Split(x, SLASH) == Split(TrimSuffix(x, "/"), SLASH) + [""]
  {
    var f := TrimSuffix(x, "/");
    assert x == f + "/" + "";
    SplitAppend(f, "", SLASH);
  }

  lemma RootedAt(routes: seq<DataRoute>, x: string) returns (i: nat)
    requires x in RootedEndpoints(routes)
    ensures i < |routes| && Normalise(routes[i].endpoint) == x
  {
    i :| i < |routes| && RootedEndpoints(routes)[i] == x;
  }

  lemma TrailingSlashListed(routes: seq<DataRoute>, listing: seq<Route>, x: string) returns (i: nat, k: nat)
    requires AllRegistrable(routes) && Lists(HistoryOf(routes), listing)
    requires x in RootedEndpoints(routes) && HasSuffix(x, "/")
    ensures i < |routes| && Normalise(routes[i].endpoint) == x
    ensures k < |listing| && listing[k].endpoint == TrimSuffix(x, "/")
  {
    HistoryWellFormed(RootedEndpoints(routes));
    EndpointMember(routes, x);
    TrailingSlashAbove(x);
    var f := TrimSuffix(x, "/");
    assert Split(f, SLASH) < Split(x, SLASH);
    KeyIsDir(HistoryOf(routes), f);
    k := RouteFor(HistoryOf(routes), listing, f);
    i := RootedAt(routes, x);
  }

  /** What is registered for an endpoint with a trailing slash, or for an empty one, meets its directory. */
  lemma TrailingSlashPath(endpoint: string)
    requires HasSuffix(Normalise(endpoint), "/")
    ensures TrimSuffix(Normalise(endpoint), "/") ==
              if endpoint == "" then Relative(endpoint) else Alternate(Relative(endpoint))
  {
  }

  /** An endpoint with a trailing slash, or an empty one, collides with the static route of its own directory. */
  lemma TrailingSlashRefused(table: Table, routes: seq<DataRoute>, listing: seq<Route>, x: string)
    requires AllRegistrable(routes) && Lists(HistoryOf(routes), listing)
    requires x in RootedEndpoints(routes) && HasSuffix(x, "/")
    ensures !Configuration(table, routes, listing).1
  {
    var i, k := TrailingSlashListed(routes, listing, x);
    RegistrationAt(routes, listing, i, k);
    DirectoryMet(table, Registrations(routes, listing), i, |routes| + k, routes[i].endpoint);
  }

  lemma DirectoryMet(table: Table, rs: seq<Registration>, i: nat, j: nat, endpoint: string)
    requires i < j < |rs| && HasSuffix(Normalise(endpoint), "/")
    requires rs[i].path == Relative(endpoint) && rs[j].path == TrimSuffix(Normalise(endpoint), "/")
    ensures !RegisterAll(table, AllTwins(BASE, rs)).1
  {
    TrailingSlashPath(endpoint);
    if endpoint == "" {
      SamePathRefused(table, rs, i, j);
    } else {
      AlternateRefused(table, rs, i, j);
    }
  }

  lemma RegistrationAt(routes: seq<DataRoute>, listing: seq<Route>, i: nat, k: nat)
    requires i < |routes| && k < |listing|
    ensures |Registrations(routes, listing)| == |routes| + |listing|
    ensures Registrations(routes, listing)[i] ==
              Registration(Relative(routes[i].endpoint), DataHandler(routes[i].filter))
    ensures Registrations(routes, listing)[|routes| + k] ==
              Registration(listing[k].endpoint, StaticHandler(listing[k].children))
  {
  }

  lemma SamePathRefused(table: Table, rs: seq<Registration>, i: nat, j: nat)
    requires i < j < |rs| && rs[i].path == rs[j].path
    ensures !RegisterAll(table, AllTwins(BASE, rs)).1
  {
    TwinsAt(BASE, rs, i);
    TwinsAt(BASE, rs, j);
    SharedPathRefused(table, AllTwins(BASE, rs), 2 * i, 2 * j);
  }

  lemma AlternateRefused(table: Table, rs: seq<Registration>, i: nat, j: nat)
    requires i < j < |rs| && Alternate(rs[i].path) == rs[j].path
    ensures !RegisterAll(table, AllTwins(BASE, rs)).1
  {
    AlternateMeets(rs, i, j);
    SharedPathRefused(table, AllTwins(BASE, rs), 2 * i + 1, 2 * j);
  }

  lemma AlternateMeets(rs: seq<Registration>, i: nat, j: nat)
    requires i < |rs| && j < |rs| && Alternate(rs[i].path) == rs[j].path
    ensures AllTwins(BASE, rs)[2 * i + 1].path == AllTwins(BASE, rs)[2 * j].path
  {
    TwinsAt(BASE, rs, i);
    TwinsAt(BASE, rs, j);
  }

  /** An endpoint that keeps no trailing slash is registered under its rooted form. */
  lemma RegisteredRooted(routes: seq<DataRoute>, i: nat)
    requires i < |routes| && !HasSuffix(RootedEndpoints(routes)[i], "/")
    ensures Relative(routes[i].endpoint) == RootedEndpoints(routes)[i]
  {
  }

  lemma RegisteredPaths(routes: seq<DataRoute>, listing: seq<Route>)
    requires forall x :: x in RootedEndpoints(routes) ==> !HasSuffix(x, "/")
    ensures DistinctPaths(Registrations(routes, listing)) <==>
              NoDuplicates(RootedEndpoints(routes) + Endpoints(listing))
  {
    var rs, paths := Registrations(routes, listing), RootedEndpoints(routes) + Endpoints(listing);
    forall i | 0 <= i < |rs| ensures rs[i].path == paths[i] {
      if i < |routes| {
        RegisteredRooted(routes, i);
      }
    }
  }

  lemma NoDuplicatesParts<T>(xs: seq<T>, ys: seq<T>)
    requires NoDuplicates(xs + ys)
    ensures NoDuplicates(xs)
    ensures forall x :: x in xs ==> x !in ys
  {
    forall i, j | 0 <= i < j < |xs| ensures xs[i] != xs[j] {
      assert (xs + ys)[i] != (xs + ys)[j];
    }
    forall x | x in xs ensures x !in ys {
      var i :| 0 <= i < |xs| && xs[i] == x;
      forall j | 0 <= j < |ys| ensures ys[j] != x {
        assert (xs + ys)[i] != (xs + ys)[|xs| + j];
      }
    }
  }

  /** An endpoint is a listed directory exactly when it is a proper component-prefix of another endpoint. */
  lemma StaticMeetsData(routes: seq<DataRoute>, listing: seq<Route>, x: string)
    requires AllRegistrable(routes) && Lists(HistoryOf(routes), listing) && x in RootedEndpoints(routes)
    ensures x in Endpoints(listing) <==> IsAbove(x, RootedEndpoints(routes))
  {
    var E := HistoryOf(routes);
    HistoryWellFormed(RootedEndpoints(routes));
    KeyIsDir(E, x);
    if x in Endpoints(listing) {
      var e :| e in E && Split(x, SLASH) < e;
      var y := EndpointComponents(routes, e);
    }
    if y :| y in RootedEndpoints(routes) && Split(x, SLASH) < Split(y, SLASH) {
      EndpointMember(routes, y);
    }
  }

  lemma NoTrailingSlashes(routes: seq<DataRoute>, listing: seq<Route>)
    requires AllRegistrable(routes) && Lists(HistoryOf(routes), listing)
    requires forall x :: x in RootedEndpoints(routes) ==> !HasSuffix(x, "/")
    ensures forall r :: r in Registrations(routes, listing) ==> !HasSuffix(r.path, "/")
  {
    forall r | r in Registrations(routes, listing) ensures !HasSuffix(r.path, "/") {
      if r in DataRegistrations(routes) {
        var i :| 0 <= i < |routes| && DataRegistrations(routes)[i] == r;
        RegisteredRooted(routes, i);
      } else {
        var i :| 0 <= i < |listing| && StaticRegistrations(listing)[i] == r;
        assert ListsChildren(TrieOf(HistoryOf(routes)), listing[i]);
        StaticHasNoTrailingSlash(routes, r.path);
      }
    }
  }

  /**
    Configure succeeds if and only if the endpoints are free of trailing slashes,
    pairwise distinct, and none is a proper component-prefix of another, and the
    router holds none of the paths that the group registers.
  */
  lemma ConfigureSucceeds(table: Table, routes: seq<DataRoute>, listing: seq<Route>)
    requires AllRegistrable(routes) && Lists(HistoryOf(routes), listing)
    ensures Configuration(table, routes, listing).1 <==>
              CollisionFree(RootedEndpoints(routes)) && AllFree(table, AllTwins(BASE, Registrations(routes, listing)))
  {
    var xs := RootedEndpoints(routes);
    if x :| x in xs && HasSuffix(x, "/") {
      TrailingSlashRefused(table, routes, listing, x);
    } else {
      SucceedsWhenDistinct(table, routes, listing);
      DistinctWhenPrefixFree(routes, listing);
    }
  }

  lemma SucceedsWhenDistinct(table: Table, routes: seq<DataRoute>, listing: seq<Route>)
    requires AllRegistrable(routes) && Lists(HistoryOf(routes), listing)
    requires forall x :: x in RootedEndpoints(routes) ==> !HasSuffix(x, "/")
    ensures Configuration(table, routes, listing).1 <==>
              && NoDuplicates(RootedEndpoints(routes) + Endpoints(listing))
              && AllFree(table, AllTwins(BASE, Registrations(routes, listing)))
  {
    var rs := Registrations(routes, listing);
    NoTrailingSlashes(routes, listing);
    TwinsDistinct(BASE, rs);
    RegisteredPaths(routes, listing);
    RegisterSucceeds(table, AllTwins(BASE, rs));
  }

  /** On a router with nothing under the prefix, success depends on the endpoints alone. */
  lemma ConfigureInFreeGroup(table: Table, routes: seq<DataRoute>, listing: seq<Route>)
    requires AllRegistrable(routes) && GroupFree(table) && Lists(HistoryOf(routes), listing)
    ensures Configuration(table, routes, listing).1 <==> CollisionFree(RootedEndpoints(routes))
  {
    var rs := Registrations(routes, listing);
    ConfigureSucceeds(table, routes, listing);
    forall t | t in AllTwins(BASE, rs) ensures t.path !in table {
      assert BASE <= t.path;
    }
  }

  lemma DistinctWhenPrefixFree(routes: seq<DataRoute>, listing: seq<Route>)
    requires AllRegistrable(routes) && Lists(HistoryOf(routes), listing)
    ensures NoDuplicates(RootedEndpoints(routes) + Endpoints(listing)) <==>
              NoDuplicates(RootedEndpoints(routes)) && PrefixFree(RootedEndpoints(routes))
  {
    DataAvoidsStatic(routes, listing);
    StrictlySortedNoDuplicates(Endpoints(listing));
    DistinctConcat(RootedEndpoints(routes), Endpoints(listing));
  }

  lemma DistinctConcat<T>(xs: seq<T>, ys: seq<T>)
    requires NoDuplicates(ys)
    ensures NoDuplicates(xs + ys) <==> NoDuplicates(xs) && forall x :: x in xs ==> x !in ys
  {
    if NoDuplicates(xs + ys) {
      NoDuplicatesParts(xs, ys);
    }
    if NoDuplicates(xs) && forall x :: x in xs ==> x !in ys {
      NoDuplicatesConcat(xs, ys);
    }
  }

  lemma DataAvoidsStatic(routes: seq<DataRoute>, listing: seq<Route>)
    requires AllRegistrable(routes) && Lists(HistoryOf(routes), listing)
    ensures (forall x :: x in RootedEndpoints(routes) ==> x !in Endpoints(listing)) <==>
              PrefixFree(RootedEndpoints(routes))
  {
    forall x | x in RootedEndpoints(routes)
      ensures x in Endpoints(listing) <==> IsAbove(x, RootedEndpoints(routes))
    {
      StaticMeetsData(routes, listing, x);
    }
  }
}
