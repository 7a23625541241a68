/** What a client meets under the prefix once the frontend has been configured. */
module Navigation {
  import opened GoStrings
  import opened Ordering
  import opened Wrappers
  import opened Ec2
  import opened EndpointTrie
  import opened Listing
  import opened Routing
  import opened Responses
  import opened Crawl
  import opened Frontend

  // ----- The configured table -----

  /** The table left by a successful Configure. */
  ghost predicate Configured(before: Table, routes: seq<DataRoute>, listing: seq<Route>, table: Table) {
    && AllRegistrable(routes) && GroupFree(before) && Lists(HistoryOf(routes), listing)
    && (table, true) == Configuration(before, routes, listing)
  }

  /** Every registration answers with its handler, with and without a trailing slash. */
  ghost predicate Answers(table: Table, rs: seq<Registration>) {
    forall r :: r in rs ==>
      && !HasSuffix(r.path, "/")
      && BASE + r.path in table && table[BASE + r.path] == r.handler
      && BASE + (r.path + "/") in table && table[BASE + (r.path + "/")] == r.handler
  }

  /** Every path under the prefix is a registered endpoint, with or without a trailing slash. */
  ghost predicate OnlyAnswers(table: Table, rs: seq<Registration>) {
    forall x :: BASE + x in table ==> exists r :: r in rs && (x == r.path || x == r.path + "/")
  }

  /** The table holds these registrations. */
  ghost predicate Holds(table: Table, rs: seq<Registration>) {
    forall r :: r in rs ==> r.path in table && table[r.path] == r.handler
  }

  /** Every path under the prefix comes from these registrations. */
  ghost predicate HoldsOnly(table: Table, rs: seq<Registration>) {
    forall p :: p in table && BASE <= p ==> exists r :: r in rs && r.path == p
  }

  lemma RunHolds(before: Table, rs: seq<Registration>, table: Table)
    requires (table, true) == RegisterAll(before, rs) && GroupFree(before)
    ensures Holds(table, rs) && HoldsOnly(table, rs)
    ensures |table| == |before| + |rs|
  {
    RegisteredTable(before, rs);
    forall p | p in table && BASE <= p ensures exists r :: r in rs && r.path == p {
      var i :| 0 <= i < |rs| && Paths(rs)[i] == p;
      assert rs[i] in rs;
    }
  }

  lemma TwinsAnswer(table: Table, rs: seq<Registration>)
    requires Holds(table, AllTwins(BASE, rs))
    requires forall r :: r in rs ==> !HasSuffix(r.path, "/")
    ensures Answers(table, rs)
  {
    forall r | r in rs
      ensures BASE + r.path in table && table[BASE + r.path] == r.handler
      ensures BASE + (r.path + "/") in table && table[BASE + (r.path + "/")] == r.handler
    {
      var i :| 0 <= i < |rs| && rs[i] == r;
      TwinsAt(BASE, rs, i);
      assert AllTwins(BASE, rs)[2 * i] in AllTwins(BASE, rs) && AllTwins(BASE, rs)[2 * i + 1] in AllTwins(BASE, rs);
    }
  }

  lemma OnlyTwinsAnswer(table: Table, rs: seq<Registration>)
    requires HoldsOnly(table, AllTwins(BASE, rs))
    requires forall r :: r in rs ==> !HasSuffix(r.path, "/")
    ensures OnlyAnswers(table, rs)
  {
    forall x | BASE + x in table ensures exists r :: r in rs && (x == r.path || x == r.path + "/") {
      var r := TwinSource(table, rs, x);
    }
  }

  lemma TwinSource(table: Table, rs: seq<Registration>, x: string) returns (r: Registration)
    requires HoldsOnly(table, AllTwins(BASE, rs)) && BASE + x in table
    requires forall r :: r in rs ==> !HasSuffix(r.path, "/")
    ensures r in rs && (x == r.path || x == r.path + "/")
  {
    var all := AllTwins(BASE, rs);
    var k :| 0 <= k < |all| && all[k].path == BASE + x;
    TwinOrigin(BASE, rs, k);
    r := rs[k / 2];
    if k % 2 == 0 {
      ConcatInjective(BASE, x, r.path);
    } else {
      ConcatInjective(BASE, x, r.path + "/");
    }
  }

  /**
    A successful Configure adds two paths per data endpoint and two per static
    route, every one of them answers with its own handler, and nothing else
    under the prefix answers.
  */
  lemma ConfiguredTable(before: Table, routes: seq<DataRoute>, listing: seq<Route>, table: Table)
    requires Configured(before, routes, listing, table)
    ensures |table| == |before| + 2 * (|routes| + |listing|)
    ensures Answers(table, Registrations(routes, listing))
    ensures OnlyAnswers(table, Registrations(routes, listing))
  {
    var rs := Registrations(routes, listing);
    ConfigureInFreeGroup(before, routes, listing);
    NoTrailingSlashes(routes, listing);
    RunHolds(before, AllTwins(BASE, rs), table);
    TwinsAnswer(table, rs);
    OnlyTwinsAnswer(table, rs);
  }

  /** Every path under the prefix and its slash-toggled twin carry the same handler, and are each other's twins. */
  lemma TwinsAgree(table: Table, rs: seq<Registration>, x: string)
    requires Answers(table, rs) && OnlyAnswers(table, rs) && BASE + x in table
    ensures BASE + Alternate(x) in table && table[BASE + Alternate(x)] == table[BASE + x]
    ensures Alternate(Alternate(x)) == x
  {
    var r :| r in rs && (x == r.path || x == r.path + "/");
    EndsInTwoSlashes(r.path);
    EndsInTwoSlashes(r.path + "/");
    assert TrimSuffix(r.path + "/", "/") == r.path;
    AlternateInvolution(x);
  }

  lemma DataAnswers(routes: seq<DataRoute>, listing: seq<Route>, table: Table, i: nat)
    requires Answers(table, Registrations(routes, listing)) && i < |routes|
    ensures GroupPath(BASE, routes[i].endpoint) in table
    ensures table[GroupPath(BASE, routes[i].endpoint)] == DataHandler(routes[i].filter)
  {
  }

  lemma DataRegistered(routes: seq<DataRoute>, listing: seq<Route>, i: nat)
    requires i < |routes|
    ensures DataRegistrations(routes)[i] in Registrations(routes, listing)
  {
    assert Registrations(routes, listing)[i] == DataRegistrations(routes)[i];
  }

  /** No registered path keeps a trailing slash, so a data handler answers at its endpoint's rooted form. */
  lemma AnswersAtRooted(routes: seq<DataRoute>, listing: seq<Route>, table: Table, i: nat)
    requires AllRegistrable(routes) && CollisionFree(RootedEndpoints(routes))
    requires Answers(table, Registrations(routes, listing)) && i < |routes|
    ensures LeadsToData(table, routes, RootedEndpoints(routes)[i])
  {
    DataAnswers(routes, listing, table, i);
    assert RootedEndpoints(routes)[i] in RootedEndpoints(routes);
    RegisteredRooted(routes, i);
  }

  lemma AllAnswerAtRooted(routes: seq<DataRoute>, listing: seq<Route>, table: Table)
    requires AllRegistrable(routes) && CollisionFree(RootedEndpoints(routes))
    requires Answers(table, Registrations(routes, listing))
    ensures forall x :: x in RootedEndpoints(routes) ==> LeadsToData(table, routes, x)
  {
    forall x | x in RootedEndpoints(routes) ensures LeadsToData(table, routes, x) {
      var i := RootedAt(routes, x);
      AnswersAtRooted(routes, listing, table, i);
    }
  }

  lemma StaticAnswers(routes: seq<DataRoute>, listing: seq<Route>, table: Table, k: nat)
    requires Answers(table, Registrations(routes, listing)) && k < |listing|
    ensures BASE + listing[k].endpoint in table
    ensures table[BASE + listing[k].endpoint] == StaticHandler(listing[k].children)
    ensures BASE + (listing[k].endpoint + "/") in table
    ensures table[BASE + (listing[k].endpoint + "/")] == StaticHandler(listing[k].children)
  {
  }

  /** When nothing collides, every endpoint is maximal. */
  lemma AllMaximal(routes: seq<DataRoute>)
    requires AllRegistrable(routes) && CollisionFree(RootedEndpoints(routes))
    ensures Maximal(HistoryOf(routes)) == HistoryOf(routes)
  {
  }

  /** The static handler of the directory with this path answers at target. */
  ghost predicate LeadsToListing(table: Table, listing: seq<Route>, path: string, target: string) {
    exists j :: 0 <= j < |listing| && listing[j].endpoint == path
                && BASE + target in table && table[BASE + target] == StaticHandler(listing[j].children)
  }

  /** The data handler of the endpoint whose rooted form is target answers at target. */
  ghost predicate LeadsToData(table: Table, routes: seq<DataRoute>, target: string) {
    exists i :: 0 <= i < |routes| && Normalise(routes[i].endpoint) == target
                && BASE + target in table && table[BASE + target] == DataHandler(routes[i].filter)
  }

  lemma MarkedNameResolves(routes: seq<DataRoute>, listing: seq<Route>, table: Table, k: nat, name: string)
    requires AllRegistrable(routes) && Lists(HistoryOf(routes), listing)
    requires Answers(table, Registrations(routes, listing))
    requires k < |listing| && name in listing[k].children && IsMarked(name)
    ensures LeadsToListing(table, listing, PathOf(listing[k].endpoint, name), listing[k].endpoint + "/" + name)
  {
    MarkedIsListed(routes, listing, k, name);
    var path := PathOf(listing[k].endpoint, name);
    var j :| 0 <= j < |listing| && listing[j].endpoint == path;
    StaticAnswers(routes, listing, table, j);
    MarkedPath(listing[k].endpoint, name);
  }

  lemma MarkedPath(p: string, name: string)
    requires IsMarked(name)
    ensures p + "/" + name == PathOf(p, name) + "/"
  {
  }

  lemma MarkedIsListed(routes: seq<DataRoute>, listing: seq<Route>, k: nat, name: string)
    requires AllRegistrable(routes) && Lists(HistoryOf(routes), listing)
    requires k < |listing| && name in listing[k].children && IsMarked(name)
    ensures exists j :: 0 <= j < |listing| && listing[j].endpoint == PathOf(listing[k].endpoint, name)
  {
    HistoryWellFormed(RootedEndpoints(routes));
    MarkersTruthful(HistoryOf(routes), listing, k, name);
  }

  lemma UnmarkedNameResolves(routes: seq<DataRoute>, listing: seq<Route>, table: Table, k: nat, name: string)
    requires AllRegistrable(routes) && CollisionFree(RootedEndpoints(routes)) && Lists(HistoryOf(routes), listing)
    requires Answers(table, Registrations(routes, listing))
    requires k < |listing| && name in listing[k].children && !IsMarked(name)
    ensures LeadsToData(table, routes, listing[k].endpoint + "/" + name)
  {
    var path := PathOf(listing[k].endpoint, name);
    assert path == listing[k].endpoint + "/" + name;
    UnmarkedIsEndpoint(routes, listing, k, name);
    var i :| 0 <= i < |routes| && Normalise(routes[i].endpoint) == path;
    AnswersAtRooted(routes, listing, table, i);
    assert RootedEndpoints(routes)[i] == path;
  }

  lemma UnmarkedIsEndpoint(routes: seq<DataRoute>, listing: seq<Route>, k: nat, name: string)
    requires AllRegistrable(routes) && Lists(HistoryOf(routes), listing)
    requires k < |listing| && name in listing[k].children && !IsMarked(name)
    ensures exists i :: 0 <= i < |routes| && Normalise(routes[i].endpoint) == PathOf(listing[k].endpoint, name)
  {
    var path := PathOf(listing[k].endpoint, name);
    HistoryWellFormed(RootedEndpoints(routes));
    MarkersTruthful(HistoryOf(routes), listing, k, name);
    var x := EndpointComponents(routes, Split(path, SLASH));
    EndpointMember(routes, x);
    JoinSplit(x, SLASH);
    JoinSplit(path, SLASH);
  }

  /**
    Navigation is sound: appending a listed name to its listed path leads to
    the static handler of that directory when the name is marked, and to the
    data handler of that very endpoint when it is not.
  */
  lemma NamesResolve(before: Table, routes: seq<DataRoute>, listing: seq<Route>, table: Table)
    requires Configured(before, routes, listing, table)
    ensures forall k, name :: 0 <= k < |listing| && name in listing[k].children ==>
              if IsMarked(name)
              then LeadsToListing(table, listing, PathOf(listing[k].endpoint, name), listing[k].endpoint + "/" + name)
              else LeadsToData(table, routes, listing[k].endpoint + "/" + name)
    ensures forall x :: BASE + x in table ==>
              && BASE + Alternate(x) in table && table[BASE + Alternate(x)] == table[BASE + x]
              && Alternate(Alternate(x)) == x
  {
    ConfigureInFreeGroup(before, routes, listing);
    ConfiguredTable(before, routes, listing, table);
    forall k, name | 0 <= k < |listing| && name in listing[k].children
      ensures if IsMarked(name)
              then LeadsToListing(table, listing, PathOf(listing[k].endpoint, name), listing[k].endpoint + "/" + name)
              else LeadsToData(table, routes, listing[k].endpoint + "/" + name)
    {
      if IsMarked(name) {
        MarkedNameResolves(routes, listing, table, k, name);
      } else {
        UnmarkedNameResolves(routes, listing, table, k, name);
      }
    }
    forall x | BASE + x in table
      ensures BASE + Alternate(x) in table && table[BASE + Alternate(x)] == table[BASE + x]
      ensures Alternate(Alternate(x)) == x
    {
      TwinsAgree(table, Registrations(routes, listing), x);
    }
  }

  // ----- Discovering the configured site -----

  /** Where, under the prefix, anything answers. */
  function PathsBelow(table: Table): set<string> {
    set path | path in table && BASE <= path :: path[|BASE|..]
  }

  lemma PathBelow(table: Table, p: string)
    ensures p in PathsBelow(table) <==> BASE + p in table
  {
    assert (BASE + p)[|BASE|..] == p;
    if p in PathsBelow(table) {
      var path :| path in table && BASE <= path && path[|BASE|..] == p;
      assert path == BASE + p;
    }
  }

  /** What a client at one remote address reads under the prefix: at each path, the lines of the response. */
  function SiteOfTable(table: Table, remote: Option<string>, client: Backend): Site {
    map p | p in PathsBelow(table) :: PathBelow(table, p); LinesOf(Respond(table[BASE + p], remote, client))
  }

  lemma SiteServes(routes: seq<DataRoute>, listing: seq<Route>,
                   table: Table, remote: Option<string>, client: Backend)
    requires AllRegistrable(routes) && Lists(HistoryOf(routes), listing) && NewlineFree(HistoryOf(routes))
    requires Answers(table, Registrations(routes, listing))
    ensures Serves(SiteOfTable(table, remote, client), HistoryOf(routes))
  {
    var E, site := HistoryOf(routes), SiteOfTable(table, remote, client);
    HistoryWellFormed(RootedEndpoints(routes));
    forall p | p in TrieOf(E) ensures p in site && ListsChildren(TrieOf(E), Route(p, site[p])) {
      var k := RouteFor(E, listing, p);
      StaticAnswers(routes, listing, table, k);
      BodyRoundTrip(E, listing[k]);
      PathBelow(table, p);
      ListingServed(listing[k].children, remote, client);
    }
  }

  lemma ListingHasKey(E: set<Components>, listing: seq<Route>)
    requires Lists(E, listing) && listing != []
    ensures exists p :: p in TrieOf(E)
  {
    assert Endpoints(listing)[0] in Endpoints(listing);
  }

  lemma EmptySite(listing: seq<Route>,
                  table: Table, remote: Option<string>, client: Backend)
    requires Lists(HistoryOf([]), listing) && OnlyAnswers(table, Registrations([], listing))
    ensures From(SiteOfTable(table, remote, client), "") == []
  {
    assert HistoryOf([]) == {};
    assert forall p :: p !in TrieOf({});
    if listing != [] {
      ListingHasKey(HistoryOf([]), listing);
      assert false;
    }
    PathBelow(table, "");
  }

  lemma DiscoversEndpoints(routes: seq<DataRoute>, site: Site)
    requires AllRegistrable(routes) && CollisionFree(RootedEndpoints(routes)) && routes != []
    requires Serves(site, HistoryOf(routes))
    ensures StrictlySorted(From(site, ""))
    ensures forall x :: x in From(site, "") <==> x in RootedEndpoints(routes)
  {
    var E, xs := HistoryOf(routes), RootedEndpoints(routes);
    HistoryWellFormed(xs);
    assert xs[0] in xs;
    EndpointMember(routes, xs[0]);
    CrawlEqualsSort(site, E);
    AllMaximal(routes);
    forall x ensures x in From(site, "") <==> x in xs {
      if x in xs { EndpointMember(routes, x); }
      if Split(x, SLASH) in E {
        var y := EndpointComponents(routes, Split(x, SLASH));
        JoinSplit(x, SLASH);
        JoinSplit(y, SLASH);
      }
    }
  }

  /** When bodies can be read back, a client discovers the data endpoints. */
  lemma DiscoversWhenReadable(before: Table, routes: seq<DataRoute>, listing: seq<Route>,
                              table: Table, remote: Option<string>, client: Backend)
    requires Configured(before, routes, listing, table) && NewlineFree(HistoryOf(routes))
    ensures StrictlySorted(From(SiteOfTable(table, remote, client), ""))
    ensures multiset(From(SiteOfTable(table, remote, client), "")) == multiset(RootedEndpoints(routes))
  {
    ConfigureInFreeGroup(before, routes, listing);
    ConfiguredTable(before, routes, listing, table);
    SiteServes(routes, listing, table, remote, client);
    if routes == [] {
      EmptySite(listing, table, remote, client);
    } else {
      DiscoversEndpoints(routes, SiteOfTable(table, remote, client));
    }
    var found := From(SiteOfTable(table, remote, client), "");
    StrictlySortedNoDuplicates(found);
    SameElementsPermutation(found, RootedEndpoints(routes));
  }

  /** A client that discovers every data endpoint has read newline-free bodies. */
  lemma DiscoveredAreReadable(routes: seq<DataRoute>,
                              table: Table, remote: Option<string>, client: Backend)
    requires AllRegistrable(routes)
    requires forall x :: x in RootedEndpoints(routes) ==> x in From(SiteOfTable(table, remote, client), "")
    ensures NewlineFree(HistoryOf(routes))
  {
    var E, site := HistoryOf(routes), SiteOfTable(table, remote, client);
    HistoryWellFormed(RootedEndpoints(routes));
    forall e | e in Maximal(E) ensures Join(e, SLASH) in From(site, "") {
      var x := EndpointComponents(routes, e);
      JoinSplit(x, SLASH);
    }
    FoundByLines(site, E);
  }

  lemma EndpointsAnswer(before: Table, routes: seq<DataRoute>, listing: seq<Route>, table: Table)
    requires Configured(before, routes, listing, table)
    ensures forall x :: x in RootedEndpoints(routes) ==> LeadsToData(table, routes, x)
  {
    ConfigureInFreeGroup(before, routes, listing);
    ConfiguredTable(before, routes, listing, table);
    AllAnswerAtRooted(routes, listing, table);
  }

  /**
    End to end: starting from the prefix and reading served bodies only, a client
    finds exactly the data endpoints, each once, if and only if no endpoint holds
    a newline; then in strictly increasing order. Each endpoint answers with its
    own data handler.
  */
  lemma Discovery(before: Table, routes: seq<DataRoute>, listing: seq<Route>,
                  table: Table, remote: Option<string>, client: Backend)
    requires Configured(before, routes, listing, table)
    ensures multiset(From(SiteOfTable(table, remote, client), "")) == multiset(RootedEndpoints(routes)) <==>
              NewlineFree(HistoryOf(routes))
    ensures NewlineFree(HistoryOf(routes)) ==> StrictlySorted(From(SiteOfTable(table, remote, client), ""))
    ensures forall x :: x in RootedEndpoints(routes) ==> LeadsToData(table, routes, x)
  {
    var found := From(SiteOfTable(table, remote, client), "");
    if NewlineFree(HistoryOf(routes)) {
      DiscoversWhenReadable(before, routes, listing, table, remote, client);
    }
    if multiset(found) == multiset(RootedEndpoints(routes)) {
      SamePermutationElements(found, RootedEndpoints(routes));
      DiscoveredAreReadable(routes, table, remote, client);
    }
    EndpointsAnswer(before, routes, listing, table);
  }
}
