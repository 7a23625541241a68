/**
  The repository's own table of data endpoints, and the tree it builds, written out.
*/
module DataTable {
  import opened GoStrings
  import opened Ordering
  import opened Ec2
  import opened EndpointTrie
  import opened Listing
  import opened RouteTree
  import opened Routing
  import opened Crawl
  import opened Frontend

  const META := "/meta-data"
  const SYSTEM := META + "/operating-system"
  const LICENSE := SYSTEM + "/license_activation"

  function RootNames(): seq<string> {
    ["meta-data/", "user-data"]
  }

  function EarlierNames(): seq<string> {
    ["facility", "hostname", "instance-id", "iqn", "local-hostname", "local-ipv4"]
  }

  function LaterNames(): seq<string> {
    ["operating-system/", "plan", "public-ipv4", "public-ipv6", "public-keys", "tags"]
  }

  function MetaNames(): seq<string> {
    EarlierNames() + LaterNames()
  }

  function SystemNames(): seq<string> {
    ["distro", "image_tag", "license_activation/", "slug", "version"]
  }

  function LicenseNames(): seq<string> {
    ["state"]
  }

  /** The tree that the table of data endpoints spells. */
  function TableListing(): seq<Route> {
    [ Route("", RootNames()),
      Route(META, MetaNames()),
      Route(SYSTEM, SystemNames()),
      Route(LICENSE, LicenseNames()) ]
  }

  // ----- Trees with plain names -----

  /** A name of plain characters only, apart from a slash at its end. */
  ghost predicate PlainName(name: string) {
    var c := TrimSuffix(name, "/");
    PlainComponent(c) && SLASH !in c && NEWLINE !in c
  }

  ghost predicate PlainNames(routes: seq<Route>) {
    forall r, name :: r in routes && name in r.children ==> PlainName(name)
  }

  ghost predicate PlainParts(q: Components) {
    q != [] && q[0] == "" && forall i :: 1 <= i < |q| ==> PlainComponent(q[i]) && NEWLINE !in q[i]
  }

  lemma {:induction false} PlainEndpoint(routes: seq<Route>, p: string)
    requires IsTree(routes) && PlainNames(routes) && p in Endpoints(routes)
    ensures PlainParts(Split(p, SLASH))
    decreases |p|
  {
    if p == "" {
      assert Split("", SLASH) == [""];
    } else {
      var r, name :| r in routes && ListedAt(r, true, name, p);
      PathParts(r, name);
      RouteEndpoint(routes, r);
      PlainEndpoint(routes, r.endpoint);
      assert PlainName(name);
    }
  }

  lemma PlainLeaf(routes: seq<Route>, x: string)
    requires IsTree(routes) && PlainNames(routes) && x in ListedPaths(routes, false)
    ensures Registrable(x) && !HasSuffix(x, "/") && SeparatorFree(Split(x, SLASH), NEWLINE)
  {
    ListedPathsMember(routes, false, x);
    var r, name :| r in routes && ListedAt(r, false, name, x);
    PathParts(r, name);
    RouteEndpoint(routes, r);
    PlainEndpoint(routes, r.endpoint);
    Rooted(routes, r.endpoint);
    assert PlainName(name);
    PlainPath(r.endpoint, name);
  }

  lemma PlainPath(p: string, c: string)
    requires PlainParts(Split(p, SLASH)) && (p == "" || HasPrefix(p, "/"))
    requires PlainComponent(c) && SLASH !in c && NEWLINE !in c
    ensures Registrable(p + "/" + c) && !HasSuffix(p + "/" + c, "/")
    ensures SeparatorFree(Split(p + "/" + c, SLASH), NEWLINE)
  {
    var x := p + "/" + c;
    SplitAppend(p, c, SLASH);
    EndsInSlash(x);
    assert x[|x| - 1] == c[|c| - 1];
  }

  /** A table whose endpoints are the leaves of a plain tree configures without a collision. */
  lemma PlainTreeConfigures(routes: seq<DataRoute>, tree: seq<Route>)
    requires IsTree(tree) && PlainNames(tree)
    requires NoDuplicates(RootedEndpoints(routes))
    requires forall x :: x in RootedEndpoints(routes) <==> x in ListedPaths(tree, false)
    ensures AllRegistrable(routes) && CollisionFree(RootedEndpoints(routes)) && NewlineFree(HistoryOf(routes))
    ensures ListingOf(HistoryOf(routes)) == tree
  {
    var xs, E := RootedEndpoints(routes), HistoryOf(routes);
    SameLeaves(xs, ListedPaths(tree, false));
    TreeIsListing(tree);
    ListingOfUnique(E, tree);
    forall x | x in xs ensures Registrable(x) && !HasSuffix(x, "/") && SeparatorFree(Split(x, SLASH), NEWLINE) {
      PlainLeaf(tree, x);
    }
    RegistrableRoutes(routes);
    forall e | e in E ensures SeparatorFree(e, NEWLINE) {
      var x := EndpointComponents(routes, e);
    }
    LeavesPrefixFree(routes, tree);
  }

  lemma SameLeaves(xs: seq<string>, ys: seq<string>)
    requires forall x :: x in xs <==> x in ys
    ensures History(xs) == History(ys)
  {
  }

  lemma RegistrableRoutes(routes: seq<DataRoute>)
    requires forall x :: x in RootedEndpoints(routes) ==> Registrable(x)
    ensures AllRegistrable(routes)
  {
    forall r | r in routes ensures Registrable(r.endpoint) {
      var i :| 0 <= i < |routes| && routes[i] == r;
      assert RootedEndpoints(routes)[i] in RootedEndpoints(routes);
      SameComponents(r.endpoint);
    }
  }

  lemma LeavesPrefixFree(routes: seq<DataRoute>, tree: seq<Route>)
    requires AllRegistrable(routes) && Lists(HistoryOf(routes), tree)
    requires HistoryOf(routes) == Leaves(tree)
    ensures PrefixFree(RootedEndpoints(routes))
  {
    HistoryWellFormed(RootedEndpoints(routes));
    LeafHistory(HistoryOf(routes), tree);
    forall x, y | x in RootedEndpoints(routes) && y in RootedEndpoints(routes)
      ensures !(Split(x, SLASH) < Split(y, SLASH))
    {
      EndpointMember(routes, x);
      EndpointMember(routes, y);
    }
  }

  // ----- The table's tree is well formed -----

  lemma AdjacentSorted(xs: seq<string>)
    requires forall i :: 0 <= i < |xs| - 1 ==> Less(xs[i], xs[i + 1])
    ensures StrictlySorted(xs)
  {
    forall i, j | 0 <= i < j < |xs| ensures Less(xs[i], xs[j]) {
      AdjacentLess(xs, i, j);
    }
  }

  lemma {:induction false} AdjacentLess(xs: seq<string>, i: nat, j: nat)
    requires forall k :: 0 <= k < |xs| - 1 ==> Less(xs[k], xs[k + 1])
    requires i < j < |xs|
    ensures Less(xs[i], xs[j])
    decreases j - i
  {
    if i + 1 == j {
    } else {
      AdjacentLess(xs, i, j - 1);
      LessTransitive(xs[i], xs[j - 1], xs[j]);
    }
  }

  lemma PrefixLess(p: string, a: string, b: string, x: string, y: string)
    requires x == p + a && y == p + b && Less(a, b)
    ensures Less(x, y)
  {
    LessAfterCommonPrefix(p, a, b);
  }

  lemma JoinSorted(xs: seq<string>, ys: seq<string>)
    requires StrictlySorted(xs) && StrictlySorted(ys)
    requires xs != [] && ys != [] && Less(xs[|xs| - 1], ys[0])
    ensures StrictlySorted(xs + ys)
  {
    var all := xs + ys;
    forall i | 0 <= i < |all| - 1 ensures Less(all[i], all[i + 1]) {
      if i >= |xs| {
        assert all[i] == ys[i - |xs|] && all[i + 1] == ys[i + 1 - |xs|];
      }
    }
    AdjacentSorted(all);
  }

  lemma SixSorted(a: string, b: string, c: string, d: string, e: string, f: string)
    requires Less(a, b) && Less(b, c) && Less(c, d) && Less(d, e) && Less(e, f)
    ensures StrictlySorted([a, b, c, d, e, f])
  {
    AdjacentSorted([a, b, c, d, e, f]);
  }

  lemma EarlierNamesAscend()
    ensures Less("facility", "hostname") && Less("hostname", "instance-id") && Less("instance-id", "iqn")
    ensures Less("iqn", "local-hostname") && Less("local-hostname", "local-ipv4")
    ensures Less("local-ipv4", "operating-system/")
  {
    PrefixLess("i", "nstance-id", "qn", "instance-id", "iqn");
    PrefixLess("local-", "hostname", "ipv4", "local-hostname", "local-ipv4");
  }

  lemma LaterNamesAscend()
    ensures Less("operating-system/", "plan") && Less("plan", "public-ipv4") && Less("public-keys", "tags")
  {
  }

  lemma PublicAddressesAscend()
    ensures Less("public-ipv4", "public-ipv6")
  {
    PrefixLess("public-ipv", "4", "6", "public-ipv4", "public-ipv6");
  }

  lemma PublicKeysAscend()
    ensures Less("public-ipv6", "public-keys")
  {
    PrefixLess("public-", "ipv6", "keys", "public-ipv6", "public-keys");
  }

  lemma MetaNamesSorted()
    ensures StrictlySorted(MetaNames())
  {
    EarlierNamesAscend();
    LaterNamesAscend();
    PublicAddressesAscend();
    PublicKeysAscend();
    SixSorted("facility", "hostname", "instance-id", "iqn", "local-hostname", "local-ipv4");
    SixSorted("operating-system/", "plan", "public-ipv4", "public-ipv6", "public-keys", "tags");
    JoinSorted(EarlierNames(), LaterNames());
  }

  lemma OtherNamesSorted()
    ensures StrictlySorted(RootNames()) && StrictlySorted(SystemNames()) && StrictlySorted(LicenseNames())
  {
    AdjacentSorted(RootNames());
    AdjacentSorted(SystemNames());
    AdjacentSorted(LicenseNames());
  }

  /** Characters that are plain anywhere in a name. */
  ghost predicate PlainText(c: string) {
    && c != "" && c !in {".", ".."}
    && forall i :: 0 <= i < |c| ==> c[i] !in {':', '*', SLASH, NEWLINE}
  }

  lemma PlainTextName(c: string)
    requires PlainText(c)
    ensures PlainName(c) && !IsMarked(c) && TrimSuffix(c, "/") == c
    ensures PlainName(c + "/") && IsMarked(c + "/") && TrimSuffix(c + "/", "/") == c
  {
    assert c[|c| - 1..] == [c[|c| - 1]];
    assert (c + "/")[..|c|] == c;
  }

  lemma PlainTexts()
    ensures PlainText("meta-data") && PlainText("user-data") && PlainText("facility") && PlainText("hostname")
    ensures PlainText("instance-id") && PlainText("iqn") && PlainText("plan") && PlainText("tags") && PlainText("state")
  {
  }

  lemma PlainAddressTexts()
    ensures PlainText("local-hostname") && PlainText("local-ipv4") && PlainText("public-ipv4")
    ensures PlainText("public-ipv6") && PlainText("public-keys")
  {
  }

  lemma PlainSystemTexts()
    ensures PlainText("operating-system") && PlainText("license_activation")
    ensures PlainText("distro") && PlainText("image_tag") && PlainText("slug") && PlainText("version")
  {
  }

  lemma DirectoryNames()
    ensures "meta-data/" == "meta-data" + "/" && "operating-system/" == "operating-system" + "/"
    ensures "license_activation/" == "license_activation" + "/"
    ensures IsMarked("meta-data/") && IsMarked("operating-system/") && IsMarked("license_activation/")
  {
  }

  // ----- The spelling of the leaves -----

  lemma MetaSpelling()
    ensures META + "/" + "instance-id" == "/meta-data/instance-id"
    ensures META + "/" + "hostname" == "/meta-data/hostname"
    ensures META + "/" + "local-hostname" == "/meta-data/local-hostname"
    ensures META + "/" + "iqn" == "/meta-data/iqn"
    ensures META + "/" + "plan" == "/meta-data/plan"
    ensures META + "/" + "facility" == "/meta-data/facility"
    ensures META + "/" + "tags" == "/meta-data/tags"
  {
  }

  lemma MetaAddressSpelling()
    ensures META + "/" + "public-ipv4" == "/meta-data/public-ipv4"
    ensures META + "/" + "public-ipv6" == "/meta-data/public-ipv6"
    ensures META + "/" + "local-ipv4" == "/meta-data/local-ipv4"
    ensures META + "/" + "public-keys" == "/meta-data/public-keys"
  {
  }

  lemma SystemPath()
    ensures SYSTEM == "/meta-data/operating-system"
  {
  }

  lemma LicensePath()
    ensures LICENSE == "/meta-data/operating-system/license_activation"
  {
    SystemPath();
    assert "/meta-data/operating-system" + "/license_activation" == "/meta-data/operating-system/license_activation";
  }

  lemma LicenseSpelling()
    ensures LICENSE + "/" + "state" == "/meta-data/operating-system/license_activation/state"
  {
    LicensePath();
  }

  lemma SystemSpelling()
    ensures SYSTEM + "/" + "slug" == "/meta-data/operating-system/slug"
    ensures SYSTEM + "/" + "distro" == "/meta-data/operating-system/distro"
    ensures SYSTEM + "/" + "version" == "/meta-data/operating-system/version"
    ensures SYSTEM + "/" + "image_tag" == "/meta-data/operating-system/image_tag"
  {
    SystemPath();
  }

  // ----- The tree -----

  /** Names of which only dir is marked. */
  ghost predicate OnlyDirMarked(names: seq<string>, dir: string) {
    && GoodNames(names)
    && (forall name :: name in names ==> PlainName(name))
    && (forall name :: name in names ==> if name == dir + "/" then IsMarked(name) else PlainText(name))
  }

  lemma NamesGood(names: seq<string>, dir: string)
    requires names != [] && StrictlySorted(names) && PlainText(dir) && dir !in names
    requires forall name :: name in names ==> name == dir + "/" || PlainText(name)
    ensures OnlyDirMarked(names, dir)
    ensures forall name :: name in names && name != dir + "/" ==> !IsMarked(name) && TrimSuffix(name, "/") == name
    ensures IsMarked(dir + "/") && TrimSuffix(dir + "/", "/") == dir
  {
    PlainTextName(dir);
    forall name | name in names
      ensures PlainName(name) && SLASH !in TrimSuffix(name, "/")
      ensures if name == dir + "/" then IsMarked(name) else !IsMarked(name) && TrimSuffix(name, "/") == name
    {
      if name != dir + "/" { PlainTextName(name); }
    }
    forall c | c in names ensures c + "/" !in names {
      assert (c + "/")[..|c|] == c && (c + "/")[|c|] == SLASH;
      assert (dir + "/")[..|dir|] == dir;
    }
  }

  lemma RootGood()
    ensures OnlyDirMarked(RootNames(), "meta-data")
  {
    PlainTexts();
    OtherNamesSorted();
    DirectoryNames();
    NamesGood(RootNames(), "meta-data");
  }

  lemma MetaGood()
    ensures OnlyDirMarked(MetaNames(), "operating-system")
  {
    PlainTexts();
    PlainAddressTexts();
    PlainSystemTexts();
    MetaNamesSorted();
    DirectoryNames();
    NamesGood(MetaNames(), "operating-system");
  }

  lemma SystemGood()
    ensures OnlyDirMarked(SystemNames(), "license_activation")
  {
    PlainSystemTexts();
    OtherNamesSorted();
    DirectoryNames();
    NamesGood(SystemNames(), "license_activation");
  }

  /** Good names, all of them unmarked. */
  ghost predicate NoneMarked(names: seq<string>) {
    GoodNames(names) && forall name :: name in names ==> PlainText(name)
  }

  lemma LicenseGood()
    ensures NoneMarked(LicenseNames())
  {
    PlainTexts();
    OtherNamesSorted();
    PlainTextName("state");
  }

  /** A directory whose only marked name is dir, which is the directory at below. */
  ghost predicate IsLink(r: Route, dir: string, below: string) {
    && OnlyDirMarked(r.children, dir) && PlainText(dir)
    && dir + "/" in r.children && below == r.endpoint + "/" + dir
  }

  /** Directories in a row from the root down: each marks the name of the next, and the last marks none. */
  ghost predicate IsChain(tree: seq<Route>, dirs: seq<string>) {
    && |tree| == |dirs| + 1 && tree[0].endpoint == ""
    && (forall k :: 0 <= k < |dirs| ==> IsLink(tree[k], dirs[k], tree[k + 1].endpoint))
    && NoneMarked(tree[|dirs|].children)
  }

  lemma ExtensionLess(a: string, b: string)
    requires b != ""
    ensures Less(a, a + b)
  {
    LessAfterCommonPrefix(a, "", b);
    assert a + "" == a;
  }

  lemma ChainSorted(tree: seq<Route>, dirs: seq<string>)
    requires IsChain(tree, dirs)
    ensures StrictlySorted(Endpoints(tree))
  {
    forall k | 0 <= k < |dirs| ensures Less(Endpoints(tree)[k], Endpoints(tree)[k + 1]) {
      assert IsLink(tree[k], dirs[k], tree[k + 1].endpoint);
      ExtensionLess(tree[k].endpoint, "/" + dirs[k]);
      assert tree[k].endpoint + "/" + dirs[k] == tree[k].endpoint + ("/" + dirs[k]);
    }
    AdjacentSorted(Endpoints(tree));
  }

  lemma LinkMark(r: Route, dir: string, below: string, name: string)
    requires IsLink(r, dir, below) && name in r.children
    ensures PlainName(name)
    ensures IsMarked(name) <==> name == dir + "/"
    ensures IsMarked(name) ==> PathOf(r.endpoint, name) == below
  {
    PlainTextName(dir);
    if name != dir + "/" {
      PlainTextName(name);
    }
  }

  lemma ChainMark(tree: seq<Route>, dirs: seq<string>, k: nat, name: string)
    requires IsChain(tree, dirs) && k < |tree| && name in tree[k].children
    ensures GoodNames(tree[k].children) && PlainName(name)
    ensures IsMarked(name) ==> k < |dirs| && PathOf(tree[k].endpoint, name) == Endpoints(tree)[k + 1]
  {
    if k < |dirs| {
      assert IsLink(tree[k], dirs[k], tree[k + 1].endpoint);
      LinkMark(tree[k], dirs[k], tree[k + 1].endpoint, name);
    } else {
      PlainTextName(name);
    }
  }

  lemma ChainParent(tree: seq<Route>, dirs: seq<string>, k: nat)
    requires IsChain(tree, dirs) && k < |dirs|
    ensures HasParent(tree, tree[k + 1].endpoint)
  {
    var name := dirs[k] + "/";
    assert IsLink(tree[k], dirs[k], tree[k + 1].endpoint);
    LinkMark(tree[k], dirs[k], tree[k + 1].endpoint, name);
    assert tree[k] in tree && ListedAt(tree[k], true, name, tree[k + 1].endpoint);
  }

  lemma ChainNames(tree: seq<Route>, dirs: seq<string>, r: Route)
    requires IsChain(tree, dirs) && r in tree
    ensures GoodNames(r.children)
    ensures forall name :: name in r.children ==> PlainName(name)
    ensures forall name :: name in r.children && IsMarked(name) ==> PathOf(r.endpoint, name) in Endpoints(tree)
  {
    var k: nat :| k < |tree| && tree[k] == r;
    if k < |dirs| {
      assert IsLink(tree[k], dirs[k], tree[k + 1].endpoint);
    }
    forall name | name in r.children
      ensures PlainName(name) && (IsMarked(name) ==> PathOf(r.endpoint, name) in Endpoints(tree))
    {
      ChainMark(tree, dirs, k, name);
    }
  }

  lemma ChainIsTree(tree: seq<Route>, dirs: seq<string>)
    requires IsChain(tree, dirs)
    ensures IsTree(tree) && PlainNames(tree)
  {
    ChainSorted(tree, dirs);
    assert Endpoints(tree)[0] == "";
    forall r | r in tree
      ensures GoodNames(r.children)
      ensures forall name :: name in r.children ==> PlainName(name)
      ensures forall name :: name in r.children && IsMarked(name) ==> PathOf(r.endpoint, name) in Endpoints(tree)
    {
      ChainNames(tree, dirs, r);
    }
    forall p | p in Endpoints(tree) && p != "" ensures HasParent(tree, p) {
      var k: nat :| k < |tree| && Endpoints(tree)[k] == p;
      ChainParent(tree, dirs, k - 1);
    }
  }

  function TableDirs(): seq<string> {
    ["meta-data", "operating-system", "license_activation"]
  }

  lemma TableSpine()
    ensures META == "" + "/" + "meta-data"
    ensures SYSTEM == META + "/" + "operating-system"
    ensures LICENSE == SYSTEM + "/" + "license_activation"
  {
    assert META + "/" + "operating-system" == META + ("/" + "operating-system");
    assert SYSTEM + "/" + "license_activation" == SYSTEM + ("/" + "license_activation");
    assert "/" + "operating-system" == "/operating-system";
    assert "/" + "license_activation" == "/license_activation";
  }

  lemma TableDirsListed()
    ensures "meta-data" + "/" in RootNames() && "operating-system" + "/" in MetaNames()
    ensures "license_activation" + "/" in SystemNames()
  {
    DirectoryNames();
    assert RootNames()[0] == "meta-data/" && LaterNames()[0] == "operating-system/";
    assert SystemNames()[2] == "license_activation/";
  }

  lemma TableLinks()
    ensures IsLink(Route("", RootNames()), "meta-data", META)
    ensures IsLink(Route(META, MetaNames()), "operating-system", SYSTEM)
    ensures IsLink(Route(SYSTEM, SystemNames()), "license_activation", LICENSE)
  {
    RootGood();
    MetaGood();
    SystemGood();
    PlainTexts();
    PlainSystemTexts();
    TableDirsListed();
    TableSpine();
  }

  lemma LinksMakeChain(a: Route, x: string, b: Route, y: string, c: Route, z: string, d: Route)
    requires a.endpoint == "" && NoneMarked(d.children)
    requires IsLink(a, x, b.endpoint) && IsLink(b, y, c.endpoint) && IsLink(c, z, d.endpoint)
    ensures IsChain([a, b, c, d], [x, y, z])
  {
  }

  lemma TableIsChain()
    ensures IsChain(TableListing(), TableDirs())
  {
    TableLinks();
    LicenseGood();
    LinksMakeChain(Route("", RootNames()), "meta-data", Route(META, MetaNames()), "operating-system",
                   Route(SYSTEM, SystemNames()), "license_activation", Route(LICENSE, LicenseNames()));
  }

  // ----- The tree and the table agree -----

  /**
    The positions in MetaNames of the names directly below META, in table order.
    The table has /user-data first, then the endpoints of these names, then those
    of the names directly below SYSTEM, and the license state last.
  */
  function MetaOrder(): seq<nat> {
    [2, 1, 4, 3, 7, 0, 11, 8, 9, 5, 10]
  }

  /** The positions in SystemNames of the names directly below SYSTEM, in table order. */
  function SystemOrder(): seq<nat> {
    [3, 0, 4, 1]
  }

  const FIRST_META := 1
  const FIRST_SYSTEM := FIRST_META + 11
  const LICENSE_STATE := FIRST_SYSTEM + 4

  lemma MetaEndpoint(i: nat)
    requires i < |MetaOrder()|
    ensures MetaOrder()[i] < |MetaNames()| && PlainText(MetaNames()[MetaOrder()[i]])
    ensures DataRoutes()[FIRST_META + i].endpoint == META + "/" + MetaNames()[MetaOrder()[i]]
  {
    MetaSpelling();
    MetaAddressSpelling();
    PlainTexts();
    PlainAddressTexts();
  }

  lemma SystemEndpoint(i: nat)
    requires i < |SystemOrder()|
    ensures SystemOrder()[i] < |SystemNames()| && PlainText(SystemNames()[SystemOrder()[i]])
    ensures DataRoutes()[FIRST_SYSTEM + i].endpoint == SYSTEM + "/" + SystemNames()[SystemOrder()[i]]
  {
    SystemSpelling();
    PlainSystemTexts();
  }

  lemma OtherEndpoints()
    ensures |DataRoutes()| == LICENSE_STATE + 1
    ensures DataRoutes()[0].endpoint == "" + "/" + "user-data"
    ensures DataRoutes()[LICENSE_STATE].endpoint == LICENSE + "/" + "state"
  {
    LicenseSpelling();
  }

  lemma MetaOrderCovers(name: string) returns (i: nat)
    requires name in MetaNames() && !IsMarked(name)
    ensures i < |MetaOrder()| && MetaNames()[MetaOrder()[i]] == name
  {
    DirectoryNames();
    var j: nat :| j < |MetaNames()| && MetaNames()[j] == name;
    var o := MetaOrder();
    assert o[0] == 2 && o[1] == 1 && o[2] == 4 && o[3] == 3 && o[4] == 7 && o[5] == 0;
    assert o[6] == 11 && o[7] == 8 && o[8] == 9 && o[9] == 5 && o[10] == 10;
    i :| i < |o| && o[i] == j;
  }

  lemma SystemOrderCovers(name: string) returns (i: nat)
    requires name in SystemNames() && !IsMarked(name)
    ensures i < |SystemOrder()| && SystemNames()[SystemOrder()[i]] == name
  {
    DirectoryNames();
    var j: nat :| j < |SystemNames()| && SystemNames()[j] == name;
    var o := SystemOrder();
    assert o[0] == 3 && o[1] == 0 && o[2] == 4 && o[3] == 1;
    i :| i < |o| && o[i] == j;
  }

  lemma LeafIsEndpoint(k: nat, name: string) returns (i: nat)
    requires k < 4 && name in TableListing()[k].children && !IsMarked(name)
    ensures i < |DataRoutes()| && DataRoutes()[i].endpoint == TableListing()[k].endpoint + "/" + name
  {
    OtherEndpoints();
    if k == 0 {
      DirectoryNames();
      i := 0;
    } else if k == 1 {
      i := MetaOrderCovers(name);
      MetaEndpoint(i);
      i := FIRST_META + i;
    } else if k == 2 {
      i := SystemOrderCovers(name);
      SystemEndpoint(i);
      i := FIRST_SYSTEM + i;
    } else {
      i := LICENSE_STATE;
    }
  }

  lemma MetaLeaf(i: nat) returns (name: string)
    requires FIRST_META <= i < FIRST_SYSTEM
    ensures name in MetaNames() && PlainText(name) && DataRoutes()[i].endpoint == META + "/" + name
  {
    MetaEndpoint(i - FIRST_META);
    name := MetaNames()[MetaOrder()[i - FIRST_META]];
  }

  lemma SystemLeaf(i: nat) returns (name: string)
    requires FIRST_SYSTEM <= i < LICENSE_STATE
    ensures name in SystemNames() && PlainText(name) && DataRoutes()[i].endpoint == SYSTEM + "/" + name
  {
    SystemEndpoint(i - FIRST_SYSTEM);
    name := SystemNames()[SystemOrder()[i - FIRST_SYSTEM]];
  }

  lemma SingleLeaves()
    ensures "user-data" in RootNames() && PlainText("user-data")
    ensures "state" in LicenseNames() && PlainText("state")
  {
    PlainTexts();
    assert RootNames()[1] == "user-data" && LicenseNames()[0] == "state";
  }

  lemma EndpointIsLeaf(i: nat) returns (k: nat, name: string)
    requires i < |DataRoutes()|
    ensures k < 4 && name in TableListing()[k].children && PlainText(name)
    ensures DataRoutes()[i].endpoint == TableListing()[k].endpoint + "/" + name
  {
    OtherEndpoints();
    SingleLeaves();
    if i < FIRST_META {
      k, name := 0, "user-data";
    } else if i < FIRST_SYSTEM {
      k := 1;
      name := MetaLeaf(i);
    } else if i < LICENSE_STATE {
      k := 2;
      name := SystemLeaf(i);
    } else {
      k, name := 3, "state";
    }
  }

  lemma LeafRooted(k: nat, name: string)
    requires k < 4
    ensures HasPrefix(TableListing()[k].endpoint + "/" + name, "/")
  {
  }

  /** The table spells its endpoints with a leading slash. */
  lemma TableRooted()
    ensures forall i :: 0 <= i < |DataRoutes()| ==> RootedEndpoints(DataRoutes())[i] == DataRoutes()[i].endpoint
  {
    forall i | 0 <= i < |DataRoutes()| ensures RootedEndpoints(DataRoutes())[i] == DataRoutes()[i].endpoint {
      var k, name := EndpointIsLeaf(i);
      LeafRooted(k, name);
    }
  }

  lemma UnmarkedListed(tree: seq<Route>, k: nat, name: string)
    requires k < |tree| && name in tree[k].children && !IsMarked(name)
    ensures tree[k].endpoint + "/" + name in ListedPaths(tree, false)
  {
    var x := tree[k].endpoint + "/" + name;
    assert tree[k] in tree && ListedAt(tree[k], false, name, x);
    ListedPathsMember(tree, false, x);
  }

  lemma ListedUnmarked(tree: seq<Route>, x: string) returns (k: nat, name: string)
    requires x in ListedPaths(tree, false)
    ensures k < |tree| && name in tree[k].children && !IsMarked(name) && x == tree[k].endpoint + "/" + name
  {
    ListedPathsMember(tree, false, x);
    var r: Route;
    r, name :| r in tree && ListedAt(r, false, name, x);
    k :| k < |tree| && tree[k] == r;
  }

  /** The endpoints of the table are exactly the unmarked paths of the tree. */
  lemma EndpointsAreLeaves(x: string)
    ensures x in RootedEndpoints(DataRoutes()) <==> x in ListedPaths(TableListing(), false)
  {
    TableRooted();
    if x in RootedEndpoints(DataRoutes()) {
      var i: nat :| i < |DataRoutes()| && RootedEndpoints(DataRoutes())[i] == x;
      var k, name := EndpointIsLeaf(i);
      PlainTextName(name);
      UnmarkedListed(TableListing(), k, name);
    }
    if x in ListedPaths(TableListing(), false) {
      var k, name := ListedUnmarked(TableListing(), x);
      var i := LeafIsEndpoint(k, name);
      assert RootedEndpoints(DataRoutes())[i] == x;
    }
  }

  lemma SpellingsDistinct()
    ensures |DataRoutes()| == 17
    ensures forall i, j :: 0 <= i < j < 17 ==> DataRoutes()[i].endpoint != DataRoutes()[j].endpoint
  {
  }

  lemma EndpointsDistinct()
    ensures NoDuplicates(RootedEndpoints(DataRoutes()))
  {
    TableRooted();
    SpellingsDistinct();
  }

  // ----- The tree that Configure builds -----

  /**
    The repository's endpoints never make Configure register a path twice, and
    the routes built from them are the four of the tree above.
  */
  lemma DataRoutesBuildTree()
    ensures AllRegistrable(DataRoutes()) && CollisionFree(RootedEndpoints(DataRoutes()))
    ensures NewlineFree(HistoryOf(DataRoutes()))
    ensures ListingOf(HistoryOf(DataRoutes())) == TableListing()
  {
    TableIsChain();
    ChainIsTree(TableListing(), TableDirs());
    EndpointsDistinct();
    forall x ensures x in RootedEndpoints(DataRoutes()) <==> x in ListedPaths(TableListing(), false) {
      EndpointsAreLeaves(x);
    }
    PlainTreeConfigures(DataRoutes(), TableListing());
  }
}
