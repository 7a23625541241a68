/**
  The router configured with the repository's own table of data endpoints: every
  path, what answers there, and what a client discovers.
*/
module ServedTable {
  import opened GoStrings
  import opened Ordering
  import opened Ec2
  import opened Listing
  import opened Routing
  import opened Crawl
  import opened Frontend
  import opened Navigation
  import opened DataTable

  /** This handler answers at path, with and without a trailing slash. */
  ghost predicate AnswersTwice(table: Table, path: string, handler: Handler) {
    path in table && table[path] == handler && path + "/" in table && table[path + "/"] == handler
  }

  /** A data handler that serves this projection answers at path, with and without a trailing slash. */
  ghost predicate AnswersData(table: Table, path: string, projection: Instance -> string) {
    exists filter :: AnswersTwice(table, path, DataHandler(filter)) && forall i :: filter(i) == projection(i)
  }

  // ----- The configured paths, spelled out -----

  /** The four directories. */
  ghost predicate ServesListings(table: Table) {
    && AnswersTwice(table, "/2009-04-04", StaticHandler(["meta-data/", "user-data"]))
    && AnswersTwice(table, "/2009-04-04/meta-data",
                    StaticHandler(["facility", "hostname", "instance-id", "iqn", "local-hostname", "local-ipv4",
                                   "operating-system/", "plan", "public-ipv4", "public-ipv6", "public-keys", "tags"]))
    && AnswersTwice(table, "/2009-04-04/meta-data/operating-system",
                    StaticHandler(["distro", "image_tag", "license_activation/", "slug", "version"]))
    && AnswersTwice(table, "/2009-04-04/meta-data/operating-system/license_activation", StaticHandler(["state"]))
  }

  /** The user data. */
  ghost predicate ServesUserData(table: Table) {
    && AnswersData(table, "/2009-04-04/user-data", (i: Instance) => i.userdata)
  }

  /** The names of the instance. */
  ghost predicate ServesIdentity(table: Table) {
    && AnswersData(table, "/2009-04-04/meta-data/instance-id", (i: Instance) => i.metadata.instanceID)
    && AnswersData(table, "/2009-04-04/meta-data/hostname", (i: Instance) => i.metadata.hostname)
    && AnswersData(table, "/2009-04-04/meta-data/local-hostname", (i: Instance) => i.metadata.localHostname)
  }

  /** The hardware's place and kind. */
  ghost predicate ServesPlacement(table: Table) {
    && AnswersData(table, "/2009-04-04/meta-data/iqn", (i: Instance) => i.metadata.iqn)
    && AnswersData(table, "/2009-04-04/meta-data/plan", (i: Instance) => i.metadata.plan)
    && AnswersData(table, "/2009-04-04/meta-data/facility", (i: Instance) => i.metadata.facility)
  }

  /** The fields of many values, one value a line. */
  ghost predicate ServesLists(table: Table) {
    && AnswersData(table, "/2009-04-04/meta-data/tags", (i: Instance) => Join(i.metadata.tags, '\n'))
    && AnswersData(table, "/2009-04-04/meta-data/public-keys", (i: Instance) => Join(i.metadata.publicKeys, '\n'))
  }

  /** The addresses. */
  ghost predicate ServesAddresses(table: Table) {
    && AnswersData(table, "/2009-04-04/meta-data/public-ipv4", (i: Instance) => i.metadata.publicIPv4)
    && AnswersData(table, "/2009-04-04/meta-data/public-ipv6", (i: Instance) => i.metadata.publicIPv6)
    && AnswersData(table, "/2009-04-04/meta-data/local-ipv4", (i: Instance) => i.metadata.localIPv4)
  }

  /** The operating system's family. */
  ghost predicate ServesDistro(table: Table) {
    && AnswersData(table, "/2009-04-04/meta-data/operating-system/slug",
                   (i: Instance) => i.metadata.operatingSystem.slug)
    && AnswersData(table, "/2009-04-04/meta-data/operating-system/distro",
                   (i: Instance) => i.metadata.operatingSystem.distro)
  }

  /** The operating system's release. */
  ghost predicate ServesVersion(table: Table) {
    && AnswersData(table, "/2009-04-04/meta-data/operating-system/version",
                   (i: Instance) => i.metadata.operatingSystem.version)
    && AnswersData(table, "/2009-04-04/meta-data/operating-system/image_tag",
                   (i: Instance) => i.metadata.operatingSystem.imageTag)
  }

  /** The license state. */
  ghost predicate ServesLicense(table: Table) {
    && AnswersData(table, "/2009-04-04/meta-data/operating-system/license_activation/state",
                   (i: Instance) => i.metadata.operatingSystem.licenseActivation.state)
  }

  /** What an empty router holds once configured with the repository's endpoints: these paths and no others. */
  ghost predicate ServesTable(table: Table) {
    && |table| == 42
    && ServesListings(table) && ServesUserData(table) && ServesIdentity(table) && ServesPlacement(table)
    && ServesLists(table) && ServesAddresses(table) && ServesDistro(table) && ServesVersion(table)
    && ServesLicense(table)
    && forall remote, client ::
         && StrictlySorted(From(SiteOfTable(table, remote, client), ""))
         && multiset(From(SiteOfTable(table, remote, client), "")) == multiset(RootedEndpoints(DataRoutes()))
  }

  // ----- From the table to the paths -----

  lemma ListingAt(table: Table, routes: seq<DataRoute>, listing: seq<Route>, k: nat, path: string, names: seq<string>)
    requires Answers(table, Registrations(routes, listing)) && k < |listing|
    requires path == BASE + listing[k].endpoint && listing[k].children == names
    ensures AnswersTwice(table, path, StaticHandler(names))
  {
    StaticAnswers(routes, listing, table, k);
    assert path + "/" == BASE + (listing[k].endpoint + "/");
  }

  /** Every endpoint is written with its leading slash. */
  ghost predicate AllRelative(routes: seq<DataRoute>) {
    forall i :: 0 <= i < |routes| ==> Relative(routes[i].endpoint) == routes[i].endpoint
  }

  lemma TableRelative()
    ensures AllRelative(DataRoutes())
  {
    TableRooted();
  }

  /** The table has this endpoint, with this projection, at place i. */
  ghost predicate HasRow(routes: seq<DataRoute>, i: nat, endpoint: string, projection: Instance -> string) {
    && i < |routes| && routes[i].endpoint == endpoint
    && forall inst :: routes[i].filter(inst) == projection(inst)
  }

  /** The data endpoint called name below the directory p, whose full path is dir. */
  lemma DataAt(table: Table, routes: seq<DataRoute>, listing: seq<Route>, i: nat, p: string, dir: string, name: string,
               path: string, projection: Instance -> string)
    requires Answers(table, Registrations(routes, listing)) && AllRelative(routes)
    requires HasRow(routes, i, p + name, projection) && dir == BASE + p && path == dir + name
    ensures AnswersData(table, path, projection)
  {
    var r := routes[i];
    DataRegistered(routes, listing, i);
    assert path == BASE + r.endpoint && path + "/" == BASE + (r.endpoint + "/");
    assert AnswersTwice(table, path, DataHandler(r.filter));
  }

  lemma DirectoryPaths()
    ensures BASE + META == "/2009-04-04/meta-data"
    ensures BASE + SYSTEM == "/2009-04-04/meta-data/operating-system"
    ensures BASE + LICENSE == "/2009-04-04/meta-data/operating-system/license_activation"
  {
    assert "/2009-04-04" + "/meta-data" == "/2009-04-04/meta-data";
    assert BASE + SYSTEM == "/2009-04-04/meta-data" + "/operating-system";
    assert BASE + LICENSE == BASE + SYSTEM + "/license_activation";
    SystemFull();
    LicenseFull();
  }

  lemma SystemFull()
    ensures "/2009-04-04/meta-data" + "/operating-system" == "/2009-04-04/meta-data/operating-system"
  {
  }

  lemma LicenseFull()
    ensures "/2009-04-04/meta-data/operating-system" + "/license_activation" ==
              "/2009-04-04/meta-data/operating-system/license_activation"
  {
  }

  ghost predicate UserDataRows(routes: seq<DataRoute>) {
    && HasRow(routes, 0, "/user-data", (i: Instance) => i.userdata)
  }

  lemma UserDataInTable()
    ensures UserDataRows(DataRoutes())
  {
  }

  lemma UserDataPath()
    ensures BASE + "/user-data" == "/2009-04-04/user-data"
  {
  }

  lemma AtRoot(p: string, dir: string, name: string)
    requires p == ""
    ensures p + name == name && dir + p == dir
  {
  }

  lemma UserDataServed(table: Table, routes: seq<DataRoute>, listing: seq<Route>, p: string, dir: string)
    requires Answers(table, Registrations(routes, listing)) && AllRelative(routes) && UserDataRows(routes)
    requires p == "" && dir == BASE
    ensures ServesUserData(table)
  {
    AtRoot(p, dir, "/user-data");
    UserDataPath();
    DataAt(table, routes, listing, 0, p, dir, "/user-data", "/2009-04-04/user-data", (i: Instance) => i.userdata);
  }

  ghost predicate IdentityRows(routes: seq<DataRoute>) {
    && HasRow(routes, 1, "/meta-data/instance-id", (i: Instance) => i.metadata.instanceID)
    && HasRow(routes, 2, "/meta-data/hostname", (i: Instance) => i.metadata.hostname)
    && HasRow(routes, 3, "/meta-data/local-hostname", (i: Instance) => i.metadata.localHostname)
  }

  lemma IdentityInTable()
    ensures IdentityRows(DataRoutes())
  {
  }

  lemma IdentityEndpoints()
    ensures "/meta-data" + "/instance-id" == "/meta-data/instance-id"
    ensures "/meta-data" + "/hostname" == "/meta-data/hostname"
    ensures "/meta-data" + "/local-hostname" == "/meta-data/local-hostname"
  {
  }

  lemma IdentityPaths()
    ensures "/2009-04-04/meta-data" + "/instance-id" == "/2009-04-04/meta-data/instance-id"
    ensures "/2009-04-04/meta-data" + "/hostname" == "/2009-04-04/meta-data/hostname"
    ensures "/2009-04-04/meta-data" + "/local-hostname" == "/2009-04-04/meta-data/local-hostname"
  {
  }

  lemma InstanceIdServed(table: Table, routes: seq<DataRoute>, listing: seq<Route>, p: string, dir: string)
    requires Answers(table, Registrations(routes, listing)) && AllRelative(routes)
    requires HasRow(routes, 1, "/meta-data/instance-id", (i: Instance) => i.metadata.instanceID)
    requires dir == BASE + p && p + "/instance-id" == "/meta-data/instance-id"
    requires dir + "/instance-id" == "/2009-04-04/meta-data/instance-id"
    ensures AnswersData(table, "/2009-04-04/meta-data/instance-id", (i: Instance) => i.metadata.instanceID)
  {
    DataAt(table, routes, listing, 1, p, dir, "/instance-id", "/2009-04-04/meta-data/instance-id",
           (i: Instance) => i.metadata.instanceID);
  }

  lemma HostnameServed(table: Table, routes: seq<DataRoute>, listing: seq<Route>, p: string, dir: string)
    requires Answers(table, Registrations(routes, listing)) && AllRelative(routes)
    requires HasRow(routes, 2, "/meta-data/hostname", (i: Instance) => i.metadata.hostname)
    requires dir == BASE + p && p + "/hostname" == "/meta-data/hostname"
    requires dir + "/hostname" == "/2009-04-04/meta-data/hostname"
    ensures AnswersData(table, "/2009-04-04/meta-data/hostname", (i: Instance) => i.metadata.hostname)
  {
    DataAt(table, routes, listing, 2, p, dir, "/hostname", "/2009-04-04/meta-data/hostname",
           (i: Instance) => i.metadata.hostname);
  }

  lemma LocalHostnameServed(table: Table, routes: seq<DataRoute>, listing: seq<Route>, p: string, dir: string)
    requires Answers(table, Registrations(routes, listing)) && AllRelative(routes)
    requires HasRow(routes, 3, "/meta-data/local-hostname", (i: Instance) => i.metadata.localHostname)
    requires dir == BASE + p && p + "/local-hostname" == "/meta-data/local-hostname"
    requires dir + "/local-hostname" == "/2009-04-04/meta-data/local-hostname"
    ensures AnswersData(table, "/2009-04-04/meta-data/local-hostname", (i: Instance) => i.metadata.localHostname)
  {
    DataAt(table, routes, listing, 3, p, dir, "/local-hostname", "/2009-04-04/meta-data/local-hostname",
           (i: Instance) => i.metadata.localHostname);
  }

  lemma IdentityServed(table: Table, routes: seq<DataRoute>, listing: seq<Route>, p: string, dir: string)
    requires Answers(table, Registrations(routes, listing)) && AllRelative(routes) && IdentityRows(routes)
    requires p == "/meta-data" && dir == BASE + p && dir == "/2009-04-04/meta-data"
    ensures ServesIdentity(table)
  {
    IdentityEndpoints();
    IdentityPaths();
    InstanceIdServed(table, routes, listing, p, dir);
    HostnameServed(table, routes, listing, p, dir);
    LocalHostnameServed(table, routes, listing, p, dir);
  }

  ghost predicate PlacementRows(routes: seq<DataRoute>) {
    && HasRow(routes, 4, "/meta-data/iqn", (i: Instance) => i.metadata.iqn)
    && HasRow(routes, 5, "/meta-data/plan", (i: Instance) => i.metadata.plan)
    && HasRow(routes, 6, "/meta-data/facility", (i: Instance) => i.metadata.facility)
  }

  lemma PlacementInTable()
    ensures PlacementRows(DataRoutes())
  {
  }

  lemma PlacementEndpoints()
    ensures "/meta-data" + "/iqn" == "/meta-data/iqn"
    ensures "/meta-data" + "/plan" == "/meta-data/plan"
    ensures "/meta-data" + "/facility" == "/meta-data/facility"
  {
  }

  lemma PlacementPaths()
    ensures "/2009-04-04/meta-data" + "/iqn" == "/2009-04-04/meta-data/iqn"
    ensures "/2009-04-04/meta-data" + "/plan" == "/2009-04-04/meta-data/plan"
    ensures "/2009-04-04/meta-data" + "/facility" == "/2009-04-04/meta-data/facility"
  {
  }

  lemma IqnServed(table: Table, routes: seq<DataRoute>, listing: seq<Route>, p: string, dir: string)
    requires Answers(table, Registrations(routes, listing)) && AllRelative(routes)
    requires HasRow(routes, 4, "/meta-data/iqn", (i: Instance) => i.metadata.iqn)
    requires dir == BASE + p && p + "/iqn" == "/meta-data/iqn" && dir + "/iqn" == "/2009-04-04/meta-data/iqn"
    ensures AnswersData(table, "/2009-04-04/meta-data/iqn", (i: Instance) => i.metadata.iqn)
  {
    DataAt(table, routes, listing, 4, p, dir, "/iqn", "/2009-04-04/meta-data/iqn", (i: Instance) => i.metadata.iqn);
  }

  lemma PlanServed(table: Table, routes: seq<DataRoute>, listing: seq<Route>, p: string, dir: string)
    requires Answers(table, Registrations(routes, listing)) && AllRelative(routes)
    requires HasRow(routes, 5, "/meta-data/plan", (i: Instance) => i.metadata.plan)
    requires dir == BASE + p && p + "/plan" == "/meta-data/plan" && dir + "/plan" == "/2009-04-04/meta-data/plan"
    ensures AnswersData(table, "/2009-04-04/meta-data/plan", (i: Instance) => i.metadata.plan)
  {
    DataAt(table, routes, listing, 5, p, dir, "/plan", "/2009-04-04/meta-data/plan", (i: Instance) => i.metadata.plan);
  }

  lemma FacilityServed(table: Table, routes: seq<DataRoute>, listing: seq<Route>, p: string, dir: string)
    requires Answers(table, Registrations(routes, listing)) && AllRelative(routes)
    requires HasRow(routes, 6, "/meta-data/facility", (i: Instance) => i.metadata.facility)
    requires dir == BASE + p && p + "/facility" == "/meta-data/facility"
    requires dir + "/facility" == "/2009-04-04/meta-data/facility"
    ensures AnswersData(table, "/2009-04-04/meta-data/facility", (i: Instance) => i.metadata.facility)
  {
    DataAt(table, routes, listing, 6, p, dir, "/facility", "/2009-04-04/meta-data/facility",
           (i: Instance) => i.metadata.facility);
  }

  lemma PlacementServed(table: Table, routes: seq<DataRoute>, listing: seq<Route>, p: string, dir: string)
    requires Answers(table, Registrations(routes, listing)) && AllRelative(routes) && PlacementRows(routes)
    requires p == "/meta-data" && dir == BASE + p && dir == "/2009-04-04/meta-data"
    ensures ServesPlacement(table)
  {
    PlacementEndpoints();
    PlacementPaths();
    IqnServed(table, routes, listing, p, dir);
    PlanServed(table, routes, listing, p, dir);
    FacilityServed(table, routes, listing, p, dir);
  }

  ghost predicate ListsRows(routes: seq<DataRoute>) {
    && HasRow(routes, 7, "/meta-data/tags", (i: Instance) => Join(i.metadata.tags, '\n'))
    && HasRow(routes, 11, "/meta-data/public-keys", (i: Instance) => Join(i.metadata.publicKeys, '\n'))
  }

  lemma ListsInTable()
    ensures ListsRows(DataRoutes())
  {
  }

  lemma ListsSpelled()
    ensures "/meta-data" + "/tags" == "/meta-data/tags"
    ensures "/2009-04-04/meta-data" + "/tags" == "/2009-04-04/meta-data/tags"
    ensures "/meta-data" + "/public-keys" == "/meta-data/public-keys"
    ensures "/2009-04-04/meta-data" + "/public-keys" == "/2009-04-04/meta-data/public-keys"
  {
  }

  lemma TagsServed(table: Table, routes: seq<DataRoute>, listing: seq<Route>, p: string, dir: string)
    requires Answers(table, Registrations(routes, listing)) && AllRelative(routes)
    requires HasRow(routes, 7, "/meta-data/tags", (i: Instance) => Join(i.metadata.tags, '\n'))
    requires dir == BASE + p && p + "/tags" == "/meta-data/tags" && dir + "/tags" == "/2009-04-04/meta-data/tags"
    ensures AnswersData(table, "/2009-04-04/meta-data/tags", (i: Instance) => Join(i.metadata.tags, '\n'))
  {
    DataAt(table, routes, listing, 7, p, dir, "/tags", "/2009-04-04/meta-data/tags",
           (i: Instance) => Join(i.metadata.tags, '\n'));
  }

  lemma PublicKeysServed(table: Table, routes: seq<DataRoute>, listing: seq<Route>, p: string, dir: string)
    requires Answers(table, Registrations(routes, listing)) && AllRelative(routes)
    requires HasRow(routes, 11, "/meta-data/public-keys", (i: Instance) => Join(i.metadata.publicKeys, '\n'))
    requires dir == BASE + p && p + "/public-keys" == "/meta-data/public-keys"
    requires dir + "/public-keys" == "/2009-04-04/meta-data/public-keys"
    ensures AnswersData(table, "/2009-04-04/meta-data/public-keys", (i: Instance) => Join(i.metadata.publicKeys, '\n'))
  {
    DataAt(table, routes, listing, 11, p, dir, "/public-keys", "/2009-04-04/meta-data/public-keys",
           (i: Instance) => Join(i.metadata.publicKeys, '\n'));
  }

  lemma ListsServed(table: Table, routes: seq<DataRoute>, listing: seq<Route>, p: string, dir: string)
    requires Answers(table, Registrations(routes, listing)) && AllRelative(routes) && ListsRows(routes)
    requires p == "/meta-data" && dir == BASE + p && dir == "/2009-04-04/meta-data"
    ensures ServesLists(table)
  {
    ListsSpelled();
    TagsServed(table, routes, listing, p, dir);
    PublicKeysServed(table, routes, listing, p, dir);
  }

  ghost predicate AddressesRows(routes: seq<DataRoute>) {
    && HasRow(routes, 8, "/meta-data/public-ipv4", (i: Instance) => i.metadata.publicIPv4)
    && HasRow(routes, 9, "/meta-data/public-ipv6", (i: Instance) => i.metadata.publicIPv6)
    && HasRow(routes, 10, "/meta-data/local-ipv4", (i: Instance) => i.metadata.localIPv4)
  }

  lemma AddressesInTable()
    ensures AddressesRows(DataRoutes())
  {
  }

  lemma AddressesEndpoints()
    ensures "/meta-data" + "/public-ipv4" == "/meta-data/public-ipv4"
    ensures "/meta-data" + "/public-ipv6" == "/meta-data/public-ipv6"
    ensures "/meta-data" + "/local-ipv4" == "/meta-data/local-ipv4"
  {
  }

  lemma AddressesPaths()
    ensures "/2009-04-04/meta-data" + "/public-ipv4" == "/2009-04-04/meta-data/public-ipv4"
    ensures "/2009-04-04/meta-data" + "/public-ipv6" == "/2009-04-04/meta-data/public-ipv6"
    ensures "/2009-04-04/meta-data" + "/local-ipv4" == "/2009-04-04/meta-data/local-ipv4"
  {
  }

  lemma PublicIPv4Served(table: Table, routes: seq<DataRoute>, listing: seq<Route>, p: string, dir: string)
    requires Answers(table, Registrations(routes, listing)) && AllRelative(routes)
    requires HasRow(routes, 8, "/meta-data/public-ipv4", (i: Instance) => i.metadata.publicIPv4)
    requires dir == BASE + p && p + "/public-ipv4" == "/meta-data/public-ipv4"
    requires dir + "/public-ipv4" == "/2009-04-04/meta-data/public-ipv4"
    ensures AnswersData(table, "/2009-04-04/meta-data/public-ipv4", (i: Instance) => i.metadata.publicIPv4)
  {
    DataAt(table, routes, listing, 8, p, dir, "/public-ipv4", "/2009-04-04/meta-data/public-ipv4",
           (i: Instance) => i.metadata.publicIPv4);
  }

  lemma PublicIPv6Served(table: Table, routes: seq<DataRoute>, listing: seq<Route>, p: string, dir: string)
    requires Answers(table, Registrations(routes, listing)) && AllRelative(routes)
    requires HasRow(routes, 9, "/meta-data/public-ipv6", (i: Instance) => i.metadata.publicIPv6)
    requires dir == BASE + p && p + "/public-ipv6" == "/meta-data/public-ipv6"
    requires dir + "/public-ipv6" == "/2009-04-04/meta-data/public-ipv6"
    ensures AnswersData(table, "/2009-04-04/meta-data/public-ipv6", (i: Instance) => i.metadata.publicIPv6)
  {
    DataAt(table, routes, listing, 9, p, dir, "/public-ipv6", "/2009-04-04/meta-data/public-ipv6",
           (i: Instance) => i.metadata.publicIPv6);
  }

  lemma LocalIPv4Served(table: Table, routes: seq<DataRoute>, listing: seq<Route>, p: string, dir: string)
    requires Answers(table, Registrations(routes, listing)) && AllRelative(routes)
    requires HasRow(routes, 10, "/meta-data/local-ipv4", (i: Instance) => i.metadata.localIPv4)
    requires dir == BASE + p && p + "/local-ipv4" == "/meta-data/local-ipv4"
    requires dir + "/local-ipv4" == "/2009-04-04/meta-data/local-ipv4"
    ensures AnswersData(table, "/2009-04-04/meta-data/local-ipv4", (i: Instance) => i.metadata.localIPv4)
  {
    DataAt(table, routes, listing, 10, p, dir, "/local-ipv4", "/2009-04-04/meta-data/local-ipv4",
           (i: Instance) => i.metadata.localIPv4);
  }

  lemma AddressesServed(table: Table, routes: seq<DataRoute>, listing: seq<Route>, p: string, dir: string)
    requires Answers(table, Registrations(routes, listing)) && AllRelative(routes) && AddressesRows(routes)
    requires p == "/meta-data" && dir == BASE + p && dir == "/2009-04-04/meta-data"
    ensures ServesAddresses(table)
  {
    AddressesEndpoints();
    AddressesPaths();
    PublicIPv4Served(table, routes, listing, p, dir);
    PublicIPv6Served(table, routes, listing, p, dir);
    LocalIPv4Served(table, routes, listing, p, dir);
  }

  ghost predicate DistroRows(routes: seq<DataRoute>) {
    && HasRow(routes, 12, "/meta-data/operating-system/slug", (i: Instance) => i.metadata.operatingSystem.slug)
    && HasRow(routes, 13, "/meta-data/operating-system/distro", (i: Instance) => i.metadata.operatingSystem.distro)
  }

  lemma DistroInTable()
    ensures DistroRows(DataRoutes())
  {
  }

  lemma DistroSpelled()
    ensures "/meta-data/operating-system" + "/slug" == "/meta-data/operating-system/slug"
    ensures "/2009-04-04/meta-data/operating-system" + "/slug" == "/2009-04-04/meta-data/operating-system/slug"
    ensures "/meta-data/operating-system" + "/distro" == "/meta-data/operating-system/distro"
    ensures "/2009-04-04/meta-data/operating-system" + "/distro" == "/2009-04-04/meta-data/operating-system/distro"
  {
  }

  lemma SlugServed(table: Table, routes: seq<DataRoute>, listing: seq<Route>, p: string, dir: string)
    requires Answers(table, Registrations(routes, listing)) && AllRelative(routes)
    requires HasRow(routes, 12, "/meta-data/operating-system/slug", (i: Instance) => i.metadata.operatingSystem.slug)
    requires dir == BASE + p && p + "/slug" == "/meta-data/operating-system/slug"
    requires dir + "/slug" == "/2009-04-04/meta-data/operating-system/slug"
    ensures AnswersData(table, "/2009-04-04/meta-data/operating-system/slug",
                        (i: Instance) => i.metadata.operatingSystem.slug)
  {
    DataAt(table, routes, listing, 12, p, dir, "/slug", "/2009-04-04/meta-data/operating-system/slug",
           (i: Instance) => i.metadata.operatingSystem.slug);
  }

  lemma DistroNameServed(table: Table, routes: seq<DataRoute>, listing: seq<Route>, p: string, dir: string)
    requires Answers(table, Registrations(routes, listing)) && AllRelative(routes)
    requires HasRow(routes, 13, "/meta-data/operating-system/distro",
                    (i: Instance) => i.metadata.operatingSystem.distro)
    requires dir == BASE + p && p + "/distro" == "/meta-data/operating-system/distro"
    requires dir + "/distro" == "/2009-04-04/meta-data/operating-system/distro"
    ensures AnswersData(table, "/2009-04-04/meta-data/operating-system/distro",
                        (i: Instance) => i.metadata.operatingSystem.distro)
  {
    DataAt(table, routes, listing, 13, p, dir, "/distro", "/2009-04-04/meta-data/operating-system/distro",
           (i: Instance) => i.metadata.operatingSystem.distro);
  }

  lemma DistroServed(table: Table, routes: seq<DataRoute>, listing: seq<Route>, p: string, dir: string)
    requires Answers(table, Registrations(routes, listing)) && AllRelative(routes) && DistroRows(routes)
    requires p == "/meta-data/operating-system" && dir == BASE + p && dir == "/2009-04-04/meta-data/operating-system"
    ensures ServesDistro(table)
  {
    DistroSpelled();
    SlugServed(table, routes, listing, p, dir);
    DistroNameServed(table, routes, listing, p, dir);
  }

  ghost predicate VersionRows(routes: seq<DataRoute>) {
    && HasRow(routes, 14, "/meta-data/operating-system/version", (i: Instance) => i.metadata.operatingSystem.version)
    && HasRow(routes, 15, "/meta-data/operating-system/image_tag", (i: Instance) => i.metadata.operatingSystem.imageTag)
  }

  lemma VersionInTable()
    ensures VersionRows(DataRoutes())
  {
  }

  lemma VersionSpelled()
    ensures "/meta-data/operating-system" + "/version" == "/meta-data/operating-system/version"
    ensures "/2009-04-04/meta-data/operating-system" + "/version" == "/2009-04-04/meta-data/operating-system/version"
    ensures "/meta-data/operating-system" + "/image_tag" == "/meta-data/operating-system/image_tag"
    ensures "/2009-04-04/meta-data/operating-system" + "/image_tag" ==
              "/2009-04-04/meta-data/operating-system/image_tag"
  {
  }

  lemma VersionTextServed(table: Table, routes: seq<DataRoute>, listing: seq<Route>, p: string, dir: string)
    requires Answers(table, Registrations(routes, listing)) && AllRelative(routes)
    requires HasRow(routes, 14, "/meta-data/operating-system/version",
                    (i: Instance) => i.metadata.operatingSystem.version)
    requires dir == BASE + p && p + "/version" == "/meta-data/operating-system/version"
    requires dir + "/version" == "/2009-04-04/meta-data/operating-system/version"
    ensures AnswersData(table, "/2009-04-04/meta-data/operating-system/version",
                        (i: Instance) => i.metadata.operatingSystem.version)
  {
    DataAt(table, routes, listing, 14, p, dir, "/version", "/2009-04-04/meta-data/operating-system/version",
           (i: Instance) => i.metadata.operatingSystem.version);
  }

  lemma ImageTagServed(table: Table, routes: seq<DataRoute>, listing: seq<Route>, p: string, dir: string)
    requires Answers(table, Registrations(routes, listing)) && AllRelative(routes)
    requires HasRow(routes, 15, "/meta-data/operating-system/image_tag",
                    (i: Instance) => i.metadata.operatingSystem.imageTag)
    requires dir == BASE + p && p + "/image_tag" == "/meta-data/operating-system/image_tag"
    requires dir + "/image_tag" == "/2009-04-04/meta-data/operating-system/image_tag"
    ensures AnswersData(table, "/2009-04-04/meta-data/operating-system/image_tag",
                        (i: Instance) => i.metadata.operatingSystem.imageTag)
  {
    DataAt(table, routes, listing, 15, p, dir, "/image_tag", "/2009-04-04/meta-data/operating-system/image_tag",
           (i: Instance) => i.metadata.operatingSystem.imageTag);
  }

  lemma VersionServed(table: Table, routes: seq<DataRoute>, listing: seq<Route>, p: string, dir: string)
    requires Answers(table, Registrations(routes, listing)) && AllRelative(routes) && VersionRows(routes)
    requires p == "/meta-data/operating-system" && dir == BASE + p && dir == "/2009-04-04/meta-data/operating-system"
    ensures ServesVersion(table)
  {
    VersionSpelled();
    VersionTextServed(table, routes, listing, p, dir);
    ImageTagServed(table, routes, listing, p, dir);
  }

  ghost predicate LicenseRows(routes: seq<DataRoute>) {
    && HasRow(routes, 16, "/meta-data/operating-system/license_activation/state",
              (i: Instance) => i.metadata.operatingSystem.licenseActivation.state)
  }

  lemma LicenseInTable()
    ensures LicenseRows(DataRoutes())
  {
  }

  lemma LicenseSpelled()
    ensures "/meta-data/operating-system/license_activation" + "/state" ==
              "/meta-data/operating-system/license_activation/state"
    ensures "/2009-04-04/meta-data/operating-system/license_activation" + "/state" ==
              "/2009-04-04/meta-data/operating-system/license_activation/state"
  {
  }

  lemma LicenseServed(table: Table, routes: seq<DataRoute>, listing: seq<Route>, p: string, dir: string)
    requires Answers(table, Registrations(routes, listing)) && AllRelative(routes) && LicenseRows(routes)
    requires p == "/meta-data/operating-system/license_activation" && dir == BASE + p
    requires dir == "/2009-04-04/meta-data/operating-system/license_activation"
    ensures ServesLicense(table)
  {
    LicenseSpelled();
    DataAt(table, routes, listing, 16, p, dir, "/state",
           "/2009-04-04/meta-data/operating-system/license_activation/state",
           (i: Instance) => i.metadata.operatingSystem.licenseActivation.state);
  }

  lemma RowsServed(table: Table, listing: seq<Route>)
    requires Answers(table, Registrations(DataRoutes(), listing))
    ensures ServesUserData(table)
    ensures ServesIdentity(table)
    ensures ServesPlacement(table)
    ensures ServesLists(table)
    ensures ServesAddresses(table)
    ensures ServesDistro(table)
    ensures ServesVersion(table)
    ensures ServesLicense(table)
  {
    DirectoryPaths();
    SystemPath();
    LicensePath();
    TableRelative();
    UserDataInTable();
    UserDataServed(table, DataRoutes(), listing, "", BASE);
    IdentityInTable();
    IdentityServed(table, DataRoutes(), listing, META, BASE + META);
    PlacementInTable();
    PlacementServed(table, DataRoutes(), listing, META, BASE + META);
    ListsInTable();
    ListsServed(table, DataRoutes(), listing, META, BASE + META);
    AddressesInTable();
    AddressesServed(table, DataRoutes(), listing, META, BASE + META);
    DistroInTable();
    DistroServed(table, DataRoutes(), listing, SYSTEM, BASE + SYSTEM);
    VersionInTable();
    VersionServed(table, DataRoutes(), listing, SYSTEM, BASE + SYSTEM);
    LicenseInTable();
    LicenseServed(table, DataRoutes(), listing, LICENSE, BASE + LICENSE);
  }

  lemma ListingsServed(table: Table)
    requires Answers(table, Registrations(DataRoutes(), TableListing()))
    ensures ServesListings(table)
  {
    DirectoryPaths();
    ListingAt(table, DataRoutes(), TableListing(), 0, "/2009-04-04", RootNames());
    ListingAt(table, DataRoutes(), TableListing(), 1, "/2009-04-04/meta-data", MetaNames());
    ListingAt(table, DataRoutes(), TableListing(), 2, "/2009-04-04/meta-data/operating-system", SystemNames());
    ListingAt(table, DataRoutes(), TableListing(), 3, "/2009-04-04/meta-data/operating-system/license_activation",
              LicenseNames());
  }

  lemma TableServed(table: Table)
    requires Configured(map[], DataRoutes(), TableListing(), table)
    ensures ServesTable(table)
  {
    DataRoutesBuildTree();
    ConfiguredTable(map[], DataRoutes(), TableListing(), table);
    ListingsServed(table);
    RowsServed(table, TableListing());
    forall remote, client
      ensures StrictlySorted(From(SiteOfTable(table, remote, client), ""))
      ensures multiset(From(SiteOfTable(table, remote, client), "")) == multiset(RootedEndpoints(DataRoutes()))
    {
      Discovery(map[], DataRoutes(), TableListing(), table, remote, client);
    }
  }

  /**
    Configuring an empty router with the repository's endpoints succeeds and
    leaves 42 paths: the four listings, the seventeen data endpoints with their
    projections, and their twins, as spelled out above. A client that reads the
    responses finds every endpoint once, in strict order.
  */
  method ConfigureDataRoutes() returns (router: Router)
    ensures ServesTable(router.table)
    ensures Configured(map[], DataRoutes(), TableListing(), router.table)
  {
    router := new Router();
    var ok := Configure(router, DataRoutes());
    DataRoutesBuildTree();
    ConfigureInFreeGroup(map[], DataRoutes(), TableListing());
    TableServed(router.table);
  }
}