# Hegel's metadata tree, verified

Hegel serves EC2-style instance metadata as a tree that a client can browse:
`/2009-04-04` lists `meta-data/` and `user-data`, a name ending in a slash can be
descended into, the others are data. Nobody writes that tree down. It is derived
from the flat list of data endpoints by a static route builder, joined with the data
endpoints in one routing table, and every path is registered with and without its
trailing slash. This project models that code and proves what a client may rely on.

- **The trie** (`EndpointTrie`). The builder stores a trie in a map from joined
  parent paths to sets of child names. `TrieOf(E)` is that map for the set E of
  component lists of the endpoints added so far; lemmas give its exact meaning in
  terms of component prefixes, its closure under parents, and what the
  deepest-first loop does to that closure on the way.
- **The builder** (`StaticRoute`, `Ordering`). `Builder` and `UnorderedSet` are
  classes updated in place. Map and set iteration is a free choice of the remaining
  keys and the sort is known only by its contract, so that determinism is a theorem.
- **The listing** (`Listing`). `Lists(E, routes)` says what routes list a history E;
  `ListingOf(E)` is the only such sequence, and there is one per set of maximal
  endpoints (an added endpoint is maximal when it is not a proper component-prefix of
  another). Markers, counts, rebuilding from the leaves and the effect of one more
  endpoint follow.
- **Trees** (`RouteTree`). The sequences of routes that builders produce are exactly
  the well-formed trees, and a tree is the listing of its own leaves.
- **The crawl** (`Crawl`). A depth-first client finds exactly the maximal endpoints,
  once each, in byte-lexicographic order of the full path.
- **The routing table** (`Routing`, `Frontend`, `Navigation`, `DataTable`). A router
  that refuses a path it already has; the slash helper; `Configure`, with the exact
  condition under which it registers nothing twice; what the configured table answers;
  and the repository's own table of endpoints, with the tree it builds written out.
- **Requests** (`Responses`, `Requests`, `Kubernetes`, `Errors`, `Ec2`). Which hardware
  an address selects, the conversion to an instance, and the response that results.
- **The served site** (`ServedTable`, `ServedData`). The repository's own table once
  configured, with every path written in full: the body of each listing, and the part of
  the caller's hardware object behind each data endpoint.
- **Trusted proxies** (`Xff`, `NetAddr`, `AddressForms`). Parsing comma-separated
  addresses and blocks, over concrete grammars of IPv4 and IPv6 text and of prefix
  lengths, and which texts these grammars accept.

`GoStrings` holds `Split` and `Join` with Go's meaning (`Split("", sep)` is `[""]`), and
`Wrappers` the usual option and result. A Dafny string stands for a Go string; comparing
characters by code point orders UTF-8 text as Go orders its bytes.

Three of the repository's statements do not match its code; the model follows the code.
The comment at `internal/frontend/ec2/internal/staticroute/staticroute.go:58` speaks of
prepending a slash to children, and the code appends it. The comment at
`internal/xff/xff.go:14-15` promises /32 for IPv4 and /128 for IPv6, while an IPv6
spelling of an IPv4-mapped address takes the /32 branch; `Xff.SingleHost` says exactly
when the result covers one host and `Xff.MappedText` gives a family of texts where it
covers more. The comment at `internal/backend/kubernetes/backend.go:191` says public
IPv6, and the branch below it takes any IPv6 entry: `Kubernetes.PrivateV6Converted` is
an input where a private address becomes the public IPv6 field, and
`Kubernetes.PublicV6Selection` and `Kubernetes.PublicIPv6Field` say exactly when the
field is what the comment says.

## Model

| member | source | states |
|---|---|---|
| `GoStrings.SplitJoin` | internal/frontend/ec2/internal/staticroute/staticroute.go:36-45 | splitting a joined non-empty list of slash-free parts gives the list back, so a map key determines its component prefix |
| `GoStrings.JoinSplit` | internal/frontend/ec2/internal/staticroute/staticroute.go:36-45 | joining a split text gives the text back, for every text |
| `GoStrings.JoinInjective` | internal/frontend/ec2/internal/staticroute/staticroute.go:41-45 | two different component prefixes never share a key of the builder's map |
| `GoStrings.SplitPrefix` | internal/frontend/ec2/internal/staticroute/staticroute.go:36-45 | one endpoint is a proper component-prefix of another if and only if its text followed by a slash is a text prefix |
| `EndpointTrie.ComponentsBelowRoot` | internal/frontend/ec2/internal/staticroute/staticroute.go:31-36 | an endpoint without its leading slash has the same components as with it: an empty one and then those of the text |
| `EndpointTrie.TrieMeaning` | internal/frontend/ec2/internal/staticroute/staticroute.go:40-46 | after any history p is a key if and only if its components are a non-empty proper component-prefix of an added endpoint, and c is stored under p if and only if c comes right after that prefix in one |
| `EndpointTrie.GraftIsTrie` | internal/frontend/ec2/internal/staticroute/staticroute.go:38-46 | recording every level of one endpoint, deepest first, turns the trie of a history into the trie of the history with that endpoint |
| `EndpointTrie.TrieOfUnion` | internal/frontend/ec2/internal/staticroute/staticroute.go:40-46 | the state after two histories is the pointwise union of the two states |
| `EndpointTrie.TrieAncestorClosed` | internal/frontend/ec2/internal/staticroute/staticroute.go:38-46 | after complete calls the root is a key as soon as anything is, every key lists something, and every other key is listed by a parent key |
| `EndpointTrie.ParentUnique` | internal/frontend/ec2/internal/staticroute/staticroute.go:38-46 | that parent and the child name under it are unique |
| `EndpointTrie.ClosureMidway` | internal/frontend/ec2/internal/staticroute/staticroute.go:40-46 | in the middle of the deepest-first loop the map is closed under parents if and only if the earlier history already listed the directory reached |
| `StaticRoute.UnorderedSet.constructor` | internal/frontend/ec2/internal/staticroute/set.go:6-8 | a new set is empty |
| `StaticRoute.UnorderedSet.Insert` | internal/frontend/ec2/internal/staticroute/set.go:11-13 | adds the element and nothing else |
| `StaticRoute.UnorderedSet.Range` | internal/frontend/ec2/internal/staticroute/set.go:16-20 | calls back once per element, in an order nothing is known about |
| `StaticRoute.Builder.constructor` | internal/frontend/ec2/internal/staticroute/staticroute.go:23-25 | a new builder is the trie of the empty history |
| `StaticRoute.Builder.FromEndpoint` | internal/frontend/ec2/internal/staticroute/staticroute.go:29-47 | for every text, with or without a leading slash, the map becomes the trie of the history with the normalised endpoint's components; sets of different keys stay unshared |
| `StaticRoute.Builder.Build` | internal/frontend/ec2/internal/staticroute/staticroute.go:52-80 | whatever the order in which the map and its sets are walked, the result is the one listing of the history: strictly ordered routes, one per key, each with its marked children in strict order |
| `StaticRoute.MarkedOnce` | internal/frontend/ec2/internal/staticroute/staticroute.go:59-69 | appending slashes never makes two children equal, so each list is a permutation of the marked set |
| `Ordering.Swap` | internal/frontend/ec2/internal/staticroute/sortable.go:6 | exchanges two elements in place and keeps the multiset |
| `Ordering.Sort` | internal/frontend/ec2/internal/staticroute/sortable.go:3-9 | sorts in place by a string key; equal keys may come out in any order |
| `StaticRoute.SortRoutes` | internal/frontend/ec2/internal/staticroute/staticroute.go:76-77 | sorting by endpoint alone gives strictly increasing endpoints, because endpoints are distinct |
| `Ordering.LessExactly` | internal/frontend/ec2/internal/staticroute/sortable.go:8 | strings are compared lexicographically: the first difference decides, and a proper prefix comes first |
| `Ordering.StrictlySortedUnique` | internal/frontend/ec2/internal/staticroute/staticroute.go:71 | a strictly sorted list is determined by its elements |
| `Listing.ListingUnique` | internal/frontend/ec2/internal/staticroute/staticroute.go:52-80 | a builder state admits one sequence of routes only |
| `Listing.ListingOf` | internal/frontend/ec2/internal/staticroute/staticroute.go:52-80 | every history admits such a sequence |
| `StaticRoute.BuildTwice` | internal/frontend/ec2/internal/staticroute/staticroute.go:29-80 | two histories with the same normalised endpoints build the same routes; and two histories build the same routes if and only if they have the same maximal endpoints |
| `Listing.MarkersTruthful` | internal/frontend/ec2/internal/staticroute/staticroute.go:59-69 | a listed name ends in a slash if and only if its path is the endpoint of another route, and does not if and only if its path is a maximal endpoint |
| `Listing.TreeCounts` | internal/frontend/ec2/internal/staticroute/staticroute.go:55-73 | marked names and non-root routes are in bijection, unmarked names and maximal endpoints are in bijection; marked names number routes minus one, all names that plus the maximal endpoints |
| `Listing.RebuildRoundTrip` | internal/frontend/ec2/internal/staticroute/staticroute.go:29-80 | a listing is the only listing of the history made of its own unmarked paths |
| `StaticRoute.Rebuild` | internal/frontend/ec2/internal/staticroute/staticroute.go:29-80 | building, feeding the unmarked paths to a new builder and building again gives the same routes, for every history |
| `Listing.OneMoreEndpoint` | internal/frontend/ec2/internal/staticroute/staticroute.go:40-69 | one more endpoint leaves every route off its path unchanged; a route on its path keeps every other name, and lists the endpoint's next component once, with a slash if and only if it had it or the endpoint goes deeper; a created route is on the path and lists that component only, marked if and only if the endpoint goes deeper |
| `RouteTree.TreeIsListing` | internal/frontend/ec2/internal/staticroute/staticroute.go:29-80 | every well-formed tree of routes is the listing of its own unmarked paths |
| `RouteTree.ListingsAreTrees` | internal/frontend/ec2/internal/staticroute/staticroute.go:29-80 | a sequence of routes is the listing of some history if and only if it is a well-formed tree: strictly ordered endpoints with a root, non-empty strictly ordered slash-free names marked at most once each, every marked name leading to a route and every other route listed under a marked name |
| `Crawl.CrawlEqualsSort` | internal/frontend/ec2/internal/staticroute/staticroute.go:64-71 | descending into marked names from the root ends, and discovers exactly the maximal endpoints, each once, in strictly increasing order of full path |
| `Crawl.BodyReadable` | internal/frontend/ec2/frontend.go:111-113 | a listing can be read back from its newline-joined body if and only if it is non-empty and no name holds a newline |
| `Crawl.BodyRoundTrip` | internal/frontend/ec2/frontend.go:78-82 | every built listing of newline-free endpoints can be read back from its body |
| `Crawl.CrawlOfRoutes` | internal/frontend/ec2/frontend.go:78-86 | a client that only reads the bodies of the responses discovers exactly the maximal endpoints if and only if no endpoint holds a newline, and then in strictly increasing order |
| `Routing.Router.GET` | internal/ginutil/router.go:31-33 | a path is accepted if and only if it is free, and acceptance changes that path only |
| `Routing.TrailingSlashRouteHelper.GET` | internal/ginutil/router.go:19-34 | registers the endpoint and then its slash-toggled twin with the same handler, each under the path of the group, stopping at a taken path |
| `Routing.GroupPathComponents` | internal/frontend/ec2/frontend.go:45 | a path in a group has the components of the prefix and then those of the endpoint, with or without the leading slash |
| `Routing.RegisterSucceeds` | internal/ginutil/router.go:31-33 | a sequence of registrations succeeds if and only if its paths are distinct and all free |
| `Routing.TwinsDistinct` | internal/ginutil/router.go:24-33 | endpoints without a trailing slash have pairwise distinct twins if and only if they are pairwise distinct |
| `Frontend.Configure` | internal/frontend/ec2/frontend.go:42-87 | for every table of data routes, registers the data endpoints in table order and then the built static routes, each with its twin, under /2009-04-04, and stops at the first refusal |
| `Frontend.DataBeforeStatic` | internal/frontend/ec2/frontend.go:73-86 | when a data endpoint is refused nothing more is registered; once all are registered they stay, even when a static route is refused |
| `Frontend.ConfigureSucceeds` | internal/frontend/ec2/frontend.go:73-86 | for every router and all endpoints of plain components, with or without a leading or a trailing slash, nothing is refused if and only if, each endpoint read with a leading slash, none ends in a slash, all are distinct and none is a proper component-prefix of another, and the router holds none of the paths to be registered |
| `Frontend.ConfigureInFreeGroup` | internal/frontend/ec2/frontend.go:73-86 | on a router with nothing under the prefix, success is equivalent to that condition on the endpoints alone |
| `Frontend.TrailingSlashRefused` | internal/frontend/ec2/frontend.go:73-86 | an empty endpoint, or one with a trailing slash, always collides with the static route of its own directory |
| `Navigation.ConfiguredTable` | internal/frontend/ec2/frontend.go:73-86 | success adds exactly two paths per data endpoint and per static route, each answering with its own handler, and nothing else answers under the prefix |
| `Navigation.NamesResolve` | internal/frontend/ec2/frontend.go:47-86 | a listed name appended to its listed path leads to the static handler of that directory when marked and to the data handler of that endpoint when not; every path under the prefix and its slash-toggled twin carry the same handler, and each is the other's twin |
| `Navigation.Discovery` | internal/frontend/ec2/frontend.go:42-87 | on a configured table, a client at any remote address that starts at the prefix and reads the bodies of the responses finds exactly the data endpoints, each once, if and only if no endpoint holds a newline, and then in strict order; each endpoint answers with its own data handler |
| `DataTable.PlainTreeConfigures` | internal/frontend/ec2/frontend.go:73-86 | any table whose endpoints are the distinct leaves of a well-formed tree with plain names meets the condition and builds that tree |
| `DataTable.DataRoutesBuildTree` | internal/frontend/ec2/routes.go:9-115 | the table of endpoints meets the condition, and the routes built from it are the four listings written out in `DataTable.TableListing` |
| `ServedTable.ConfigureDataRoutes` | internal/frontend/ec2/routes.go:9-115 | configuring an empty router with that table succeeds and leaves 42 paths, each spelled out in full: the four listings with their names, the seventeen data endpoints with the field of the instance that each serves, and their twins; any client that reads the responses finds every endpoint once, in strict order |
| `ServedData.ListingsRead` | internal/frontend/ec2/frontend.go:78-82 | on that table the four listings are served with status 200, one name a line, to every remote address and whatever the backend answers; "/2009-04-04" serves "meta-data/", a newline and "user-data" |
| `ServedData.OwnerReadsNames` | internal/frontend/ec2/routes.go:19-36 | on that table, with or without the trailing slash, the machine whose address belongs to exactly one hardware object reads that object's instance id, and its hostname at both hostname endpoints; all empty without an instance |
| `ServedData.OwnerReadsTags` | internal/frontend/ec2/routes.go:55-60 | it reads its tags, one a line |
| `ServedData.OwnerReadsSystem` | internal/frontend/ec2/routes.go:85-108 | it reads its operating system's slug, distro, version and image tag; all empty without one |
| `ServedData.OwnerReadsFacility` | internal/frontend/ec2/routes.go:43-54 | it reads its facility's plan and code; both empty without one |
| `ServedData.OwnerReadsUserData` | internal/frontend/ec2/routes.go:13-18 | it reads its user data, empty without any |
| `ServedData.OwnerReadsAddresses` | internal/frontend/ec2/routes.go:61-78 | it reads the first non-empty address of family 4 and public, of family 4 and not public, and of family 6; empty if and only if there is none |
| `ServedData.OwnerReadsBlanks` | internal/frontend/ec2/routes.go:37-42 | it reads nothing at the iqn, public-keys and license-state endpoints, which no hardware field feeds |
| `Kubernetes.HardwareIPIndexFunc` | internal/backend/kubernetes/index.go:13-25 | the index keys of a hardware object are its non-empty interface addresses in order, and another kind of object has none |
| `Kubernetes.IndexKeysConcat` | internal/backend/kubernetes/index.go:19-23 | the keys of one list of interfaces after another are the keys of the one and then those of the other |
| `Kubernetes.IndexKeysOne` | internal/backend/kubernetes/index.go:20-22 | one interface gives its address as the only key, or no key when the address is absent or empty |
| `Kubernetes.ListCounts` | internal/backend/kubernetes/backend.go:136-154 | listing by address yields none, one or several items exactly as none, one or several objects have an interface with that non-empty address; repeats within one object count once |
| `Kubernetes.ToEC2Instance` | internal/backend/kubernetes/backend.go:162-214 | one pass over the addresses leaves the three address fields as three separate first-match searches would, and every other field as `Kubernetes.Convert` has it; `ServedData` says what each field is |
| `Kubernetes.ConvertedAddresses` | internal/backend/kubernetes/backend.go:178-195 | the public IPv4 field is the first non-empty address of family 4 and public, the local one of family 4 and not public, the IPv6 one of family 6; each is empty if and only if there is none |
| `Kubernetes.FirstAddressIsFirst` | internal/backend/kubernetes/backend.go:178-195 | each search yields the first non-empty address of its class, and "" if and only if there is none |
| `Kubernetes.OtherClassesIrrelevant` | internal/backend/kubernetes/backend.go:178-195 | entries of other classes never change a result, wherever they stand |
| `Kubernetes.PublicV6Selection` | internal/backend/kubernetes/backend.go:191-194 | the search for the public IPv6 field and a search for public IPv6 entries select the same entry if and only if the first non-empty IPv6 entry, if any, is public |
| `Kubernetes.PublicIPv6Field` | internal/backend/kubernetes/backend.go:191-194 | the field is the first non-empty public IPv6 address if and only if the first non-empty IPv6 entry, if any, is public or repeats the address of the first public one |
| `Kubernetes.PrivateV6Converted` | internal/backend/kubernetes/backend.go:191-194 | a hardware object whose only entry is an IPv6 address that is not public has no public IPv6 entry, and its address becomes the public IPv6 field |
| `Requests.LookupTrichotomy` | internal/frontend/ec2/frontend.go:91-109 | a data endpoint answers 200 with that object's data if and only if exactly one hardware object has the address, 404 if and only if none has, and 500 if and only if several have |
| `Requests.PublicIPv6Served` | internal/frontend/ec2/routes.go:67-72 | the public-ipv6 endpoint serves the first non-empty public IPv6 address exactly under that condition, and serves the private address of that object |
| `Requests.OwnerReadsOwnData` | internal/frontend/ec2/frontend.go:47-76 | on every configured table, the machine whose address belongs to exactly one hardware object reads at each data endpoint, with or without the trailing slash, that endpoint's projection of its own hardware |
| `Requests.EmptyAddressNotFound` | internal/backend/kubernetes/index.go:20 | an empty address part selects nothing, since empty addresses are never indexed |
| `Requests.StatusClassification` | internal/frontend/ec2/frontend.go:47-65 | for every remote address and listing outcome: 400 if and only if the address cannot be parsed, 200 if and only if exactly one object answers, 404 if and only if none does or listing fails with a not-found error, 500 otherwise; the body is empty unless the status is 200 |
| `Errors.IsExactly` | internal/frontend/ec2/frontend.go:99 | an error is recognised as another if and only if it is that error wrapped any number of times |
| `Errors.StatusExactly` | internal/frontend/ec2/frontend.go:53-58 | an error carries a status if and only if it is an error with that status wrapped any number of times |
| `Xff.Parse` | internal/xff/xff.go:18-49 | the loop agrees with classifying each comma-separated entry and keeping the first error or all the blocks |
| `Xff.ParseMeaning` | internal/xff/xff.go:18-49 | every text is read entry by entry, each entry as what is left of it without the white space around it: nothing when empty, itself when a block, completed with /32 or /128 when an address, otherwise the error that names it; the first error wins |
| `Xff.EntryOutcome` | internal/xff/xff.go:22-45 | a text without a comma has that outcome whatever white space stands before and after it |
| `Xff.TrimsBoth` | internal/xff/xff.go:22 | trimming removes exactly the Unicode white space at both ends |
| `Xff.TooLongRefused` | internal/xff/xff.go:45 | an address followed by a length beyond its width is refused, and the error names the entry |
| `Xff.ParseHomomorphism` | internal/xff/xff.go:18-49 | parsing two texts joined by a comma fails if and only if one of them fails, with the leftmost failure, and otherwise appends the two results |
| `Xff.FailsAtLeftmost` | internal/xff/xff.go:45 | parsing fails if and only if some entry is invalid, and names the leftmost one |
| `Xff.ParseCollectsProxies` | internal/xff/xff.go:18-49 | parsing succeeds if and only if no entry is invalid, and then returns one block for each entry that is not blank, in entry order |
| `Xff.BlanksIgnored` | internal/xff/xff.go:22-25 | blank entries contribute nothing, wherever they stand |
| `Xff.OutputIsBlocks` | internal/xff/xff.go:27-43 | every element of the result parses as an address block, is trimmed, and holds no comma |
| `Xff.ParseFixedPoint` | internal/xff/xff.go:18-49 | the result joined by commas parses to itself |
| `Xff.SingleHost` | internal/xff/xff.go:33-42 | a single address becomes a block over that address, covering that one host if and only if the text is not an IPv6 spelling of an IPv4-mapped address |
| `Xff.MappedText` | internal/xff/xff.go:34-39 | every text "::ffff:" followed by a dotted IPv4 address takes the /32 branch although its width is 128 |
| `NetAddr.AddressText` | internal/xff/xff.go:33-34 | accepted address text is non-empty and made of hexadecimal digits, dots and colons |
| `NetAddr.AppendLength` | internal/xff/xff.go:27-39 | an address followed by a slash and a length is a block if and only if the length is within the address's width |
| `AddressForms.IPv4Exactly` | internal/xff/xff.go:34 | a text is an IPv4 address if and only if it is the decimal numerals of four octets with dots between them, and it is the address of those octets |
| `AddressForms.GroupExactly` | internal/xff/xff.go:34 | a group of an IPv6 address is a hexadecimal numeral in either case, with zeros in front up to four digits, and has its value |
| `AddressForms.IPv6Exactly` | internal/xff/xff.go:34 | a text is an IPv6 address if and only if it spells eight groups, or at most seven around one "::", the last two perhaps as an IPv4 address; and it is the address of the groups it spells |
| `AddressForms.BlockExactly` | internal/xff/xff.go:27-28 | a text is a block if and only if it is an address, a slash and the numeral of a length within its width, perhaps with zeros in front |
| `AddressForms.To4Exactly` | internal/xff/xff.go:35-36 | a text takes the /32 branch if and only if it spells an IPv4 address, or an IPv6 address whose first five groups are zero and whose sixth is all ones |

## Left out

- gin itself: its radix tree, redirects and path cleaning are third-party. The router is a map that refuses a taken path, a path in a group is the prefix followed by the endpoint, with a slash between them unless the endpoint is empty or has one, and endpoints are restricted to plain components, that is, non-empty ones other than "." and ".." without the wildcard characters ":" and "*", except that a last one may be empty.
- Frontend.Configure: a gin panic is a refused registration after which nothing more is registered; unwinding the panic is not modelled.
- Routing.Router.GET: handlers are data (a projection of the instance, or a list of children) rather than closures over a context.
- net.ParseIP, net.ParseCIDR, strings.TrimSpace: written as concrete grammars following section 3.1 of RFC 4632 and sections 2.2 and 2.3 of RFC 4291, without zones, as the `net` package of Go 1.22 accepts them; their own code is not part of this model.
- net.SplitHostPort: whether a remote address can be parsed, and its address part, are parameters.
- Kubernetes listing: only its filtering meaning; the client, the cache, its synchronisation and the indexer's upkeep are not part of this model. Entries of an address list are not nil.
- Kubernetes.ToEC2Instance: hardware fields that the conversion never reads are not modelled.
- xff.Middleware: the trust decision is in a package that is not part of this model.
- Data bodies: headers, content types and the bodies of error responses (taken as empty).
- Ordering.Sort: an insertion sort stands for the library's; only permutation and order are used.
- The hack frontend, the flat-file backend, health checks, metrics, logging, command line and server start.
