/**
  A routing table that refuses to register a path twice, and the helper that
  registers every endpoint together with its slash-toggled twin.
*/
module Routing {
  import opened GoStrings
  import opened Ec2

  datatype Handler =
    | DataHandler(filter: Filter)
    | StaticHandler(children: seq<string>)

  type Table = map<string, Handler>

  /** The router behind gin's registration calls. A refused registration stands for gin's panic. */
  class Router {
    var table: Table

    constructor ()
      ensures table == map[]
    {
      table := map[];
    }

    method GET(path: string, handler: Handler) returns (ok: bool)
      modifies this
      ensures ok <==> path !in old(table)
      ensures table == if ok then old(table)[path := handler] else old(table)
    {
      ok := path !in table;
      if ok {
        table := table[path := handler];
      }
    }
  }

  /** The endpoint with its trailing slash removed, or added when there is none. */
  function Alternate(endpoint: string): string {
    if HasSuffix(endpoint, "/") then TrimSuffix(endpoint, "/") else endpoint + "/"
  }

  lemma EndsInSlash(s: string)
    ensures HasSuffix(s, "/") <==> |s| > 0 && s[|s| - 1] == '/'
  {
    assert |s| > 0 ==> s[|s| - 1..] == [s[|s| - 1]];
  }

  lemma EndsInTwoSlashes(s: string)
    ensures HasSuffix(s, "//") <==> HasSuffix(s, "/") && HasSuffix(TrimSuffix(s, "/"), "/")
  {
    EndsInSlash(s);
    EndsInSlash(TrimSuffix(s, "/"));
    assert |s| >= 2 ==> s[|s| - 2..] == [s[|s| - 2], s[|s| - 1]];
  }

  /** Toggling twice gives the endpoint back unless it ends in two slashes. */
  lemma AlternateInvolution(endpoint: string)
    ensures Alternate(Alternate(endpoint)) == endpoint <==> !HasSuffix(endpoint, "//")
  {
    EndsInTwoSlashes(endpoint);
    if HasSuffix(endpoint, "/") {
      var stripped := TrimSuffix(endpoint, "/");
      assert stripped + "/" == endpoint;
      assert |TrimSuffix(stripped, "/")| < |endpoint|;
    } else {
      assert HasSuffix(endpoint + "/", "/");
      assert TrimSuffix(endpoint + "/", "/") == endpoint;
    }
  }

  /** An endpoint as text that follows its group's own path: nothing, or a slash and the rest. */
  function Relative(endpoint: string): string {
    if endpoint == "" || HasPrefix(endpoint, "/") then endpoint else "/" + endpoint
  }

  /** The path of an endpoint of the group at base. */
  function GroupPath(base: string, endpoint: string): string {
    base + Relative(endpoint)
  }

  lemma RelativeAlternate(endpoint: string)
    ensures Relative(Alternate(endpoint)) == Alternate(Relative(endpoint))
  {
    if endpoint != "" {
      EndsInSlash(endpoint);
      EndsInSlash(Relative(endpoint));
      if !HasPrefix(endpoint, "/") {
        assert "/" + (endpoint + "/") == "/" + endpoint + "/";
        assert HasSuffix(endpoint, "/") ==> TrimSuffix(endpoint, "/")[0] == endpoint[0];
      }
    }
  }

  datatype Registration = Registration(path: string, handler: Handler)

  /** Registering in order, up to the first path that is taken. */
  function RegisterAll(table: Table, rs: seq<Registration>): (Table, bool)
    decreases |rs|
  {
    if rs == [] then (table, true)
    else if rs[0].path in table then (table, false)
    else RegisterAll(table[rs[0].path := rs[0].handler], rs[1..])
  }

  /** A path in a group has the components of the group's own path and then those of the endpoint. */
  lemma GroupPathComponents(base: string, endpoint: string)
    ensures Split(GroupPath(base, ""), '/') == Split(base, '/')
    ensures Split(GroupPath(base, "/" + endpoint), '/') == Split(base, '/') + Split(endpoint, '/')
    ensures endpoint != "" && !HasPrefix(endpoint, "/") ==>
              Split(GroupPath(base, endpoint), '/') == Split(base, '/') + Split(endpoint, '/')
  {
    assert base + "" == base;
    assert base + ("/" + endpoint) == base + "/" + endpoint;
    SplitConcat(base, endpoint, '/');
  }

  /** What the group at base registers for r, whose path is relative to it. */
  function Twins(base: string, r: Registration): (twins: seq<Registration>)
    ensures |twins| == 2
  {
    [Registration(base + r.path, r.handler), Registration(base + Alternate(r.path), r.handler)]
  }

  /** Each registration followed by its twin. */
  function AllTwins(base: string, rs: seq<Registration>): (twins: seq<Registration>)
    ensures |twins| == 2 * |rs|
  {
    seq(2 * |rs|, k requires 0 <= k < 2 * |rs| => Twins(base, rs[k / 2])[k % 2])
  }

  lemma TwinsOfEndpoint(base: string, endpoint: string, handler: Handler)
    ensures Twins(base, Registration(Relative(endpoint), handler)) ==
              [ Registration(GroupPath(base, endpoint), handler),
                Registration(GroupPath(base, Alternate(endpoint)), handler) ]
  {
    RelativeAlternate(endpoint);
  }

  lemma AlternateDiffers(path: string)
    ensures |Alternate(path)| != |path|
  {
  }

  lemma PairRegistration(table: Table, r: Registration, r': Registration)
    requires r.path != r'.path
    ensures RegisterAll(table, [r, r']) ==
              if r.path in table then (table, false)
              else if r'.path in table then (table[r.path := r.handler], false)
              else (table[r.path := r.handler][r'.path := r'.handler], true)
  {
    var next := table[r.path := r.handler];
    assert [r, r'][1..] == [r'] && [r'][1..] == [];
    assert RegisterAll(next, [r']) ==
             if r'.path in next then (next, false) else RegisterAll(next[r'.path := r'.handler], []);
  }

  /** A router group at `base` whose GET also registers the alternate endpoint. */
  class TrailingSlashRouteHelper {
    const router: Router
    const base: string

    constructor (router: Router, base: string)
      ensures this.router == router && this.base == base
    {
      this.router := router;
      this.base := base;
    }

    method GET(endpoint: string, handler: Handler) returns (ok: bool)
      modifies router
      ensures (router.table, ok) ==
                RegisterAll(old(router.table), Twins(base, Registration(Relative(endpoint), handler)))
      ensures Twins(base, Registration(Relative(endpoint), handler)) ==
                [ Registration(GroupPath(base, endpoint), handler),
                  Registration(GroupPath(base, Alternate(endpoint)), handler) ]
    {
      var alternateEndpoint;
      if HasSuffix(endpoint, "/") {
        alternateEndpoint := TrimSuffix(endpoint, "/");
      } else {
        alternateEndpoint := endpoint + "/";
      }
      ghost var twins := Twins(base, Registration(Relative(endpoint), handler));
      TwinsOfEndpoint(base, endpoint, handler);
      RelativeAlternate(endpoint);
      AlternateDiffers(Relative(endpoint));
      assert |twins[0].path| != |twins[1].path|;
      PairRegistration(router.table, twins[0], twins[1]);
      ok := router.GET(GroupPath(base, endpoint), handler);
      if ok {
        ok := router.GET(GroupPath(base, alternateEndpoint), handler);
      }
    }
  }

  // ----- What a sequence of registrations does -----

  function Paths(rs: seq<Registration>): (paths: seq<string>)
    ensures |paths| == |rs|
    ensures forall i :: 0 <= i < |rs| ==> paths[i] == rs[i].path
  {
    seq(|rs|, i requires 0 <= i < |rs| => rs[i].path)
  }

  lemma {:induction false} RegisterAppend(table: Table, xs: seq<Registration>, ys: seq<Registration>)
    ensures var (after, ok) := RegisterAll(table, xs);
            RegisterAll(table, xs + ys) == if ok then RegisterAll(after, ys) else (after, false)
    decreases |xs|
  {
    if xs == [] {
      assert xs + ys == ys;
    } else {
      assert (xs + ys)[1..] == xs[1..] + ys;
      if xs[0].path !in table {
        RegisterAppend(table[xs[0].path := xs[0].handler], xs[1..], ys);
      }
    }
  }

  /** Registering never changes what is there, whether or not it is refused in the end. */
  lemma {:induction false} RegisterKeeps(table: Table, rs: seq<Registration>)
    ensures var after := RegisterAll(table, rs).0;
            forall p :: p in table ==> p in after && after[p] == table[p]
    decreases |rs|
  {
    if rs == [] {
    } else if rs[0].path !in table {
      RegisterKeeps(table[rs[0].path := rs[0].handler], rs[1..]);
    }
  }

  lemma TwinOfAppend(base: string, xs: seq<Registration>, ys: seq<Registration>, k: nat)
    requires k < 2 * |xs + ys|
    ensures AllTwins(base, xs + ys)[k] ==
              if k < 2 * |xs| then AllTwins(base, xs)[k] else AllTwins(base, ys)[k - 2 * |xs|]
  {
    if k < 2 * |xs| {
      assert (xs + ys)[k / 2] == xs[k / 2];
    } else {
      HalfShift(k, |xs|);
      assert (xs + ys)[k / 2] == ys[(k - 2 * |xs|) / 2];
    }
  }

  lemma AllTwinsAppend(base: string, xs: seq<Registration>, ys: seq<Registration>)
    ensures AllTwins(base, xs + ys) == AllTwins(base, xs) + AllTwins(base, ys)
  {
    var all, parts := AllTwins(base, xs + ys), AllTwins(base, xs) + AllTwins(base, ys);
    forall k | 0 <= k < |all| ensures all[k] == parts[k] {
      TwinOfAppend(base, xs, ys, k);
    }
  }

  lemma HalfShift(k: nat, n: nat)
    requires 2 * n <= k
    ensures (k - 2 * n) / 2 == k / 2 - n && (k - 2 * n) % 2 == k % 2
  {
  }

  lemma OneMoreTwin(base: string, rs: seq<Registration>, n: nat)
    requires n < |rs|
    ensures AllTwins(base, rs[..n + 1]) == AllTwins(base, rs[..n]) + Twins(base, rs[n])
  {
    var all, left := AllTwins(base, rs[..n + 1]), AllTwins(base, rs[..n]);
    forall k | 0 <= k < |all| ensures all[k] == (left + Twins(base, rs[n]))[k] {
      if k >= |left| {
        assert k / 2 == n && k % 2 == k - 2 * n;
      }
    }
  }

  /** No two registrations share a path. */
  ghost predicate DistinctPaths(rs: seq<Registration>) {
    forall i, j :: 0 <= i < j < |rs| ==> rs[i].path != rs[j].path
  }

  /** The table holds none of these paths. */
  ghost predicate AllFree(table: Table, rs: seq<Registration>) {
    forall r :: r in rs ==> r.path !in table
  }

  /** Registration succeeds if and only if the paths are pairwise distinct and all free. */
  lemma {:induction false} RegisterSucceeds(table: Table, rs: seq<Registration>)
    ensures RegisterAll(table, rs).1 <==> DistinctPaths(rs) && AllFree(table, rs)
    decreases |rs|
  {
    if rs == [] {
    } else {
      var r, rest := rs[0], rs[1..];
      assert rs == [r] + rest;
      if r.path in table {
        assert r in rs;
      } else {
        RegisterSucceeds(table[r.path := r.handler], rest);
        FreshHead(r, rest);
      }
    }
  }

  lemma FreshHead(r: Registration, rest: seq<Registration>)
    ensures DistinctPaths([r] + rest) <==> DistinctPaths(rest) && forall r' :: r' in rest ==> r'.path != r.path
  {
    var all := [r] + rest;
    if DistinctPaths(all) {
      forall i, j | 0 <= i < j < |rest| ensures rest[i].path != rest[j].path {
        assert all[i + 1].path != all[j + 1].path;
      }
      forall r' | r' in rest ensures r'.path != r.path {
        var i :| 0 <= i < |rest| && rest[i] == r';
        assert all[0].path != all[i + 1].path;
      }
    }
  }

  /** The table `after` holds the old paths, unchanged, and the new ones with their handlers, nothing else. */
  ghost predicate Recorded(table: Table, rs: seq<Registration>, after: Table) {
    && (forall p :: p in after <==> p in table || p in Paths(rs))
    && (forall p :: p in table ==> after[p] == table[p])
    && (forall r :: r in rs ==> after[r.path] == r.handler)
    && |after| == |table| + |rs|
  }

  lemma OneRecorded(table: Table, r: Registration)
    requires r.path !in table
    ensures var next := table[r.path := r.handler];
            && (forall p :: p in next <==> p in table || p == r.path)
            && (forall p :: p in table ==> next[p] == table[p])
            && next[r.path] == r.handler && |next| == |table| + 1
  {
    assert table[r.path := r.handler].Keys == table.Keys + {r.path};
  }

  lemma ConsPaths(r: Registration, rest: seq<Registration>)
    ensures forall p :: p in Paths([r] + rest) <==> p == r.path || p in Paths(rest)
  {
    assert Paths([r] + rest) == [r.path] + Paths(rest);
  }

  lemma RecordedStep(table: Table, r: Registration, rest: seq<Registration>, next: Table, after: Table)
    requires forall p :: p in next <==> p in table || p == r.path
    requires forall p :: p in table ==> next[p] == table[p]
    requires next[r.path] == r.handler && |next| == |table| + 1
    requires Recorded(next, rest, after)
    ensures Recorded(table, [r] + rest, after)
  {
    ConsPaths(r, rest);
    forall p | p in table ensures after[p] == table[p] {
      assert p in next;
    }
    forall r' | r' in [r] + rest ensures after[r'.path] == r'.handler {
      assert r' == r || r' in rest;
    }
  }

  /** A successful run records every registration. */
  lemma {:induction false} RegisteredTable(table: Table, rs: seq<Registration>)
    requires RegisterAll(table, rs).1
    ensures Recorded(table, rs, RegisterAll(table, rs).0)
    decreases |rs|
  {
    if rs == [] {
      assert Paths(rs) == [];
    } else {
      assert rs == [rs[0]] + rs[1..];
      var next := table[rs[0].path := rs[0].handler];
      RegisteredTable(next, rs[1..]);
      OneRecorded(table, rs[0]);
      RecordedStep(table, rs[0], rs[1..], next, RegisterAll(table, rs).0);
    }
  }

  /** What a successful run has registered stays through a later one. */
  lemma RegisteredStays(table: Table, rs: seq<Registration>, later: seq<Registration>)
    requires RegisterAll(table, rs).1
    ensures var after := RegisterAll(RegisterAll(table, rs).0, later).0;
            forall r :: r in rs ==> r.path in after && after[r.path] == r.handler
  {
    var between := RegisterAll(table, rs).0;
    RegisteredTable(table, rs);
    RegisterKeeps(between, later);
    forall r | r in rs ensures r.path in between && between[r.path] == r.handler {
      var i :| 0 <= i < |rs| && rs[i] == r;
      assert Paths(rs)[i] == r.path;
    }
  }

  lemma TwinsAt(base: string, rs: seq<Registration>, i: nat)
    requires i < |rs|
    ensures AllTwins(base, rs)[2 * i] == Registration(base + rs[i].path, rs[i].handler)
    ensures AllTwins(base, rs)[2 * i + 1] == Registration(base + Alternate(rs[i].path), rs[i].handler)
  {
    assert (2 * i) / 2 == i && (2 * i) % 2 == 0 && (2 * i + 1) / 2 == i && (2 * i + 1) % 2 == 1;
  }

  lemma TwinOrigin(base: string, rs: seq<Registration>, k: nat)
    requires k < 2 * |rs|
    ensures AllTwins(base, rs)[k] == Twins(base, rs[k / 2])[k % 2]
  {
  }

  lemma ConcatInjective(base: string, x: string, y: string)
    requires base + x == base + y
    ensures x == y
  {
    assert x == (base + x)[|base|..] && y == (base + y)[|base|..];
  }

  lemma TwinsDiffer(base: string, rs: seq<Registration>, a: nat, b: nat)
    requires a < b < 2 * |rs| && DistinctPaths(rs)
    requires forall r :: r in rs ==> !HasSuffix(r.path, "/")
    ensures AllTwins(base, rs)[a].path != AllTwins(base, rs)[b].path
  {
    var i, j := a / 2, b / 2;
    TwinOrigin(base, rs, a);
    TwinOrigin(base, rs, b);
    assert rs[i] in rs && rs[j] in rs;
    SlashClash(base, rs[i].path, rs[j].path);
  }

  /** Endpoints without a trailing slash have distinct twins if and only if they are distinct. */
  lemma TwinsDistinct(base: string, rs: seq<Registration>)
    requires forall r :: r in rs ==> !HasSuffix(r.path, "/")
    ensures DistinctPaths(AllTwins(base, rs)) <==> DistinctPaths(rs)
  {
    if DistinctPaths(rs) {
      forall a, b | 0 <= a < b < 2 * |rs| ensures AllTwins(base, rs)[a].path != AllTwins(base, rs)[b].path {
        TwinsDiffer(base, rs, a, b);
      }
    }
    if DistinctPaths(AllTwins(base, rs)) {
      forall i, j | 0 <= i < j < |rs| ensures rs[i].path != rs[j].path {
        TwinsAt(base, rs, i);
        TwinsAt(base, rs, j);
        assert AllTwins(base, rs)[2 * i].path != AllTwins(base, rs)[2 * j].path;
      }
    }
  }

  lemma SlashClash(base: string, x: string, y: string)
    requires !HasSuffix(x, "/") && !HasSuffix(y, "/")
    ensures base + x == base + y ==> x == y
    ensures base + Alternate(x) == base + Alternate(y) ==> x == y
    ensures base + x != base + Alternate(y) && base + Alternate(x) != base + y
  {
    if base + x == base + y { ConcatInjective(base, x, y); }
    if base + (x + "/") == base + (y + "/") {
      ConcatInjective(base, x + "/", y + "/");
      assert x == (x + "/")[..|x|] && y == (y + "/")[..|y|];
    }
    assert HasSuffix(y + "/", "/") && HasSuffix(x + "/", "/");
    if base + x == base + (y + "/") { ConcatInjective(base, x, y + "/"); }
    if base + (x + "/") == base + y { ConcatInjective(base, x + "/", y); }
  }
}
