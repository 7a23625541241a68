/** Answering one request: the backend's lookup, and the status and body that result. */
module Requests {
  import opened Wrappers
  import opened Errors
  import opened Ec2
  import opened Listing
  import opened Routing
  import opened Responses
  import opened Kubernetes
  import opened Frontend
  import opened Navigation

  /** The Kubernetes backend over a store whose listing either fails or filters by address. */
  function KubernetesClient(store: Result<seq<Object>, Error>): Backend {
    (ip: string) =>
      GetEC2Instance(match store case Err(err) => Err(err) case Ok(objects) => Ok(List(objects, ip)))
  }

  lemma LookupByCount(listed: seq<Hardware>)
    ensures GetEC2Instance(Ok(listed)) ==
              if |listed| == 0 then Err(InstanceNotFound)
              else if |listed| == 1 then Ok(Convert(listed[0]))
              else Err(MultipleHardware)
  {
  }

  lemma RespondByCount(objects: seq<Object>, ip: string, filter: Filter)
    ensures Respond(DataHandler(filter), Some(ip), KubernetesClient(Ok(objects))) ==
              var items := List(objects, ip);
              if |items| == 0 then Response(404, "")
              else if |items| == 1 then Response(200, filter(Convert(items[0])))
              else Response(500, "")
  {
    DataServed(filter, Some(ip), KubernetesClient(Ok(objects)));
    LookupByCount(List(objects, ip));
  }

  /**
    A data endpoint answers 200 with the only matching object's data, 404 when
    no object matches, and 500 when several do; each if and only if.
  */
  lemma LookupTrichotomy(objects: seq<Object>, ip: string, filter: Filter)
    ensures var response := Respond(DataHandler(filter), Some(ip), KubernetesClient(Ok(objects)));
            && (response.statusCode == 200 <==> exists i :: OnlyOneAnswers(objects, ip, i))
            && (forall i :: OnlyOneAnswers(objects, ip, i) ==>
                  response == Response(200, filter(Convert(objects[i].hw))))
            && (response.statusCode == 404 <==> NoneAnswers(objects, ip))
            && (response.statusCode == 500 <==> exists i, j :: BothAnswer(objects, ip, i, j))
  {
    ListCounts(objects, ip);
    RespondByCount(objects, ip, filter);
  }

  /** An empty address part selects nothing, since empty addresses are never indexed. */
  lemma EmptyAddressNotFound(objects: seq<Object>, filter: Filter)
    ensures Respond(DataHandler(filter), Some(""), KubernetesClient(Ok(objects))) == Response(404, "")
  {
    ListCounts(objects, "");
    RespondByCount(objects, "", filter);
  }

  lemma ErrorBodyEmpty(filter: Filter, remote: Option<string>, client: Backend)
    ensures var response := Respond(DataHandler(filter), remote, client);
            response.statusCode != 200 ==> response.body == ""
  {
    DataServed(filter, remote, client);
  }

  /** A listing failure that reads as an absent instance. */
  predicate Missing(err: Error) {
    Is(err, NotFound) || Is(err, InstanceNotFound)
  }

  lemma RespondToFailure(ip: string, err: Error, filter: Filter)
    ensures Respond(DataHandler(filter), Some(ip), KubernetesClient(Err(err))) ==
              Response(if Missing(err) then 404 else 500, "")
  {
    DataServed(filter, Some(ip), KubernetesClient(Err(err)));
  }

  /** The status of a data endpoint, for every remote address and every outcome of listing. */
  lemma StatusClassification(remote: Option<string>, store: Result<seq<Object>, Error>, filter: Filter)
    ensures var response := Respond(DataHandler(filter), remote, KubernetesClient(store));
            response.statusCode != 200 ==> response.body == ""
    ensures var status := Respond(DataHandler(filter), remote, KubernetesClient(store)).statusCode;
            && (status == 400 <==> remote.None?)
            && (status == 200 <==>
                  remote.Some? && store.Ok? && exists i :: OnlyOneAnswers(store.value, remote.value, i))
            && (status == 404 <==>
                  remote.Some? && if store.Ok? then NoneAnswers(store.value, remote.value) else Missing(store.error))
            && (status == 500 <==>
                  remote.Some? && if store.Ok? then exists i, j :: BothAnswer(store.value, remote.value, i, j)
                                  else !Missing(store.error))
  {
    ErrorBodyEmpty(filter, remote, KubernetesClient(store));
    if remote.Some? {
      match store
      case Ok(objects) => LookupTrichotomy(objects, remote.value, filter);
      case Err(err) => RespondToFailure(remote.value, err, filter);
    }
  }

  /**
    From path to field: on a configured table, a machine whose address belongs
    to one hardware object reads, at each data endpoint with or without its
    trailing slash, that endpoint's projection of its own hardware.
  */
  lemma OwnerReadsOwnData(before: Table, routes: seq<DataRoute>, listing: seq<Route>, table: Table,
                          objects: seq<Object>, ip: string, i: nat, k: nat)
    requires Configured(before, routes, listing, table)
    requires i < |routes| && OnlyOneAnswers(objects, ip, k)
    ensures var path, client := GroupPath(BASE, routes[i].endpoint), KubernetesClient(Ok(objects));
            var expected := Response(200, routes[i].filter(Convert(objects[k].hw)));
            && path in table && Respond(table[path], Some(ip), client) == expected
            && path + "/" in table && Respond(table[path + "/"], Some(ip), client) == expected
  {
    ConfiguredTable(before, routes, listing, table);
    DataRegistered(routes, listing, i);
    var r := DataRegistrations(routes)[i];
    assert BASE + r.path + "/" == BASE + (r.path + "/");
    LookupTrichotomy(objects, ip, routes[i].filter);
  }

  /**
    The public-ipv6 endpoint serves the first non-empty public IPv6 address if and
    only if the first non-empty IPv6 entry, if any, is public or repeats it; for
    one private entry it serves that entry's address.
  */
  lemma PublicIPv6Served(r: DataRoute, hw: Hardware)
    requires r in DataRoutes() && r.endpoint == "/meta-data/public-ipv6"
    ensures r.filter(Convert(hw)) == FirstAddress(AddressList(hw), PublicV6) <==>
              LeadingV6Public(AddressList(hw)) || LeadingV6Repeated(AddressList(hw))
    ensures r.filter(Convert(PRIVATE_V6_HARDWARE)) == "fd00::1"
  {
    assert r == DataRoutes()[9];
    PublicIPv6Field(hw);
    PrivateV6Converted();
  }
}
