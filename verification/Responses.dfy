/** What one handler answers: the remote address, the backend's result, and the status and body. */
module Responses {
  import opened GoStrings
  import opened Wrappers
  import opened Errors
  import opened Ec2
  import opened Routing

  type Backend = string -> Result<Instance, Error>

  datatype Response = Response(statusCode: nat, body: string)

  /** remote is the address part of the connection's remote address, when it can be parsed. */
  function GetInstance(remote: Option<string>, client: Backend): Result<Instance, Error> {
    match remote
    case None => Err(Http(400, Other("invalid remote addr")))
    case Some(ip) =>
      match client(ip)
      case Err(err) =>
        if Is(err, InstanceNotFound) then Err(Http(404, Other("no hardware found for source ip")))
        else Err(Http(500, err))
      case Ok(inst) => Ok(inst)
  }

  function Respond(handler: Handler, remote: Option<string>, client: Backend): Response {
    match handler
    case StaticHandler(children) => Response(200, JoinLines(children))
    case DataHandler(filter) =>
      match GetInstance(remote, client)
      case Ok(inst) => Response(200, filter(inst))
      case Err(err) =>
        match StatusOf(err)
        case Some(code) => Response(code, "")
        case None => Response(500, "")
  }

  /** A listing is served to everyone, one name a line, whatever the remote address and the backend. */
  lemma ListingServed(children: seq<string>, remote: Option<string>, client: Backend)
    ensures Respond(StaticHandler(children), remote, client) == Response(200, Join(children, '\n'))
  {
  }

  /** A data endpoint serves its projection of the instance found, and otherwise an empty body. */
  lemma DataServed(filter: Filter, remote: Option<string>, client: Backend)
    ensures Respond(DataHandler(filter), remote, client) ==
              if remote.None? then Response(400, "")
              else match client(remote.value)
                   case Ok(inst) => Response(200, filter(inst))
                   case Err(err) => Response(if Is(err, InstanceNotFound) then 404 else 500, "")
  {
  }
}
