/** The object stores of the platform and the effect of one API call on them.
  *
  * There is one global store and, per zone, one zonal store; all objects modelled here live
  * in the project namespace. A call may be refused, denied, or lost: a lost call took effect
  * although the caller sees an error. The `Env` value fixes what the platform does. */
module CloudApi {
  import opened Prelude

  datatype Parent = Parent(name: string, namespace: Option<string>, kind: string)

  /** `allocation` is the range the platform reports in the object's status. */
  datatype Subnet = Subnet(cidr: Option<string>, parent: Parent, labels: map<string, string>, allocation: string)

  datatype Gateway = Gateway(workload: string, subnets: seq<string>)

  /** A zonal key is (zone, object name). */
  datatype Stores = Stores(
    global: map<string, Subnet>,
    zonal: map<(string, string), Subnet>,
    gateways: map<(string, string), Gateway>)

  datatype Call =
    | GetGlobal(name: string)
    | CreateGlobal(name: string, subnet: Subnet)
    | PatchLabels(name: string, labels: map<string, string>)
    | DeleteGlobal(name: string)
    | GetZonal(key: (string, string))
    | CreateZonal(key: (string, string), subnet: Subnet)
    | DeleteZonal(key: (string, string))
    | GetGateway(key: (string, string))
    | CreateGateway(key: (string, string), gateway: Gateway)
    | DeleteGateway(key: (string, string))

  datatype Reply = Failed | Forbidden | NotFound | Accepted | Found(subnet: Subnet, ready: bool) | FoundGateway(ready: bool)

  datatype Fault = NoFault | Refused | Denied | Lost

  datatype Env = Env(fault: Fault, ready: bool, allocation: string)

  /** The platform carries out the call and reports the object ready. */
  const OK := Env(NoFault, true, "")

  /** What the platform does with the calls of a task, in order. */
  type Weather = nat -> Env

  datatype Served = Served(stores: Stores, reply: Reply)

  /** What a call that reaches the server does to the stores. */
  function Effect(s: Stores, c: Call, e: Env): Stores {
    match c
    case CreateGlobal(n, x) => if n in s.global then s else s.(global := s.global[n := x.(allocation := e.allocation)])
    case PatchLabels(n, l) => if n in s.global then s.(global := s.global[n := s.global[n].(labels := s.global[n].labels + l)]) else s
    case DeleteGlobal(n) => s.(global := s.global - {n})
    case CreateZonal(k, x) => if k in s.zonal then s else s.(zonal := s.zonal[k := x.(allocation := e.allocation)])
    case DeleteZonal(k) => s.(zonal := s.zonal - {k})
    case CreateGateway(k, g) => if k in s.gateways then s else s.(gateways := s.gateways[k := g])
    case DeleteGateway(k) => s.(gateways := s.gateways - {k})
    case _ => s
  }

  /** What the server answers when nothing goes wrong. A patch answers with the object as it is then. */
  function Answer(s: Stores, c: Call, e: Env): Reply {
    match c
    case GetGlobal(n) => if n in s.global then Found(s.global[n], e.ready) else NotFound
    case CreateGlobal(n, _) => if n in s.global then Failed else Accepted
    case PatchLabels(n, l) =>
      if n in s.global then Found(s.global[n].(labels := s.global[n].labels + l), e.ready) else NotFound
    case DeleteGlobal(n) => if n in s.global then Accepted else NotFound
    case GetZonal(k) => if k in s.zonal then Found(s.zonal[k], e.ready) else NotFound
    case CreateZonal(k, _) => if k in s.zonal then Failed else Accepted
    case DeleteZonal(k) => if k in s.zonal then Accepted else NotFound
    case GetGateway(k) => if k in s.gateways then FoundGateway(e.ready) else NotFound
    case CreateGateway(k, _) => if k in s.gateways then Failed else Accepted
    case DeleteGateway(k) => if k in s.gateways then Accepted else NotFound
  }

  function Serve(s: Stores, c: Call, e: Env): Served {
    Served(
      if e.fault.NoFault? || e.fault.Lost? then Effect(s, c, e) else s,
      if e.fault.NoFault? then Answer(s, c, e) else if e.fault.Denied? then Forbidden else Failed)
  }
}
