/** The Traefik TCP and UDP routes written for exposed ports. */
module Routes {
  import opened Strings
  import opened ExposedPorts

  /** The part of an IngressRouteTCP or IngressRouteUDP that depends on the port. */
  datatype Route = Route(entryPoint: string, serviceName: string, targetPort: Int32)

  datatype Transport = TCP | UDP

  function ProtocolName(t: Transport): string {
    match t case TCP => "TCP" case UDP => "UDP"
  }

  function Suffix(t: Transport): string {
    match t case TCP => "tcp" case UDP => "udp"
  }

  function RouteName(t: Transport, p: ExposedPort): string {
    p.serviceName + "-" + FormatInt(p.port) + "-" + Suffix(t)
  }

  /** createIngressRouteTCP and createIngressRouteUDP */
  function RouteOf(t: Transport, p: ExposedPort): Route {
    Route(Suffix(t) + "-" + FormatInt(p.port), p.serviceName, p.targetPort)
  }

  /** A route sent to the server under its name. */
  datatype Sent = Sent(name: string, route: Route)

  /** The server's routes of one transport, with the version of each.  `own` lists what this operator
      wrote, `foreign` counts the writes of others. */
  class RouteStore {
    var routes: map<string, Route>
    var versions: map<string, nat>
    var clock: nat
    ghost var own: seq<Sent>
    ghost var foreign: nat

    ghost predicate Valid()
      reads this
    {
      versions.Keys == routes.Keys && forall name :: name in versions ==> versions[name] <= clock
    }

    constructor (initial: map<string, Route>)
      ensures Valid() && routes == initial && own == [] && foreign == 0
    {
      routes, clock, own, foreign := initial, 0, [], 0;
      versions := map name | name in initial :: 0;
    }

    /** Any number of writes and deletions by others. */
    method Others()
      requires Valid()
      modifies this
      ensures Valid() && own == old(own) && foreign >= old(foreign)
      ensures foreign == old(foreign) ==> routes == old(routes) && versions == old(versions)
    {
      var n :| 0 <= n;
      for i := 0 to n
        invariant Valid() && own == old(own) && foreign == old(foreign) + i
        invariant foreign == old(foreign) ==> routes == old(routes) && versions == old(versions)
      {
        var name: string, route: Option<Route> := *, *;
        clock := clock + 1;
        if route.Some? {
          routes, versions := routes[name := route.value], versions[name := clock];
        } else {
          routes, versions := routes - {name}, versions - {name};
        }
        foreign := foreign + 1;
      }
    }

    method Create(name: string, route: Route) returns (created: bool)
      requires Valid()
      modifies this
      ensures Valid() && foreign == old(foreign) && created == (name !in old(routes))
      ensures created ==> routes == old(routes)[name := route] && own == old(own) + [Sent(name, route)]
      ensures !created ==> routes == old(routes) && versions == old(versions) && own == old(own)
    {
      created := name !in routes;
      if created {
        clock := clock + 1;
        routes, versions := routes[name := route], versions[name := clock];
        own := own + [Sent(name, route)];
      }
    }

    method Update(name: string, route: Route, version: nat) returns (updated: bool)
      requires Valid()
      modifies this
      ensures Valid() && foreign == old(foreign) && updated == (name in old(routes) && old(versions)[name] == version)
      ensures updated ==> routes == old(routes)[name := route] && own == old(own) + [Sent(name, route)]
      ensures !updated ==> routes == old(routes) && versions == old(versions) && own == old(own)
    {
      updated := name in routes && versions[name] == version;
      if updated {
        clock := clock + 1;
        routes, versions := routes[name := route], versions[name := clock];
        own := own + [Sent(name, route)];
      }
    }

    /** upsertIngressRouteTCP and upsertIngressRouteUDP: create, else get the version and update.  It
        writes the route once, or fails because others wrote meanwhile; undisturbed it never fails. */
    method Upsert(name: string, route: Route) returns (ok: bool)
      requires Valid()
      modifies this
      ensures Valid() && foreign >= old(foreign)
      ensures ok ==> name in routes && routes[name] == route && own == old(own) + [Sent(name, route)]
      ensures !ok ==> own == old(own) && foreign > old(foreign)
      ensures foreign == old(foreign) ==> routes == old(routes)[name := route]
    {
      Others();
      ok := Create(name, route);
      if ok {
        return;
      }
      Others();
      if name !in routes {
        return;
      }
      var version := versions[name];
      Others();
      ok := Update(name, route, version);
    }
  }

  function WrittenOne(routes: map<string, Route>, t: Transport, p: ExposedPort): map<string, Route> {
    if p.protocol == ProtocolName(t) then routes[RouteName(t, p) := RouteOf(t, p)] else routes
  }

  /** The routes after writing those of one transport for a list of ports, in order. */
  function Written(routes: map<string, Route>, t: Transport, ports: seq<ExposedPort>): map<string, Route> {
    if ports == [] then routes else WrittenOne(Written(routes, t, ports[..|ports| - 1]), t, ports[|ports| - 1])
  }

  function SendsOne(t: Transport, p: ExposedPort): seq<Sent> {
    if p.protocol == ProtocolName(t) then [Sent(RouteName(t, p), RouteOf(t, p))] else []
  }

  /** What is sent for a list of ports, in order. */
  function Sends(t: Transport, ports: seq<ExposedPort>): seq<Sent> {
    if ports == [] then [] else Sends(t, ports[..|ports| - 1]) + SendsOne(t, ports[|ports| - 1])
  }

  lemma OneMorePort(t: Transport, routes: map<string, Route>, ports: seq<ExposedPort>, p: ExposedPort)
    ensures Written(routes, t, ports + [p]) == WrittenOne(Written(routes, t, ports), t, p)
    ensures Sends(t, ports + [p]) == Sends(t, ports) + SendsOne(t, p)
  {
    assert (ports + [p])[..|ports|] == ports;
  }

  /** One round of the loop of ExposePorts; other protocols are ignored */
  method ExposePort(tcp: RouteStore, udp: RouteStore, port: ExposedPort) returns (ok: bool)
    requires tcp != udp && tcp.Valid() && udp.Valid()
    modifies tcp, udp
    ensures tcp.Valid() && udp.Valid() && tcp.foreign >= old(tcp.foreign) && udp.foreign >= old(udp.foreign)
    ensures ok ==> tcp.own == old(tcp.own) + SendsOne(TCP, port) && udp.own == old(udp.own) + SendsOne(UDP, port)
    ensures !ok ==> tcp.own == old(tcp.own) && udp.own == old(udp.own)
    ensures !ok ==> tcp.foreign + udp.foreign > old(tcp.foreign) + old(udp.foreign)
    ensures ok && tcp.foreign == old(tcp.foreign) ==> tcp.routes == WrittenOne(old(tcp.routes), TCP, port)
    ensures ok && udp.foreign == old(udp.foreign) ==> udp.routes == WrittenOne(old(udp.routes), UDP, port)
  {
    assert "TCP"[0] != "UDP"[0];
    ok := true;
    if port.protocol == "TCP" {
      ok := tcp.Upsert(RouteName(TCP, port), RouteOf(TCP, port));
    } else if port.protocol == "UDP" {
      ok := udp.Upsert(RouteName(UDP, port), RouteOf(UDP, port));
    }
  }

  /** PortExposer.ExposePorts.  Routes are sent in order; it stops at the first that fails, which happens
      only if others wrote meanwhile.  `exposed` is the number of ports it got through. */
  method ExposePorts(tcp: RouteStore, udp: RouteStore, ports: array<ExposedPort>) returns (ok: bool, exposed: nat)
    requires tcp != udp && tcp.Valid() && udp.Valid()
    modifies tcp, udp
    ensures tcp.Valid() && udp.Valid() && tcp.foreign >= old(tcp.foreign) && udp.foreign >= old(udp.foreign)
    ensures exposed <= ports.Length && (ok <==> exposed == ports.Length)
    ensures tcp.own == old(tcp.own) + Sends(TCP, ports[..exposed]) && udp.own == old(udp.own) + Sends(UDP, ports[..exposed])
    ensures !ok ==> tcp.foreign + udp.foreign > old(tcp.foreign) + old(udp.foreign)
    ensures ok && tcp.foreign == old(tcp.foreign) ==> tcp.routes == Written(old(tcp.routes), TCP, ports[..])
    ensures ok && udp.foreign == old(udp.foreign) ==> udp.routes == Written(old(udp.routes), UDP, ports[..])
  {
    ghost var all := ports[..];
    ok, exposed := true, 0;
    while exposed < ports.Length
      invariant exposed <= ports.Length && ports[..] == all
      invariant tcp.Valid() && Progress(tcp, old(tcp.routes), old(tcp.own), old(tcp.foreign), TCP, all[..exposed])
      invariant udp.Valid() && Progress(udp, old(udp.routes), old(udp.own), old(udp.foreign), UDP, all[..exposed])
    {
      ok := ExposePort(tcp, udp, ports[exposed]);
      if !ok {
        return;
      }
      OneMoreSent(TCP, old(tcp.own), all[..exposed], all[exposed]);
      OneMoreSent(UDP, old(udp.own), all[..exposed], all[exposed]);
      OneMorePort(TCP, old(tcp.routes), all[..exposed], all[exposed]);
      OneMorePort(UDP, old(udp.routes), all[..exposed], all[exposed]);
      assert all[..exposed + 1] == all[..exposed] + [all[exposed]];
      exposed := exposed + 1;
    }
    assert all[..exposed] == all;
    ok := true;
  }

  /** What a store has been sent, and holds if nobody else wrote, after some ports. */
  ghost predicate Progress(store: RouteStore, routes: map<string, Route>, own: seq<Sent>, foreign: nat, t: Transport, ports: seq<ExposedPort>)
    reads store
  {
    && store.foreign >= foreign && store.own == own + Sends(t, ports)
    && (store.foreign == foreign ==> store.routes == Written(routes, t, ports))
  }

  lemma OneMoreSent(t: Transport, own: seq<Sent>, ports: seq<ExposedPort>, p: ExposedPort)
    ensures (own + Sends(t, ports)) + SendsOne(t, p) == own + Sends(t, ports + [p])
  {
    OneMorePort(t, map[], ports, p);
  }

  predicate Writes(t: Transport, p: ExposedPort, name: string) {
    p.protocol == ProtocolName(t) && RouteName(t, p) == name
  }

  /** The last port of the list that writes the route `name`. */
  function LastWriter(t: Transport, ports: seq<ExposedPort>, name: string): (last: Option<ExposedPort>)
    ensures last.Some? ==> last.value in ports && Writes(t, last.value, name)
    ensures last.None? ==> forall p :: p in ports ==> !Writes(t, p, name)
  {
    if ports == [] then None
    else
      var n := |ports| - 1;
      if Writes(t, ports[n], name) then Some(ports[n]) else LastWriter(t, ports[..n], name)
  }

  /** A route is the one of the last port that writes it, and is untouched if no port does. */
  lemma {:induction false} WrittenRoute(routes: map<string, Route>, t: Transport, ports: seq<ExposedPort>, name: string)
    ensures
      var after := Written(routes, t, ports);
      match LastWriter(t, ports, name)
      case Some(p) => name in after && after[name] == RouteOf(t, p)
      case None => (name in after <==> name in routes) && (name in routes ==> after[name] == routes[name])
  {
    if ports != [] {
      WrittenRoute(routes, t, ports[..|ports| - 1], name);
    }
  }

  /** Cleared entries write nothing. */
  lemma {:induction false} ZerosWriteNothing(routes: map<string, Route>, t: Transport, ports: seq<ExposedPort>, n: nat)
    ensures Written(routes, t, ports + Zeros(n)) == Written(routes, t, ports)
    ensures Sends(t, ports + Zeros(n)) == Sends(t, ports)
  {
    if n == 0 {
      assert ports + Zeros(0) == ports;
    } else {
      assert ports + Zeros(n) == (ports + Zeros(n - 1)) + [ZERO];
      OneMorePort(t, routes, ports + Zeros(n - 1), ZERO);
      assert |ProtocolName(t)| == 3 && |ZERO.protocol| == 0;
      ZerosWriteNothing(routes, t, ports, n - 1);
    }
  }

  /** Writing the same list again changes nothing. */
  lemma WritingIsIdempotent(routes: map<string, Route>, t: Transport, ports: seq<ExposedPort>)
    ensures Written(Written(routes, t, ports), t, ports) == Written(routes, t, ports)
  {
    var once := Written(routes, t, ports);
    var twice := Written(once, t, ports);
    forall name
      ensures name in twice <==> name in once
      ensures name in once ==> twice[name] == once[name]
    {
      WrittenRoute(routes, t, ports, name);
      WrittenRoute(once, t, ports, name);
    }
  }

  /** Different services or numbers never share a route name. */
  lemma RouteNamesAreInjective(t: Transport, p: ExposedPort, q: ExposedPort)
    requires p.port >= 0 && q.port >= 0
    ensures RouteName(t, p) == RouteName(t, q) <==> p.serviceName == q.serviceName && p.port == q.port
  {
    if RouteName(t, p) == RouteName(t, q) {
      var a, b := p.serviceName + "-" + Decimal(p.port), q.serviceName + "-" + Decimal(q.port);
      assert RouteName(t, p) == a + ("-" + Suffix(t)) && RouteName(t, q) == b + ("-" + Suffix(t));
      assert a == RouteName(t, p)[..|a|] && b == RouteName(t, q)[..|b|];
      PortNamesAreInjective(p.serviceName, p.port, q.serviceName, q.port);
    }
  }

  /** The route of a port, field by field: the entry point is named after the transport and the load
      balancer's number, the route leads to the port's service and target port, and its name is the port's
      name and the transport. */
  lemma RouteFields(t: Transport, p: ExposedPort)
    requires p.port >= 0
    ensures
      var r := RouteOf(t, p);
      && r.targetPort == p.targetPort && r.serviceName == p.serviceName
      && (if t.TCP? then "tcp-" else "udp-") <= r.entryPoint && DecimalValue(r.entryPoint[4..]) == p.port
    ensures WellNamed(p) ==> RouteName(t, p) == p.name + if t.TCP? then "-tcp" else "-udp"
  {
    var r := RouteOf(t, p);
    assert r.entryPoint[4..] == Decimal(p.port);
    DecimalValueOfDecimal(p.port);
  }

  /** What is sent: the routes of the ports with the transport's own protocol. */
  lemma {:induction false} SendsMembers(t: Transport, ports: seq<ExposedPort>, s: Sent)
    ensures s in Sends(t, ports) <==>
            exists p :: p in ports && p.protocol == (if t.TCP? then "TCP" else "UDP") && s == Sent(RouteName(t, p), RouteOf(t, p))
  {
    if ports != [] {
      var n := |ports| - 1;
      assert ports == ports[..n] + [ports[n]];
      SendsMembers(t, ports[..n], s);
    }
  }

  function Replayed(routes: map<string, Route>, sent: seq<Sent>): map<string, Route> {
    if sent == [] then routes
    else
      var last := sent[|sent| - 1];
      Replayed(routes, sent[..|sent| - 1])[last.name := last.route]
  }

  lemma ReplayedOneMore(routes: map<string, Route>, sent: seq<Sent>, s: Sent)
    ensures Replayed(routes, sent + [s]) == Replayed(routes, sent)[s.name := s.route]
  {
    assert (sent + [s])[..|sent|] == sent;
  }

  /** Undisturbed, the stored routes are those sent, each stored under its name in the order of sending. */
  lemma {:induction false} WrittenReplaysSends(routes: map<string, Route>, t: Transport, ports: seq<ExposedPort>)
    ensures Written(routes, t, ports) == Replayed(routes, Sends(t, ports))
  {
    if ports != [] {
      var before, last := ports[..|ports| - 1], ports[|ports| - 1];
      WrittenReplaysSends(routes, t, before);
      if last.protocol == ProtocolName(t) {
        ReplayedOneMore(routes, Sends(t, before), Sent(RouteName(t, last), RouteOf(t, last)));
      } else {
        assert Sends(t, ports) == Sends(t, before);
      }
    }
  }

  /** A route tells its port's number, service and target port apart from all others. */
  lemma RouteTellsPort(t: Transport, p: ExposedPort, q: ExposedPort)
    ensures RouteOf(t, p) == RouteOf(t, q) <==>
            p.port == q.port && p.serviceName == q.serviceName && p.targetPort == q.targetPort
  {
    if RouteOf(t, p) == RouteOf(t, q) {
      var prefix := Suffix(t) + "-";
      assert FormatInt(p.port) == RouteOf(t, p).entryPoint[|prefix|..];
      assert FormatInt(q.port) == RouteOf(t, q).entryPoint[|prefix|..];
      FormatIntIsInjective(p.port, q.port);
    }
  }
}
