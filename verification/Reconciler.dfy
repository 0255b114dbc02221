/** LoadBalancerReconciler: one reconcile from services and configuration to the stored load
    balancer and routes, and the predicate that filters service updates. */
module Reconciler {
  import opened Strings
  import opened Sorting
  import opened ExposedPorts
  import opened ManagedAnnotations
  import opened LoadBalancers
  import opened Routes

  /** What the server stores under the load balancer's name. */
  datatype StoredService = OtherType | Balancer(lb: LoadBalancer)

  /** What an upsert makes of the state it acted on. */
  ghost predicate UpsertedFrom(seen: Option<StoredService>, cfg: Config, wanted: seq<ExposedPort>, selector: map<string, string>,
                               sent: seq<ExposedPort>, stored: Option<StoredService>) {
    match seen
    case None => sent == wanted && stored == Some(Balancer(Created(cfg, wanted, selector)))
    case Some(OtherType) => false
    case Some(Balancer(lb)) => Settles(lb.ports, wanted, sent) && stored == Some(Balancer(Updated(lb, cfg, sent)))
  }

  class LoadBalancerReconciler {
    var stored: Option<StoredService>
    var version: nat
    ghost var ownWrites: nat
    ghost var foreign: nat
    const tcp: RouteStore
    const udp: RouteStore
    const selector: map<string, string>

    ghost predicate Valid()
      reads this, tcp, udp
    {
      tcp != udp && tcp.Valid() && udp.Valid()
    }

    constructor (tcp: RouteStore, udp: RouteStore, selector: map<string, string>)
      requires tcp != udp && tcp.Valid() && udp.Valid()
      ensures Valid() && stored.None? && this.tcp == tcp && this.udp == udp && this.selector == selector
    {
      stored, version, ownWrites, foreign := None, 0, 0, 0;
      this.tcp, this.udp, this.selector := tcp, udp, selector;
    }

    /** Any number of writes to the load balancer by others. */
    method Others()
      modifies this
      ensures ownWrites == old(ownWrites) && foreign >= old(foreign) && version >= old(version)
      ensures foreign == old(foreign) <==> version == old(version)
      ensures version == old(version) ==> stored == old(stored)
    {
      var n :| 0 <= n;
      for i := 0 to n
        invariant ownWrites == old(ownWrites) && foreign == old(foreign) + i && version == old(version) + i
        invariant version == old(version) ==> stored == old(stored)
      {
        stored := *;
        version, foreign := version + 1, foreign + 1;
      }
    }

    /** upsertLoadBalancer, without the server's node-port assignment.  `seen` is the state it acted on: on
        success the one its write replaced.  It fails on a service of another type, or because others
        wrote between its two calls; there is no retry. */
    method UpsertLoadBalancer(cfg: Config, wanted: array<ExposedPort>) returns (ok: bool, ghost seen: Option<StoredService>)
      modifies this, wanted
      ensures ok ==> UpsertedFrom(seen, cfg, old(wanted[..]), selector, wanted[..], stored)
      ensures ownWrites == old(ownWrites) + (if ok then 1 else 0) && foreign >= old(foreign)
      ensures !ok ==> seen == Some(OtherType) || foreign > old(foreign)
      ensures foreign == old(foreign) ==> seen == old(stored) && (!ok ==> stored == old(stored))
    {
      Others();
      seen := stored;
      var base := version;
      if stored.None? {
        var created := CreateLoadBalancer(cfg, wanted, selector);
        Others();
        if stored.Some? {
          return false, seen;
        }
        stored := Some(Balancer(created));
      } else if stored.value.OtherType? {
        return false, seen;
      } else {
        var lb := new LoadBalancerObject(stored.value.lb);
        lb.ApplyConfig(cfg);
        lb.UpdateExposedPorts(wanted);
        Others();
        if stored.None? || version != base {
          return false, seen;
        }
        stored := Some(Balancer(lb.Value()));
      }
      version, ownWrites := version + 1, ownWrites + 1;
      ok := true;
    }

    /** Nobody else wrote the load balancer or a route. */
    twostate predicate Undisturbed()
      reads this, tcp, udp
    {
      foreign == old(foreign) && tcp.foreign == old(tcp.foreign) && udp.foreign == old(udp.foreign)
    }

    /** Reconcile.  `dogu` is the sorted list of the services' ports; the in-place filter hands
        ExposePorts its survivors followed by zero entries, which send no route. */
    method Reconcile(raw: Config, services: seq<Service>) returns (ok: bool, ghost run: Reconciled)
      requires Valid()
      modifies this, tcp, udp
      ensures Valid() && foreign >= old(foreign) && tcp.foreign >= old(tcp.foreign) && udp.foreign >= old(udp.foreign)
      ensures ok ==>
        && ParseConfig(raw).Some? && Desired(services, run.wanted) && IsSortOf(PortName, AllPorts(services).value, run.dogu)
        && UpsertedFrom(run.seen, ParseConfig(raw).value, run.wanted, selector, run.sent, stored)
        && tcp.own == old(tcp.own) + Sends(TCP, Survivors(run.dogu))
        && udp.own == old(udp.own) + Sends(UDP, Survivors(run.dogu))
      ensures ParseConfig(raw).None? || AllPorts(services).None? ==>
        !ok && unchanged(this) && unchanged(tcp) && unchanged(udp)
      ensures Undisturbed() ==>
        && (ok <==> ParseConfig(raw).Some? && AllPorts(services).Some? && old(stored) != Some(OtherType))
        && (!ok ==> stored == old(stored) && tcp.routes == old(tcp.routes) && udp.routes == old(udp.routes))
        && (ok ==>
              && run.seen == old(stored)
              && tcp.routes == Written(old(tcp.routes), TCP, Survivors(run.dogu))
              && udp.routes == Written(old(udp.routes), UDP, Survivors(run.dogu)))
    {
      run := Reconciled([], [], [], None);
      var cfg := ParseConfig(raw);
      if cfg.None? {
        return false, run;
      }
      ghost var dogu, sent, seen;
      var parsed, doguPorts, lbPorts;
      parsed, doguPorts, lbPorts, dogu := PreparePorts(services);
      if !parsed {
        return false, run;
      }
      ghost var wanted := lbPorts[..];
      ok, sent, seen := ApplyPorts(cfg.value, doguPorts, lbPorts, Survivors(dogu));
      run := Reconciled(dogu, wanted, sent, seen);
    }

    /** The writing half of Reconcile: the load balancer, then the routes of the compacted slice */
    method ApplyPorts(cfg: Config, doguPorts: array<ExposedPort>, lbPorts: array<ExposedPort>, ghost kept: seq<ExposedPort>)
      returns (ok: bool, ghost sent: seq<ExposedPort>, ghost seen: Option<StoredService>)
      requires Valid() && doguPorts != lbPorts
      requires |kept| <= doguPorts.Length && doguPorts[..] == kept + Zeros(doguPorts.Length - |kept|)
      modifies this, tcp, udp, lbPorts
      ensures Valid() && foreign >= old(foreign) && tcp.foreign >= old(tcp.foreign) && udp.foreign >= old(udp.foreign)
      ensures ok ==> UpsertedFrom(seen, cfg, old(lbPorts[..]), selector, sent, stored)
      ensures ok ==> tcp.own == old(tcp.own) + Sends(TCP, kept) && udp.own == old(udp.own) + Sends(UDP, kept)
      ensures Undisturbed() ==> seen == old(stored) && (ok <==> old(stored) != Some(OtherType))
      ensures Undisturbed() && !ok ==> stored == old(stored) && tcp.routes == old(tcp.routes) && udp.routes == old(udp.routes)
      ensures Undisturbed() && ok ==>
        tcp.routes == Written(old(tcp.routes), TCP, kept) && udp.routes == Written(old(udp.routes), UDP, kept)
    {
      ok, seen := UpsertLoadBalancer(cfg, lbPorts);
      sent := lbPorts[..];
      if ok {
        ok := ExposeCompacted(tcp, udp, doguPorts, kept);
      }
    }
  }

  /** The intermediate lists of a reconcile and the load balancer it acted on. */
  datatype Reconciled = Reconciled(
    dogu: seq<ExposedPort>, wanted: seq<ExposedPort>, sent: seq<ExposedPort>, seen: Option<StoredService>)

  /** What a successful reconcile leaves has the configured traffic policies. */
  lemma ReconciledPolicies(seen: Option<StoredService>, cfg: Config, wanted: seq<ExposedPort>, selector: map<string, string>,
                           sent: seq<ExposedPort>, stored: Option<StoredService>)
    requires UpsertedFrom(seen, cfg, wanted, selector, sent, stored)
    ensures stored.Some? && stored.value.Balancer?
    ensures stored.value.lb.internalPolicy == cfg.internalPolicy && stored.value.lb.externalPolicy == cfg.externalPolicy
    ensures stored.value.lb.selector == if seen.None? then selector else seen.value.lb.selector
  {
  }

  /** It has the configured annotation values and a service port for each port sent, and keeps every
      annotation the previous key list does not name. */
  lemma ReconciledContents(seen: Option<StoredService>, cfg: Config, wanted: seq<ExposedPort>, selector: map<string, string>,
                           sent: seq<ExposedPort>, stored: Option<StoredService>, k: string)
    requires UpsertedFrom(seen, cfg, wanted, selector, sent, stored) && k != MANAGED
    ensures stored.Some? && stored.value.Balancer?
    ensures
      var was := AnnotationsOf(seen);
      Lookup(stored.value.lb.annotations, k) ==
        if k in cfg.annotations then Some(cfg.annotations[k])
        else if MANAGED in was && k in Split(was[MANAGED], ';') then None
        else Lookup(was, k)
    ensures |stored.value.lb.ports| == |sent| && forall i :: 0 <= i < |sent| ==> Serves(stored.value.lb.ports[i], sent[i])
  {
    AppliedEntry(AnnotationsOf(seen), cfg.annotations, k);
    if seen.None? {
      AppliedToNothing(cfg.annotations);
    }
    assert stored.value.lb.annotations == Applied(AnnotationsOf(seen), cfg.annotations);
    assert stored.value.lb.ports == ToServicePorts(sent);
  }

  /** The port lists of a reconcile: the load balancer's, and the services' compacted by the filter */
  method PreparePorts(services: seq<Service>) returns (ok: bool, doguPorts: array<ExposedPort>, lbPorts: array<ExposedPort>, ghost dogu: seq<ExposedPort>)
    ensures ok <==> AllPorts(services).Some?
    ensures fresh(doguPorts) && fresh(lbPorts)
    ensures ok ==>
      && doguPorts != lbPorts && IsSortOf(PortName, AllPorts(services).value, dogu) && Desired(services, lbPorts[..])
      && |Survivors(dogu)| <= doguPorts.Length
      && doguPorts[..] == Survivors(dogu) + Zeros(doguPorts.Length - |Survivors(dogu)|)
  {
    ok, doguPorts := GetExposedDoguPorts(services);
    dogu := doguPorts[..];
    if !ok {
      lbPorts := doguPorts;
      return;
    }
    lbPorts := CreateLoadBalancerPorts(doguPorts);
    SameSurvivors(dogu, AllPorts(services).value);
  }

  /** ExposePorts on a slice the in-place filter has compacted */
  method ExposeCompacted(tcp: RouteStore, udp: RouteStore, ports: array<ExposedPort>, ghost kept: seq<ExposedPort>) returns (ok: bool)
    requires tcp != udp && tcp.Valid() && udp.Valid()
    requires |kept| <= ports.Length && ports[..] == kept + Zeros(ports.Length - |kept|)
    modifies tcp, udp
    ensures tcp.Valid() && udp.Valid() && tcp.foreign >= old(tcp.foreign) && udp.foreign >= old(udp.foreign)
    ensures ok ==> tcp.own == old(tcp.own) + Sends(TCP, kept) && udp.own == old(udp.own) + Sends(UDP, kept)
    ensures !ok ==> tcp.foreign + udp.foreign > old(tcp.foreign) + old(udp.foreign)
    ensures ok && tcp.foreign == old(tcp.foreign) ==> tcp.routes == Written(old(tcp.routes), TCP, kept)
    ensures ok && udp.foreign == old(udp.foreign) ==> udp.routes == Written(old(udp.routes), UDP, kept)
  {
    ZerosWriteNothing(tcp.routes, TCP, kept, ports.Length - |kept|);
    ZerosWriteNothing(udp.routes, UDP, kept, ports.Length - |kept|);
    var exposed;
    ok, exposed := Routes.ExposePorts(tcp, udp, ports);
    assert ports[..ports.Length] == ports[..];
  }

  /** The routes a reconcile leaves: a route is written exactly if it is that of a TCP (UDP) port some
      service declares and whose number is neither 80 nor 443; every other route is untouched. */
  lemma ReconciledRoutes(services: seq<Service>, dogu: seq<ExposedPort>, t: Transport, routes: map<string, Route>, name: string)
    requires AllPorts(services).Some? && IsSortOf(PortName, AllPorts(services).value, dogu)
    ensures
      var after := Written(routes, t, Survivors(dogu));
      var declared := AllPorts(services).value;
      if exists p :: p in declared && p.port != 80 && p.port != 443 && Writes(t, p, name)
      then name in after && exists p :: p in declared && p.port != 80 && p.port != 443 && Writes(t, p, name) && after[name] == RouteOf(t, p)
      else (name in after <==> name in routes) && (name in routes ==> after[name] == routes[name])
  {
    var kept := Survivors(dogu);
    RoutedPorts(services, dogu);
    WrittenRoute(routes, t, kept, name);
  }

  lemma RoutedPorts(services: seq<Service>, dogu: seq<ExposedPort>)
    requires AllPorts(services).Some? && IsSortOf(PortName, AllPorts(services).value, dogu)
    ensures forall p :: p in Survivors(dogu) <==> p in AllPorts(services).value && !IsDefault(p)
  {
    var kept := Survivors(dogu);
    var declared := AllPorts(services).value;
    forall p
      ensures p in kept <==> p in declared && !IsDefault(p)
    {
      SurvivorsFilter(dogu, p);
      assert p in kept <==> p in multiset(kept);
      assert p in declared <==> p in multiset(declared);
    }
  }

  /** A declared port that gets a route of this transport. */
  ghost predicate Routed(services: seq<Service>, t: Transport, p: ExposedPort)
    requires AllPorts(services).Some?
  {
    p in AllPorts(services).value && p.port != 80 && p.port != 443 && p.protocol == if t.TCP? then "TCP" else "UDP"
  }

  ghost predicate HasItsRoute(routes: map<string, Route>, t: Transport, p: ExposedPort) {
    RouteName(t, p) in routes && routes[RouteName(t, p)] == RouteOf(t, p)
  }

  /** No service declares one number with one protocol for two target ports. */
  ghost predicate OneTarget(services: seq<Service>, t: Transport)
    requires AllPorts(services).Some?
  {
    forall p, q :: Routed(services, t, p) && Routed(services, t, q) && p.serviceName == q.serviceName && p.port == q.port ==>
      p.targetPort == q.targetPort
  }

  lemma OwnRouteWithOneTarget(services: seq<Service>, dogu: seq<ExposedPort>, t: Transport, routes: map<string, Route>, p: ExposedPort)
    requires AllPorts(services).Some? && IsSortOf(PortName, AllPorts(services).value, dogu)
    requires OneTarget(services, t) && Routed(services, t, p)
    ensures HasItsRoute(Written(routes, t, Survivors(dogu)), t, p)
  {
    RoutedPorts(services, dogu);
    AllPortsMembers(services);
    WrittenRoute(routes, t, Survivors(dogu), RouteName(t, p));
    var w := LastWriter(t, Survivors(dogu), RouteName(t, p)).value;
    RouteNamesAreInjective(t, p, w);
    assert Routed(services, t, w);
    RouteTellsPort(t, p, w);
  }

  /** After a reconcile every routed port finds its own route, exactly when no service declares one
      number with one protocol for two target ports. */
  lemma OwnRoutesIff(services: seq<Service>, dogu: seq<ExposedPort>, t: Transport, routes: map<string, Route>)
    requires AllPorts(services).Some? && IsSortOf(PortName, AllPorts(services).value, dogu)
    ensures
      (forall p :: Routed(services, t, p) ==> HasItsRoute(Written(routes, t, Survivors(dogu)), t, p)) <==> OneTarget(services, t)
  {
    var after := Written(routes, t, Survivors(dogu));
    if forall p :: Routed(services, t, p) ==> HasItsRoute(after, t, p) {
      forall p, q | Routed(services, t, p) && Routed(services, t, q) && p.serviceName == q.serviceName && p.port == q.port
        ensures p.targetPort == q.targetPort
      {
        assert HasItsRoute(after, t, p) && HasItsRoute(after, t, q);
        RouteTellsPort(t, p, q);
      }
    }
    if OneTarget(services, t) {
      forall p | Routed(services, t, p)
        ensures HasItsRoute(after, t, p)
      {
        OwnRouteWithOneTarget(services, dogu, t, routes, p);
      }
    }
  }

  // ---------- the update predicate ----------

  predicate IsDogu(s: Service) {
    s.isClusterIP && s.hasDoguLabel
  }

  /** The ports a service contributes to a reconcile: none unless isExposedPortService holds. */
  function Contribution(s: Service): multiset<ExposedPort>
    requires PortsOf(s).Some?
  {
    if s.isClusterIP && s.hasDoguLabel && s.exposed.Some? then multiset(PortsOf(s).value) else multiset{}
  }

  /** The UpdateFunc of exposedPortServicePredicate: an event it rejects leaves the contribution of the
      service unchanged, provided both versions' ports are valid; with invalid ports it always rejects
      unless the service gains or loses its annotation or its dogu status. */
  method AcceptsUpdate(was: Service, now: Service) returns (accept: bool)
    ensures !accept && PortsOf(was).Some? && PortsOf(now).Some? ==> Contribution(was) == Contribution(now)
    ensures
      var wasDogu, isDogu := was.isClusterIP && was.hasDoguLabel, now.isClusterIP && now.hasDoguLabel;
      && (wasDogu != isDogu ==> accept)
      && (!wasDogu && !isDogu ==> !accept)
      && (wasDogu && isDogu && was.exposed.Some? != now.exposed.Some? ==> accept)
      && (wasDogu && isDogu && was.exposed.Some? == now.exposed.Some? && (PortsOf(was).None? || PortsOf(now).None?) ==> !accept)
      && (wasDogu && isDogu && was.exposed.Some? == now.exposed.Some? && accept ==>
            && PortsOf(was).Some? && PortsOf(now).Some?
            && (DistinctKeys(PortName, PortsOf(was).value) ==> Contribution(was) != Contribution(now)))
  {
    if IsDogu(was) && IsDogu(now) {
      if was.exposed.Some? != now.exposed.Some? {
        return true;
      }
      var oldOk, oldPorts := GetExposedPorts(was);
      if !oldOk {
        return false;
      }
      var newOk, newPorts := GetExposedPorts(now);
      if !newOk {
        return false;
      }
      if DistinctKeys(PortName, PortsOf(was).value) {
        DistinctKeysPermuted(PortName, PortsOf(was).value, oldPorts[..]);
      }
      var equal := Equals(oldPorts, newPorts);
      return !equal;
    }
    return IsDogu(was) != IsDogu(now);
  }

  // ---------- the documented idempotence ----------

  /** Listing the services in another order yields the same ports, and with distinct names the same list. */
  lemma DesiredIgnoresListingOrder(services: seq<Service>, listed: seq<Service>, wanted: seq<ExposedPort>, again: seq<ExposedPort>)
    requires multiset(services) == multiset(listed) && Desired(services, wanted) && Desired(listed, again)
    ensures multiset(wanted) == multiset(again)
    ensures DistinctKeys(PortName, wanted) ==> wanted == again
  {
    AllPortsPermuted(services, listed);
    SameSurvivors(AllPorts(services).value, AllPorts(listed).value);
    if DistinctKeys(PortName, wanted) {
      DistinctKeysIdentify(PortName, wanted);
      SortIsUnique(PortName, wanted, again);
    }
  }

  lemma SameRoutedPorts(services: seq<Service>, listed: seq<Service>, wanted: seq<ExposedPort>, dogu: seq<ExposedPort>, dogu': seq<ExposedPort>)
    requires multiset(services) == multiset(listed) && AllPorts(listed).Some?
    requires Desired(services, wanted) && DistinctKeys(PortName, wanted)
    requires IsSortOf(PortName, AllPorts(services).value, dogu) && IsSortOf(PortName, AllPorts(listed).value, dogu')
    ensures Survivors(dogu) == Survivors(dogu')
  {
    AllPortsPermuted(services, listed);
    SameSurvivors(dogu, dogu');
    SameSurvivors(dogu, AllPorts(services).value);
    SurvivorsKeepSorted(dogu);
    SurvivorsKeepSorted(dogu');
    DistinctKeysIdentify(PortName, wanted);
    KeyIdentifiesPermuted(PortName, wanted, DefaultPorts() + Survivors(AllPorts(services).value));
    assert forall e :: e in Survivors(AllPorts(services).value) ==> e in DefaultPorts() + Survivors(AllPorts(services).value);
    KeyIdentifiesPermuted(PortName, Survivors(AllPorts(services).value), Survivors(dogu));
    SortIsUnique(PortName, Survivors(dogu), Survivors(dogu'));
  }

  /** The API server stores the load balancer and gives node ports to ports without one. */
  method ServerAssigns(r: LoadBalancerReconciler)
    requires r.stored.Some? && r.stored.value.Balancer?
    modifies r`stored
    ensures r.stored.Some? && r.stored.value.Balancer?
    ensures r.stored.value.lb == old(r.stored.value.lb).(ports := r.stored.value.lb.ports)
    ensures Assigned(old(r.stored.value.lb.ports), r.stored.value.lb.ports)
  {
    var lb := r.stored.value.lb;
    var ports := lb.ports;
    for i := 0 to |ports|
      invariant Assigned(lb.ports, ports)
    {
      if ports[i].nodePort == 0 {
        var nodePort: Int32 := *;
        ports := ports[i := ports[i].(nodePort := nodePort)];
      }
    }
    r.stored := Some(Balancer(lb.(ports := ports)));
  }

  ghost function AnnotationsOf(stored: Option<StoredService>): Annotations {
    if stored.Some? && stored.value.Balancer? then stored.value.lb.annotations else map[]
  }

  /** Two reconciles of the same configuration and services, listed in any order, with the server's
      assignments in between and nobody else writing.  The second changes neither the load balancer nor a
      route, exactly when no piece of the configuration's key list names an unmanaged annotation; so it
      never does for keys without `;` in the absence of the empty key, and the API server admits neither. */
  method ReconcileTwice(r: LoadBalancerReconciler, raw: Config, services: seq<Service>, listed: seq<Service>) returns (ok: bool, changed: bool)
    requires r.Valid() && multiset(services) == multiset(listed)
    requires DistinctServices(services)
    requires forall s :: s in services && PortsOf(s).Some? ==> DistinctNumbers(s)
    modifies r, r.tcp, r.udp
    ensures r.Valid()
    ensures r.Undisturbed() ==>
      (ok <==> ParseConfig(raw).Some? && AllPorts(services).Some? && old(r.stored) != Some(OtherType))
    ensures r.Undisturbed() && ok ==> (changed <==> !NoStrayPiece(AnnotationsOf(old(r.stored)), raw.annotations))
    ensures r.Undisturbed() && ok && Clean(raw.annotations) && "" !in AnnotationsOf(old(r.stored)) ==> !changed
    ensures r.Undisturbed() && !ok ==>
      !changed && r.stored == old(r.stored) && r.tcp.routes == old(r.tcp.routes) && r.udp.routes == old(r.udp.routes)
  {
    changed := false;
    ghost var first, second;
    ok, first := r.Reconcile(raw, services);
    if !ok {
      return;
    }
    ghost var cfg := ParseConfig(raw).value;
    ReconciledPolicies(first.seen, cfg, first.wanted, r.selector, first.sent, r.stored);
    ServerAssigns(r);
    var stored, tcp, udp := r.stored.value.lb, r.tcp.routes, r.udp.routes;
    SameMembers(services, listed);
    AllPortsSomeIff(services);
    AllPortsSomeIff(listed);
    label Between:
    ok, second := r.Reconcile(raw, listed);
    if !ok {
      return;
    }
    ReconciledPolicies(second.seen, cfg, second.wanted, r.selector, second.sent, r.stored);
    changed := r.stored.value.lb != stored || r.tcp.routes != tcp || r.udp.routes != udp;
    if r.Undisturbed() {
      assert r.Undisturbed@Between();
      LoadBalancerNamesDistinctIff(services, first.wanted);
      DesiredIgnoresListingOrder(services, listed, first.wanted, second.wanted);
      UpsertIsIdempotent(if first.seen.None? then None else Some(first.seen.value.lb), cfg, first.wanted, r.selector, first.sent,
                         stored, second.wanted, second.sent);
      SameRoutedPorts(services, listed, first.wanted, first.dogu, second.dogu);
      WritingIsIdempotent(old(r.tcp.routes), TCP, Survivors(first.dogu));
      WritingIsIdempotent(old(r.udp.routes), UDP, Survivors(first.dogu));
      if Clean(raw.annotations) {
        CleanHasNoStrayPieceIff(AnnotationsOf(old(r.stored)), raw.annotations);
      }
    }
  }

  lemma SameMembers<T>(a: seq<T>, b: seq<T>)
    requires multiset(a) == multiset(b)
    ensures forall x :: x in a <==> x in b
  {
    forall x
      ensures x in a <==> x in b
    {
      assert x in a <==> x in multiset(a);
      assert x in b <==> x in multiset(b);
    }
  }

  lemma SameSurvivors(a: seq<ExposedPort>, b: seq<ExposedPort>)
    requires multiset(a) == multiset(b)
    ensures multiset(Survivors(a)) == multiset(Survivors(b))
  {
    forall e: ExposedPort
      ensures multiset(Survivors(a))[e] == multiset(Survivors(b))[e]
    {
      SurvivorsFilter(a, e);
      SurvivorsFilter(b, e);
    }
  }

  ghost function Total<S, T>(bag: S -> multiset<T>, s: seq<S>): multiset<T> {
    if s == [] then multiset{} else Total(bag, s[..|s| - 1]) + bag(s[|s| - 1])
  }

  lemma {:induction false} TotalWithoutOne<S, T>(bag: S -> multiset<T>, s: seq<S>, j: int)
    requires 0 <= j < |s|
    ensures Total(bag, s) == Total(bag, s[..j] + s[j + 1..]) + bag(s[j])
  {
    var n := |s| - 1;
    var rest := s[..j] + s[j + 1..];
    if j == n {
      assert rest == s[..n];
    } else {
      TotalWithoutOne(bag, s[..n], j);
      assert rest[..n - 1] == s[..n][..j] + s[..n][j + 1..];
      assert rest[n - 1] == s[n];
    }
  }

  lemma {:induction false} TotalPermuted<S, T>(bag: S -> multiset<T>, a: seq<S>, b: seq<S>)
    requires multiset(a) == multiset(b)
    ensures Total(bag, a) == Total(bag, b)
  {
    if a == [] {
      assert |b| == |multiset(b)| == 0;
    } else {
      assert a[0] in multiset(b);
      var j :| 0 <= j < |b| && b[j] == a[0];
      var c := b[..j] + b[j + 1..];
      assert multiset(a[1..]) == multiset(c) by {
        MultisetOfTail(a);
        MultisetWithoutOne(b, j);
      }
      assert Total(bag, a) == Total(bag, a[1..]) + bag(a[0]) by {
        TotalWithoutOne(bag, a, 0);
        assert a[..0] + a[1..] == a[1..];
      }
      TotalWithoutOne(bag, b, j);
      TotalPermuted(bag, a[1..], c);
    }
  }

  function PortBag(s: Service): multiset<ExposedPort> {
    if PortsOf(s).Some? then multiset(PortsOf(s).value) else multiset{}
  }

  lemma {:induction false} AllPortsAreTotal(services: seq<Service>)
    requires AllPorts(services).Some?
    ensures multiset(AllPorts(services).value) == Total(PortBag, services)
  {
    if services != [] {
      AllPortsAreTotal(services[..|services| - 1]);
    }
  }

  lemma AllPortsPermuted(a: seq<Service>, b: seq<Service>)
    requires multiset(a) == multiset(b) && AllPorts(a).Some? && AllPorts(b).Some?
    ensures multiset(AllPorts(a).value) == multiset(AllPorts(b).value)
  {
    AllPortsAreTotal(a);
    AllPortsAreTotal(b);
    TotalPermuted(PortBag, a, b);
  }
}
