/** Exposed ports of dogu services on their way to the load balancer. */
module ExposedPorts {
  import opened Strings
  import opened Sorting

  const HTTP_PORT: Int32 := 80
  const HTTPS_PORT: Int32 := 443

  datatype ExposedPort = ExposedPort(
    name: string, serviceName: string, protocol: string, port: Int32, targetPort: Int32, nodePort: Int32)

  datatype TargetPort = Number(n: Int32) | Named(s: string)

  datatype ServicePort = ServicePort(
    name: string, protocol: string, port: Int32, targetPort: TargetPort, nodePort: Int32)

  // ---------- the index that carries node ports over ----------

  datatype IndexKey = IndexKey(name: string, protocol: string, port: string, targetPort: string)

  /** indexKeyOfServicePort */
  function KeyOf(p: ServicePort): IndexKey {
    IndexKey(p.name, p.protocol, FormatInt(p.port),
             match p.targetPort case Number(n) => FormatInt(n) case Named(s) => s)
  }

  /** indexKeyOfExposedPort */
  function WantedKey(e: ExposedPort): IndexKey {
    IndexKey(e.name, e.protocol, FormatInt(e.port), FormatInt(e.targetPort))
  }

  /** ExposedPort.ToServicePort */
  function ToServicePort(e: ExposedPort): ServicePort {
    ServicePort(e.name, e.protocol, e.port, Number(e.targetPort), e.nodePort)
  }

  /** The textual index separates exactly what differs in name, protocol, port or target port. */
  lemma WantedKeySeparates(a: ExposedPort, b: ExposedPort)
    ensures WantedKey(a) == WantedKey(b) <==>
            a.name == b.name && a.protocol == b.protocol && a.port == b.port && a.targetPort == b.targetPort
  {
    if WantedKey(a) == WantedKey(b) {
      FormatIntIsInjective(a.port, b.port);
      FormatIntIsInjective(a.targetPort, b.targetPort);
    }
  }

  /** The index SetNodePorts builds; a later port overwrites an earlier one with the same key. */
  function NodeIndex(ports: seq<ServicePort>): map<IndexKey, Int32> {
    if ports == [] then map[]
    else
      var n := |ports| - 1;
      NodeIndex(ports[..n])[KeyOf(ports[n]) := ports[n].nodePort]
  }

  function WithNodePort(e: ExposedPort, index: map<IndexKey, Int32>): ExposedPort {
    if WantedKey(e) in index then e.(nodePort := index[WantedKey(e)]) else e
  }

  function WithNodePorts(ports: seq<ExposedPort>, index: map<IndexKey, Int32>): seq<ExposedPort> {
    seq(|ports|, i requires 0 <= i < |ports| => WithNodePort(ports[i], index))
  }

  function ToServicePorts(ports: seq<ExposedPort>): seq<ServicePort> {
    seq(|ports|, i requires 0 <= i < |ports| => ToServicePort(ports[i]))
  }

  /** The fields of a service port written for an exposed port. */
  ghost predicate Serves(p: ServicePort, e: ExposedPort) {
    && p.name == e.name && p.protocol == e.protocol && p.port == e.port
    && p.targetPort == Number(e.targetPort) && p.nodePort == e.nodePort
  }

  ghost predicate HasKey(ports: seq<ServicePort>, key: IndexKey) {
    exists i :: 0 <= i < |ports| && KeyOf(ports[i]) == key
  }

  ghost predicate HasNodePort(ports: seq<ServicePort>, key: IndexKey, nodePort: Int32) {
    exists i :: 0 <= i < |ports| && KeyOf(ports[i]) == key && ports[i].nodePort == nodePort
  }

  lemma HasKeySnoc(ports: seq<ServicePort>, p: ServicePort, key: IndexKey)
    ensures HasKey(ports + [p], key) <==> HasKey(ports, key) || KeyOf(p) == key
  {
    var all := ports + [p];
    assert all[|ports|] == p;
    assert forall i :: 0 <= i < |ports| ==> all[i] == ports[i];
    if HasKey(all, key) && KeyOf(p) != key {
      var i :| 0 <= i < |all| && KeyOf(all[i]) == key;
      assert KeyOf(ports[i]) == key;
    }
  }

  lemma HasNodePortSnoc(ports: seq<ServicePort>, p: ServicePort, key: IndexKey, nodePort: Int32)
    requires HasNodePort(ports, key, nodePort) || (KeyOf(p) == key && p.nodePort == nodePort)
    ensures HasNodePort(ports + [p], key, nodePort)
  {
    var all := ports + [p];
    assert all[|ports|] == p;
    if HasNodePort(ports, key, nodePort) {
      var i :| 0 <= i < |ports| && KeyOf(ports[i]) == key && ports[i].nodePort == nodePort;
      assert all[i] == ports[i];
    }
  }

  lemma {:induction false} NodeIndexDomain(ports: seq<ServicePort>, key: IndexKey)
    ensures key in NodeIndex(ports) <==> HasKey(ports, key)
    ensures key in NodeIndex(ports) ==> HasNodePort(ports, key, NodeIndex(ports)[key])
  {
    if ports != [] {
      var before, last := ports[..|ports| - 1], ports[|ports| - 1];
      NodeIndexDomain(before, key);
      assert ports == before + [last];
      HasKeySnoc(before, last, key);
      if key in NodeIndex(ports) {
        HasNodePortSnoc(before, last, key, NodeIndex(ports)[key]);
      }
    }
  }

  /** A service port with the name, protocol, number and target port of an exposed one; a target given by
      name matches if it spells the number. */
  ghost predicate Matches(p: ServicePort, e: ExposedPort) {
    && p.name == e.name && p.protocol == e.protocol && p.port == e.port
    && (p.targetPort == Number(e.targetPort) || p.targetPort == Named(FormatInt(e.targetPort)))
  }

  lemma MatchesIff(p: ServicePort, e: ExposedPort)
    ensures KeyOf(p) == WantedKey(e) <==> Matches(p, e)
  {
    if KeyOf(p) == WantedKey(e) {
      FormatIntIsInjective(p.port, e.port);
      if p.targetPort.Number? {
        FormatIntIsInjective(p.targetPort.n, e.targetPort);
      }
    }
  }

  /** `now` is `was` with the node port of a matching service port, and `was` itself if none matches. */
  ghost predicate CarriesNodePort(was: ExposedPort, ports: seq<ServicePort>, now: ExposedPort) {
    && now.(nodePort := was.nodePort) == was
    && if exists p :: p in ports && Matches(p, was)
       then exists p :: p in ports && Matches(p, was) && p.nodePort == now.nodePort
       else now == was
  }

  lemma NodePortIsCarried(e: ExposedPort, ports: seq<ServicePort>)
    ensures CarriesNodePort(e, ports, WithNodePort(e, NodeIndex(ports)))
  {
    var key := WantedKey(e);
    NodeIndexDomain(ports, key);
    if key in NodeIndex(ports) {
      var i :| 0 <= i < |ports| && KeyOf(ports[i]) == key && ports[i].nodePort == NodeIndex(ports)[key];
      MatchesIff(ports[i], e);
      assert ports[i] in ports;
    } else {
      forall p | p in ports
        ensures !Matches(p, e)
      {
        MatchesIff(p, e);
      }
    }
  }

  // ---------- sorting and comparing ----------

  function PortName(e: ExposedPort): string { e.name }

  /** ExposedPorts.SortByName, in place.  What else `sort.Slice` does is not specified. */
  method SortByName(eps: array<ExposedPort>)
    modifies eps
    ensures IsSortOf(PortName, old(eps[..]), eps[..])
  {
    var sorted := Sort(PortName, eps[..]);
    SortSorts(PortName, eps[..]);
    assert |sorted| == |multiset(sorted)| == |multiset(eps[..])| == eps.Length;
    forall i | 0 <= i < eps.Length {
      eps[i] := sorted[i];
    }
    assert eps[..] == sorted;
  }

  /** ExposedPorts.SetNodePorts: writes through the elements of the slice */
  method SetNodePorts(eps: array<ExposedPort>, servicePorts: seq<ServicePort>)
    modifies eps
    ensures eps[..] == WithNodePorts(old(eps[..]), NodeIndex(servicePorts))
    ensures forall i :: 0 <= i < eps.Length ==> CarriesNodePort(old(eps[i]), servicePorts, eps[i])
  {
    var index: map<IndexKey, Int32> := map[];
    for i := 0 to |servicePorts|
      invariant index == NodeIndex(servicePorts[..i])
      invariant eps[..] == old(eps[..])
    {
      index := index[KeyOf(servicePorts[i]) := servicePorts[i].nodePort];
      assert servicePorts[..i + 1][..i] == servicePorts[..i];
    }
    assert servicePorts[..|servicePorts|] == servicePorts;
    for i := 0 to eps.Length
      invariant forall j :: 0 <= j < i ==> eps[j] == WithNodePort(old(eps[j]), index)
      invariant forall j :: i <= j < eps.Length ==> eps[j] == old(eps[j])
    {
      if WantedKey(eps[i]) in index {
        eps[i] := eps[i].(nodePort := index[WantedKey(eps[i])]);
      }
    }
    forall i | 0 <= i < eps.Length
      ensures CarriesNodePort(old(eps[i]), servicePorts, eps[i])
    {
      NodePortIsCarried(old(eps[i]), servicePorts);
    }
  }

  /** ExposedPorts.ToServicePorts: sorts its receiver as well */
  method SortedServicePorts(eps: array<ExposedPort>) returns (ports: seq<ServicePort>)
    modifies eps
    ensures IsSortOf(PortName, old(eps[..]), eps[..])
    ensures ports == ToServicePorts(eps[..])
    ensures |ports| == eps.Length && forall i :: 0 <= i < eps.Length ==> Serves(ports[i], eps[i])
  {
    SortByName(eps);
    ports := [];
    for i := 0 to eps.Length
      invariant ports == ToServicePorts(eps[..i])
    {
      ports := ports + [ToServicePort(eps[i])];
    }
    assert eps[..eps.Length] == eps[..];
  }

  /** Comparing any sort of one list with any sort of another decides multiset equality when
      names are distinct, and never calls different multisets equal. */
  lemma SortedComparison(s: seq<ExposedPort>, t: seq<ExposedPort>, s': seq<ExposedPort>, t': seq<ExposedPort>)
    requires IsSortOf(PortName, s, s') && IsSortOf(PortName, t, t')
    ensures s' == t' ==> multiset(s) == multiset(t)
    ensures DistinctKeys(PortName, s) ==> (s' == t' <==> multiset(s) == multiset(t))
  {
    if DistinctKeys(PortName, s) && multiset(s) == multiset(t) {
      DistinctKeysIdentify(PortName, s);
      KeyIdentifiesPermuted(PortName, s, s');
      SortIsUnique(PortName, s', t');
    }
  }

  /** ExposedPorts.Equals */
  method Equals(eps: array<ExposedPort>, o: array<ExposedPort>) returns (equal: bool)
    modifies eps, o
    ensures IsSortOf(PortName, old(eps[..]), eps[..]) && IsSortOf(PortName, old(o[..]), o[..])
    ensures equal ==> multiset(old(eps[..])) == multiset(old(o[..]))
    ensures DistinctKeys(PortName, old(eps[..])) ==> (equal <==> multiset(old(eps[..])) == multiset(old(o[..])))
  {
    SortByName(eps);
    SortByName(o);
    equal := eps[..] == o[..];
    SortedComparison(old(eps[..]), old(o[..]), eps[..], o[..]);
  }

  // ---------- ports of a service ----------

  /** One entry of the decoded ports annotation; JSON numbers are unbounded here. */
  datatype PortDto = PortDto(protocol: string, port: int, targetPort: int)

  datatype PortAnnotation = Undecodable | Decoded(ports: seq<PortDto>)

  datatype Service = Service(name: string, isClusterIP: bool, hasDoguLabel: bool, exposed: Option<PortAnnotation>)

  /** mapPortInt */
  function MapPortInt(i: int): Option<Int32> {
    if i < 0 || i > 0x7fff_ffff then None else Some(i)
  }

  /** mapServiceExposedPort */
  function MapPort(service: string, dto: PortDto): Option<ExposedPort> {
    var port := MapPortInt(dto.port);
    var target := MapPortInt(dto.targetPort);
    var protocol := ToUpper(dto.protocol);
    if port.None? || target.None? || protocol !in ["TCP", "UDP", "SCTP"] then None
    else Some(ExposedPort(service + "-" + FormatInt(dto.port), service, protocol, port.value, target.value, 0))
  }

  /** A port is accepted exactly when both numbers fit 31 bits and the protocol is TCP, UDP or SCTP in
      any case, and is then carried over with its protocol in upper case and no node port. */
  lemma AcceptedPorts(service: string, dto: PortDto)
    ensures
      var e := MapPort(service, dto);
      (e.Some? <==> ValidDto(dto)) && (e.Some? ==> Declares(service, dto, e.value))
  {
    assert ToUpper("tcp") == "TCP" && ToUpper("udp") == "UDP" && ToUpper("sctp") == "SCTP";
    EqualFoldIsUpperEquality(dto.protocol, "tcp");
    EqualFoldIsUpperEquality(dto.protocol, "udp");
    EqualFoldIsUpperEquality(dto.protocol, "sctp");
    ToUpperIsIdempotent(dto.protocol);
    EqualFoldIsUpperEquality(ToUpper(dto.protocol), dto.protocol);
  }

  function MapPorts(service: string, dtos: seq<PortDto>): Option<seq<ExposedPort>> {
    if dtos == [] then Some([])
    else
      var n := |dtos| - 1;
      var before := MapPorts(service, dtos[..n]);
      var last := MapPort(service, dtos[n]);
      if before.None? || last.None? then None else Some(before.value + [last.value])
  }

  /** A port the source accepts: both numbers fit 31 bits, the protocol is TCP, UDP or SCTP in any case. */
  ghost predicate ValidDto(dto: PortDto) {
    && 0 <= dto.port < 0x8000_0000 && 0 <= dto.targetPort < 0x8000_0000
    && (EqualFold(dto.protocol, "tcp") || EqualFold(dto.protocol, "udp") || EqualFold(dto.protocol, "sctp"))
  }

  /** What is carried over from a declared port. */
  ghost predicate Declares(service: string, dto: PortDto, e: ExposedPort) {
    && e.name == service + "-" + FormatInt(dto.port) && e.serviceName == service
    && e.port == dto.port && e.targetPort == dto.targetPort && e.nodePort == 0
    && EqualFold(e.protocol, dto.protocol) && ToUpper(e.protocol) == e.protocol
  }

  lemma {:induction false} MapPortsPointwise(service: string, dtos: seq<PortDto>)
    ensures MapPorts(service, dtos).Some? <==> forall i :: 0 <= i < |dtos| ==> MapPort(service, dtos[i]).Some?
    ensures MapPorts(service, dtos).Some? ==>
      && |MapPorts(service, dtos).value| == |dtos|
      && forall i :: 0 <= i < |dtos| ==> MapPort(service, dtos[i]) == Some(MapPorts(service, dtos).value[i])
  {
    if dtos != [] {
      var n := |dtos| - 1;
      MapPortsPointwise(service, dtos[..n]);
      assert forall i :: 0 <= i < n ==> dtos[..n][i] == dtos[i];
    }
  }

  ghost predicate DeclaredInOrder(service: string, dtos: seq<PortDto>, listed: seq<ExposedPort>) {
    |listed| == |dtos| && forall i :: 0 <= i < |dtos| ==> Declares(service, dtos[i], listed[i])
  }

  /** The declared ports of a list, one for one, exactly when all of them are valid. */
  lemma DeclaredPorts(service: string, dtos: seq<PortDto>)
    ensures MapPorts(service, dtos).Some? <==> forall i :: 0 <= i < |dtos| ==> ValidDto(dtos[i])
    ensures MapPorts(service, dtos).Some? ==> DeclaredInOrder(service, dtos, MapPorts(service, dtos).value)
  {
    MapPortsPointwise(service, dtos);
    forall i | 0 <= i < |dtos|
      ensures MapPort(service, dtos[i]).Some? <==> ValidDto(dtos[i])
      ensures MapPort(service, dtos[i]).Some? ==> Declares(service, dtos[i], MapPort(service, dtos[i]).value)
    {
      AcceptedPorts(service, dtos[i]);
    }
  }

  /** The ports a service declares, in the order of its annotation; None if they are invalid. */
  function PortsOf(s: Service): Option<seq<ExposedPort>> {
    match s.exposed
    case None => Some([])
    case Some(Undecodable) => None
    case Some(Decoded(dtos)) => MapPorts(s.name, dtos)
  }

  lemma {:induction false} MapPortsPrefix(service: string, dtos: seq<PortDto>, n: nat)
    requires n <= |dtos| && MapPorts(service, dtos).Some?
    ensures MapPorts(service, dtos[..n]).Some?
  {
    if n < |dtos| {
      MapPortsPrefix(service, dtos[..|dtos| - 1], n);
      assert dtos[..|dtos| - 1][..n] == dtos[..n];
    } else {
      assert dtos[..n] == dtos;
    }
  }

  /** A successful or failed reading of the ports, on the annotation itself. */
  ghost predicate ReadsAnnotation(s: Service, ok: bool, ports: seq<ExposedPort>) {
    match s.exposed
    case None => ok && ports == []
    case Some(Undecodable) => !ok
    case Some(Decoded(dtos)) =>
      && (ok <==> forall i :: 0 <= i < |dtos| ==> ValidDto(dtos[i]))
      && (ok ==> exists listed :: IsSortOf(PortName, listed, ports) && DeclaredInOrder(s.name, dtos, listed))
  }

  lemma SortedDeclaration(s: Service, ok: bool, ports: seq<ExposedPort>)
    requires ok <==> PortsOf(s).Some?
    requires ok ==> IsSortOf(PortName, PortsOf(s).value, ports)
    ensures ReadsAnnotation(s, ok, ports)
  {
    if s.exposed.None? {
      assert |ports| == |multiset(ports)| == 0;
    } else if s.exposed.value.Decoded? {
      DeclaredPorts(s.name, s.exposed.value.ports);
    }
  }

  /** The mapping loop of GetExposedPorts */
  method MapDeclaredPorts(service: string, dtos: seq<PortDto>) returns (ok: bool, ports: seq<ExposedPort>)
    ensures MapPorts(service, dtos) == if ok then Some(ports) else None
  {
    ports := [];
    for i := 0 to |dtos|
      invariant MapPorts(service, dtos[..i]) == Some(ports)
    {
      assert dtos[..i + 1][..i] == dtos[..i];
      var mapped := MapPort(service, dtos[i]);
      if mapped.None? {
        if MapPorts(service, dtos).Some? {
          MapPortsPrefix(service, dtos, i + 1);
        }
        return false, [];
      }
      ports := ports + [mapped.value];
    }
    assert dtos[..|dtos|] == dtos;
    ok := true;
  }

  /** Service.GetExposedPorts */
  method GetExposedPorts(s: Service) returns (ok: bool, ports: array<ExposedPort>)
    ensures ok <==> PortsOf(s).Some?
    ensures fresh(ports)
    ensures ok ==> IsSortOf(PortName, PortsOf(s).value, ports[..])
    ensures ReadsAnnotation(s, ok, ports[..])
  {
    ports := new ExposedPort[0];
    var result: seq<ExposedPort> := [];
    if s.exposed.None? {
      ok := true;
    } else if s.exposed.value.Undecodable? {
      ok := false;
    } else {
      ok, result := MapDeclaredPorts(s.name, s.exposed.value.ports);
    }
    if ok {
      ports := new ExposedPort[|result|](i requires 0 <= i < |result| => result[i]);
      assert ports[..] == result;
      SortByName(ports);
    }
    SortedDeclaration(s, ok, ports[..]);
  }

  /** The ports of all services, None if some service's are invalid. */
  function AllPorts(services: seq<Service>): Option<seq<ExposedPort>> {
    if services == [] then Some([])
    else
      var n := |services| - 1;
      var before := AllPorts(services[..n]);
      var last := PortsOf(services[n]);
      if before.None? || last.None? then None else Some(before.value + last.value)
  }

  lemma {:induction false} AllPortsSomeIff(services: seq<Service>)
    ensures AllPorts(services).Some? <==> forall s :: s in services ==> PortsOf(s).Some?
  {
    if services != [] {
      var n := |services| - 1;
      assert services == services[..n] + [services[n]];
      AllPortsSomeIff(services[..n]);
    }
  }

  lemma {:induction false} AllPortsOfAppend(a: seq<Service>, b: seq<Service>)
    ensures AllPorts(a + b) ==
            if AllPorts(a).Some? && AllPorts(b).Some? then Some(AllPorts(a).value + AllPorts(b).value) else None
  {
    if b == [] {
      assert a + b == a;
      if AllPorts(a).Some? {
        assert AllPorts(a).value + AllPorts(b).value == AllPorts(a).value;
      }
    } else {
      var n := |b| - 1;
      assert (a + b)[..|a + b| - 1] == a + b[..n];
      AllPortsOfAppend(a, b[..n]);
      if AllPorts(a + b).Some? {
        var x, y, z := AllPorts(a).value, AllPorts(b[..n]).value, PortsOf(b[n]).value;
        assert (x + y) + z == x + (y + z);
      }
    }
  }

  /** The ports of any list of services contain each service's in one piece, and nothing else. */
  lemma AllPortsAround(before: seq<Service>, s: Service, after: seq<Service>)
    requires AllPorts(before + [s] + after).Some?
    ensures
      && PortsOf(s).Some? && AllPorts(before).Some? && AllPorts(after).Some?
      && AllPorts(before + [s] + after).value == AllPorts(before).value + PortsOf(s).value + AllPorts(after).value
  {
    AllPortsOfAppend(before + [s], after);
    assert (before + [s])[..|before|] == before;
  }

  lemma {:induction false} AllPortsPrefix(services: seq<Service>, n: nat)
    requires n <= |services| && AllPorts(services).Some?
    ensures AllPorts(services[..n]).Some?
  {
    if n < |services| {
      AllPortsPrefix(services[..|services| - 1], n);
      assert services[..|services| - 1][..n] == services[..n];
    } else {
      assert services[..n] == services;
    }
  }

  /** getExposedDoguPorts */
  method GetExposedDoguPorts(services: seq<Service>) returns (ok: bool, ports: array<ExposedPort>)
    ensures ok <==> AllPorts(services).Some?
    ensures fresh(ports)
    ensures ok ==> IsSortOf(PortName, AllPorts(services).value, ports[..])
  {
    ports := new ExposedPort[0];
    var result: seq<ExposedPort> := [];
    for i := 0 to |services|
      invariant fresh(ports)
      invariant AllPorts(services[..i]).Some? && multiset(result) == multiset(AllPorts(services[..i]).value)
    {
      assert services[..i + 1][..i] == services[..i];
      var parsed, own := GetExposedPorts(services[i]);
      if !parsed {
        if AllPorts(services).Some? {
          AllPortsPrefix(services, i + 1);
        }
        return false, ports;
      }
      result := result + own[..];
    }
    assert services[..|services|] == services;
    ports := new ExposedPort[|result|](i requires 0 <= i < |result| => result[i]);
    assert ports[..] == result;
    SortByName(ports);
    ok := true;
  }

  // ---------- ports of the load balancer ----------

  /** CreateDefaultPorts */
  function DefaultPorts(): seq<ExposedPort> {
    [ExposedPort("http", "", "TCP", HTTP_PORT, HTTP_PORT, 0), ExposedPort("https", "", "TCP", HTTPS_PORT, HTTPS_PORT, 0)]
  }

  predicate IsDefault(e: ExposedPort) {
    e.port == HTTP_PORT || e.port == HTTPS_PORT
  }

  /** The dogu ports the load balancer takes over: all but 80 and 443, in order. */
  function Survivors(ports: seq<ExposedPort>): seq<ExposedPort> {
    if ports == [] then []
    else
      var n := |ports| - 1;
      Survivors(ports[..n]) + if IsDefault(ports[n]) then [] else [ports[n]]
  }

  lemma {:induction false} SurvivorsFilter(ports: seq<ExposedPort>, e: ExposedPort)
    ensures multiset(Survivors(ports))[e] == if IsDefault(e) then 0 else multiset(ports)[e]
  {
    if ports != [] {
      var n := |ports| - 1;
      assert ports == ports[..n] + [ports[n]];
      SurvivorsFilter(ports[..n], e);
    }
  }

  lemma {:induction false} SurvivorsOfAppend(a: seq<ExposedPort>, b: seq<ExposedPort>)
    ensures Survivors(a + b) == Survivors(a) + Survivors(b)
  {
    if b == [] {
      assert a + b == a;
    } else {
      assert (a + b)[..|a + b| - 1] == a + b[..|b| - 1];
      SurvivorsOfAppend(a, b[..|b| - 1]);
    }
  }

  lemma SurvivorsAreMembers(ports: seq<ExposedPort>)
    ensures forall e :: e in Survivors(ports) ==> e in ports && !IsDefault(e)
  {
    forall e | e in Survivors(ports)
      ensures e in ports && !IsDefault(e)
    {
      assert e in multiset(Survivors(ports));
      SurvivorsFilter(ports, e);
      assert e in multiset(ports);
    }
  }

  lemma {:induction false} SurvivorsKeepSorted(ports: seq<ExposedPort>)
    requires Sorted(PortName, ports)
    ensures Sorted(PortName, Survivors(ports))
  {
    if ports != [] {
      var before, last := ports[..|ports| - 1], ports[|ports| - 1];
      SurvivorsKeepSorted(before);
      SurvivorsAreMembers(before);
      forall i | 0 <= i < |Survivors(before)|
        ensures !Less(PortName(last), PortName(Survivors(before)[i]))
      {
        assert Survivors(before)[i] in before;
      }
    }
  }

  const ZERO := ExposedPort("", "", "", 0, 0, 0)

  function Zeros(n: nat): seq<ExposedPort> {
    seq(n, _ => ZERO)
  }

  /** The shifting half of `slices.DeleteFunc`, with the predicate of createLoadBalancerExposedPorts. */
  method Compact(ports: array<ExposedPort>) returns (n: nat)
    modifies ports
    ensures n <= ports.Length && ports[..n] == Survivors(old(ports[..]))
  {
    ghost var was := ports[..];
    n := 0;
    for j := 0 to ports.Length
      invariant n <= j && ports[..n] == Survivors(was[..j])
      invariant forall k :: j <= k < ports.Length ==> ports[k] == was[k]
    {
      assert was[..j + 1][..j] == was[..j];
      if !IsDefault(ports[j]) {
        ports[n] := ports[j];
        n := n + 1;
      }
    }
    assert was[..ports.Length] == was;
  }

  /** The clearing half of `slices.DeleteFunc`. */
  method ClearFrom(ports: array<ExposedPort>, n: nat)
    requires n <= ports.Length
    modifies ports
    ensures ports[..n] == old(ports[..n]) && forall k :: n <= k < ports.Length ==> ports[k] == ZERO
  {
    for j := n to ports.Length
      invariant ports[..n] == old(ports[..n])
      invariant forall k :: n <= k < j ==> ports[k] == ZERO
    {
      ports[j] := ZERO;
    }
  }

  /** `slices.DeleteFunc`: compacts the caller's array in place, zeroes the rest, returns the new length. */
  method DeleteDefaultPorts(ports: array<ExposedPort>) returns (n: nat)
    modifies ports
    ensures n == |Survivors(old(ports[..]))| <= ports.Length
    ensures ports[..] == Survivors(old(ports[..])) + Zeros(ports.Length - n)
  {
    n := Compact(ports);
    assert |ports[..n]| == n;
    ClearFrom(ports, n);
    assert ports[..] == ports[..n] + ports[n..];
    assert ports[n..] == Zeros(ports.Length - n);
  }

  /** createLoadBalancerExposedPorts: the result is a new slice, the argument is left compacted. */
  method CreateLoadBalancerPorts(doguPorts: array<ExposedPort>) returns (lbPorts: array<ExposedPort>)
    modifies doguPorts
    ensures fresh(lbPorts)
    ensures IsSortOf(PortName, DefaultPorts() + Survivors(old(doguPorts[..])), lbPorts[..])
    ensures |Survivors(old(doguPorts[..]))| <= doguPorts.Length
    ensures doguPorts[..] == Survivors(old(doguPorts[..])) + Zeros(doguPorts.Length - |Survivors(old(doguPorts[..]))|)
  {
    var n := DeleteDefaultPorts(doguPorts);
    var all := DefaultPorts() + doguPorts[..n];
    lbPorts := new ExposedPort[|all|](i requires 0 <= i < |all| => all[i]);
    assert lbPorts[..] == all;
    SortByName(lbPorts);
  }

  /** What the load balancer exposes for a list of services: the multiset of http, https and
      every dogu port not numbered 80 or 443. */
  lemma LoadBalancerPortsConserved(dogu: seq<ExposedPort>, lb: seq<ExposedPort>, e: ExposedPort)
    requires IsSortOf(PortName, DefaultPorts() + Survivors(dogu), lb)
    ensures multiset(lb)[e] ==
            (if e == ExposedPort("http", "", "TCP", 80, 80, 0) || e == ExposedPort("https", "", "TCP", 443, 443, 0) then 1 else 0) +
            if e.port == 80 || e.port == 443 then 0 else multiset(dogu)[e]
  {
    SurvivorsFilter(dogu, e);
  }

  // ---------- names ----------

  lemma NoDashAfter(s: string, m: nat, k: int)
    requires |s| <= k < |s + "-" + Decimal(m)|
    ensures (s + "-" + Decimal(m))[k] == '-' <==> k == |s|
  {
    if k > |s| {
      assert (s + "-" + Decimal(m))[k] == Decimal(m)[k - |s| - 1];
      assert Decimal(m)[k - |s| - 1] in Decimal(m);
    }
  }

  /** "service-number" determines both the service and the number. */
  lemma PortNamesAreInjective(s: string, m: nat, t: string, n: nat)
    requires s + "-" + Decimal(m) == t + "-" + Decimal(n)
    ensures s == t && m == n
  {
    var name := s + "-" + Decimal(m);
    NoDashAfter(s, m, if |s| <= |t| then |t| else |s|);
    NoDashAfter(t, n, if |t| <= |s| then |s| else |t|);
    assert |s| == |t|;
    assert s == name[..|s|] == t;
    assert Decimal(m) == name[|s| + 1..] == Decimal(n);
    DecimalValueOfDecimal(m);
    DecimalValueOfDecimal(n);
  }

  ghost predicate WellNamed(e: ExposedPort) {
    e.port >= 0 && e.name == e.serviceName + "-" + FormatInt(e.port)
  }

  ghost predicate AllWellNamed(ports: seq<ExposedPort>) {
    forall e :: e in ports ==> WellNamed(e)
  }

  ghost predicate DistinctOrigins(ports: seq<ExposedPort>) {
    forall i, j :: 0 <= i < j < |ports| ==>
      ports[i].serviceName != ports[j].serviceName || ports[i].port != ports[j].port
  }

  /** A service lists no number but 80 and 443 twice. */
  ghost predicate DistinctNumbers(s: Service)
    requires PortsOf(s).Some?
  {
    NumberedOnce(PortsOf(s).value)
  }

  ghost predicate NumberedOnce(ports: seq<ExposedPort>) {
    forall i, j :: 0 <= i < j < |ports| && ports[i].port == ports[j].port ==> ports[i].port == 80 || ports[i].port == 443
  }

  lemma NumberedOnceSnoc(ports: seq<ExposedPort>, last: ExposedPort)
    ensures NumberedOnce(ports + [last]) <==>
            NumberedOnce(ports) && (last.port == 80 || last.port == 443 || forall e :: e in ports ==> e.port != last.port)
  {
    var all := ports + [last];
    assert forall i :: 0 <= i < |ports| ==> all[i] == ports[i];
    if NumberedOnce(all) {
      forall i, j | 0 <= i < j < |ports| && ports[i].port == ports[j].port
        ensures ports[i].port == 80 || ports[i].port == 443
      {
        assert all[i].port == all[j].port;
      }
      assert last.port == 80 || last.port == 443 || forall i :: 0 <= i < |ports| ==> all[i].port != all[|ports|].port;
    }
  }

  lemma {:induction false} SurvivorsNumberedOnce(ports: seq<ExposedPort>)
    ensures NumberedOnce(ports) <==> NumberedOnce(Survivors(ports))
  {
    if ports != [] {
      var before, last := ports[..|ports| - 1], ports[|ports| - 1];
      assert ports == before + [last];
      SurvivorsNumberedOnce(before);
      NumberedOnceSnoc(before, last);
      if IsDefault(last) {
        assert Survivors(ports) == Survivors(before);
      } else {
        NumberedOnceSnoc(Survivors(before), last);
        SurvivorsAreMembers(before);
        if e :| e in before && e.port == last.port {
          SurvivorsFilter(before, e);
          assert e in multiset(Survivors(before));
        }
      }
    }
  }

  lemma DistinctOriginsOfOne(ports: seq<ExposedPort>, service: string)
    requires forall e :: e in ports ==> e.serviceName == service && !IsDefault(e)
    ensures DistinctOrigins(ports) <==> NumberedOnce(ports)
  {
    assert forall i :: 0 <= i < |ports| ==> ports[i] in ports;
  }

  lemma {:induction false} MapPortsNames(service: string, dtos: seq<PortDto>)
    requires MapPorts(service, dtos).Some?
    ensures AllWellNamed(MapPorts(service, dtos).value)
    ensures forall e :: e in MapPorts(service, dtos).value ==> e.serviceName == service
  {
    if dtos != [] {
      MapPortsNames(service, dtos[..|dtos| - 1]);
    }
  }

  lemma PortsOfNames(s: Service)
    requires PortsOf(s).Some?
    ensures AllWellNamed(PortsOf(s).value) && forall e :: e in PortsOf(s).value ==> e.serviceName == s.name
  {
    if s.exposed.Some? {
      MapPortsNames(s.name, s.exposed.value.ports);
    }
  }

  lemma NamesMirrorOrigins(ports: seq<ExposedPort>)
    requires AllWellNamed(ports)
    ensures DistinctKeys(PortName, DefaultPorts() + ports) <==> DistinctOrigins(ports)
  {
    var all := DefaultPorts() + ports;
    forall i | 0 <= i < |ports|
      ensures all[i + 2] == ports[i] && ports[i].name != "http" && ports[i].name != "https"
    {
      assert WellNamed(ports[i]);
      assert ports[i].name[|ports[i].serviceName|] == '-';
      assert '-' in ports[i].name && '-' !in "http" && '-' !in "https";
    }
    forall i, j | 0 <= i < j < |ports|
      ensures ports[i].name == ports[j].name <==>
              ports[i].serviceName == ports[j].serviceName && ports[i].port == ports[j].port
    {
      assert WellNamed(ports[i]) && WellNamed(ports[j]);
      if ports[i].name == ports[j].name {
        PortNamesAreInjective(ports[i].serviceName, ports[i].port, ports[j].serviceName, ports[j].port);
      }
    }
    if DistinctKeys(PortName, all) {
      forall i, j | 0 <= i < j < |ports|
        ensures ports[i].name != ports[j].name
      {
        assert PortName(all[i + 2]) != PortName(all[j + 2]);
      }
    }
    assert "http" != "https" by { assert |"http"| != |"https"|; }
  }

  lemma DistinctOriginsOfAppend(a: seq<ExposedPort>, b: seq<ExposedPort>)
    requires forall x, y :: x in a && y in b ==> x.serviceName != y.serviceName
    ensures DistinctOrigins(a + b) <==> DistinctOrigins(a) && DistinctOrigins(b)
  {
    var all := a + b;
    if DistinctOrigins(all) {
      forall i, j | 0 <= i < j < |a|
        ensures a[i].serviceName != a[j].serviceName || a[i].port != a[j].port
      {
        assert all[i] == a[i] && all[j] == a[j];
      }
      forall i, j | 0 <= i < j < |b|
        ensures b[i].serviceName != b[j].serviceName || b[i].port != b[j].port
      {
        assert all[|a| + i] == b[i] && all[|a| + j] == b[j];
      }
    }
    if DistinctOrigins(a) && DistinctOrigins(b) {
      forall i, j | 0 <= i < j < |all|
        ensures all[i].serviceName != all[j].serviceName || all[i].port != all[j].port
      {
        if i < |a| <= j {
          assert all[i] in a && all[j] in b;
        }
      }
    }
  }

  ghost predicate DistinctServices(services: seq<Service>) {
    forall i, j :: 0 <= i < j < |services| ==> services[i].name != services[j].name
  }

  lemma {:induction false} AllPortsMembers(services: seq<Service>)
    requires AllPorts(services).Some?
    ensures forall s :: s in services ==> PortsOf(s).Some?
    ensures AllWellNamed(AllPorts(services).value)
    ensures forall e :: e in AllPorts(services).value ==> exists s :: s in services && s.name == e.serviceName
  {
    if services != [] {
      var n := |services| - 1;
      AllPortsMembers(services[..n]);
      PortsOfNames(services[n]);
      assert services == services[..n] + [services[n]];
      assert services[n] in services;
    }
  }

  lemma {:induction false} OriginsByService(services: seq<Service>)
    requires DistinctServices(services) && AllPorts(services).Some?
    requires forall s :: s in services ==> PortsOf(s).Some?
    ensures DistinctOrigins(Survivors(AllPorts(services).value)) <==> forall s :: s in services ==> DistinctNumbers(s)
  {
    if services != [] {
      var n := |services| - 1;
      var before, last := services[..n], services[n];
      var a, b := AllPorts(before).value, PortsOf(last).value;
      assert services == before + [last] && last in services;
      OriginsByService(before);
      SurvivorsOfAppend(a, b);
      SurvivorsAreMembers(a);
      SurvivorsAreMembers(b);
      AllPortsMembers(before);
      PortsOfNames(last);
      DistinctOriginsOfAppend(Survivors(a), Survivors(b));
      DistinctOriginsOfOne(Survivors(b), last.name);
      SurvivorsNumberedOnce(b);
    }
  }

  /** `lb` is a port list the pipeline may produce for the services. */
  ghost predicate Desired(services: seq<Service>, lb: seq<ExposedPort>) {
    AllPorts(services).Some? && IsSortOf(PortName, DefaultPorts() + Survivors(AllPorts(services).value), lb)
  }

  /** For services with distinct names, the load balancer's port names are distinct exactly when
      no service lists a number other than 80 and 443 twice. */
  lemma LoadBalancerNamesDistinctIff(services: seq<Service>, lb: seq<ExposedPort>)
    requires DistinctServices(services) && Desired(services, lb)
    ensures forall s :: s in services ==> PortsOf(s).Some?
    ensures DistinctKeys(PortName, lb) <==> forall s :: s in services ==> DistinctNumbers(s)
  {
    var ports := AllPorts(services).value;
    AllPortsMembers(services);
    SurvivorsAreMembers(ports);
    NamesMirrorOrigins(Survivors(ports));
    OriginsByService(services);
    if DistinctKeys(PortName, lb) {
      DistinctKeysPermuted(PortName, lb, DefaultPorts() + Survivors(ports));
    }
    if DistinctKeys(PortName, DefaultPorts() + Survivors(ports)) {
      DistinctKeysPermuted(PortName, DefaultPorts() + Survivors(ports), lb);
    }
  }

  /** TCP and UDP on one number of one service get one name. */
  lemma ProtocolsShareAName(service: string, number: int)
    requires 0 <= number <= 0x7fff_ffff
    ensures
      var tcp := MapPort(service, PortDto("tcp", number, number));
      var udp := MapPort(service, PortDto("udp", number, number));
      tcp.Some? && udp.Some? && tcp != udp && tcp.value.name == udp.value.name
  {
    assert ToUpper("tcp") == "TCP" && ToUpper("udp") == "UDP";
    assert "TCP"[0] != "UDP"[0];
  }
}
