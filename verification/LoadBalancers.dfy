/** The load balancer service: its creation, its update from a configuration and a list of
    wanted ports, and what stays fixed when this is repeated. */
module LoadBalancers {
  import opened Strings
  import opened Sorting
  import opened ExposedPorts
  import opened ManagedAnnotations

  datatype Config = Config(annotations: Annotations, internalPolicy: string, externalPolicy: string)

  datatype LoadBalancer = LoadBalancer(
    annotations: Annotations, internalPolicy: string, externalPolicy: string,
    ports: seq<ServicePort>, selector: map<string, string>)

  /** ParseLoadbalancerConfig on the decoded YAML: defaults, then validation */
  function ParseConfig(raw: Config): (cfg: Option<Config>)
    ensures cfg.Some? ==> cfg.value.annotations == raw.annotations
    ensures cfg.Some? ==> {cfg.value.internalPolicy, cfg.value.externalPolicy} <= {"Cluster", "Local"}
    ensures cfg.Some? && raw.internalPolicy != "" ==> cfg.value.internalPolicy == raw.internalPolicy
    ensures cfg.Some? && raw.externalPolicy != "" ==> cfg.value.externalPolicy == raw.externalPolicy
    ensures cfg.Some? && raw.internalPolicy == "" ==> cfg.value.internalPolicy == "Cluster"
    ensures cfg.Some? && raw.externalPolicy == "" ==> cfg.value.externalPolicy == "Local"
    ensures {raw.internalPolicy, raw.externalPolicy} <= {"", "Cluster", "Local"} <==> cfg.Some?
  {
    var external := if raw.externalPolicy == "" then "Local" else raw.externalPolicy;
    var internal := if raw.internalPolicy == "" then "Cluster" else raw.internalPolicy;
    if internal in ["Cluster", "Local"] && external in ["Cluster", "Local"]
    then Some(Config(raw.annotations, internal, external)) else None
  }

  // ---------- create and update ----------

  /** What CreateLoadBalancer returns; the ports keep the order they are given in. */
  ghost function Created(cfg: Config, wanted: seq<ExposedPort>, selector: map<string, string>): LoadBalancer {
    LoadBalancer(ConfigAnnotations(cfg.annotations), cfg.internalPolicy, cfg.externalPolicy, ToServicePorts(wanted), selector)
  }

  /** `settled` is a result UpdateExposedPorts may leave in the wanted ports: node ports carried over, then sorted. */
  ghost predicate Settles(before: seq<ServicePort>, wanted: seq<ExposedPort>, settled: seq<ExposedPort>) {
    IsSortOf(PortName, WithNodePorts(wanted, NodeIndex(before)), settled)
  }

  /** The load balancer after ApplyConfig and UpdateExposedPorts; the selector is never rewritten. */
  ghost function Updated(lb: LoadBalancer, cfg: Config, settled: seq<ExposedPort>): LoadBalancer {
    LoadBalancer(Applied(lb.annotations, cfg.annotations), cfg.internalPolicy, cfg.externalPolicy, ToServicePorts(settled), lb.selector)
  }

  /** CreateLoadBalancer */
  method CreateLoadBalancer(cfg: Config, wanted: array<ExposedPort>, selector: map<string, string>) returns (lb: LoadBalancer)
    ensures lb == Created(cfg, wanted[..], selector)
    ensures forall k :: k in cfg.annotations && k != MANAGED ==> Lookup(lb.annotations, k) == Some(cfg.annotations[k])
    ensures |lb.ports| == wanted.Length && forall i :: 0 <= i < wanted.Length ==> Serves(lb.ports[i], wanted[i])
  {
    var ports := CreateServicePorts(wanted);
    var annotations := CreateConfigAnnotations(cfg.annotations);
    lb := LoadBalancer(annotations, cfg.internalPolicy, cfg.externalPolicy, ports, selector);
  }

  /** The port loop of CreateLoadBalancer */
  method CreateServicePorts(wanted: array<ExposedPort>) returns (ports: seq<ServicePort>)
    ensures ports == ToServicePorts(wanted[..])
    ensures |ports| == wanted.Length && forall i :: 0 <= i < wanted.Length ==> Serves(ports[i], wanted[i])
  {
    ports := [];
    for i := 0 to wanted.Length
      invariant ports == ToServicePorts(wanted[..i])
    {
      ports := ports + [ToServicePort(wanted[i])];
    }
    assert wanted[..wanted.Length] == wanted[..];
  }

  class LoadBalancerObject {
    var annotations: Annotations
    var internalPolicy: string
    var externalPolicy: string
    var ports: seq<ServicePort>
    var selector: map<string, string>

    function Value(): LoadBalancer
      reads this
    {
      LoadBalancer(annotations, internalPolicy, externalPolicy, ports, selector)
    }

    constructor (lb: LoadBalancer)
      ensures Value() == lb
    {
      annotations, internalPolicy, externalPolicy := lb.annotations, lb.internalPolicy, lb.externalPolicy;
      ports, selector := lb.ports, lb.selector;
    }

    /** LoadBalancer.ApplyConfig */
    method ApplyConfig(cfg: Config)
      modifies this
      ensures Value() == old(Value()).(annotations := Applied(old(annotations), cfg.annotations),
                                       internalPolicy := cfg.internalPolicy, externalPolicy := cfg.externalPolicy)
      ensures forall k :: k in cfg.annotations && k != MANAGED ==> Lookup(annotations, k) == Some(cfg.annotations[k])
    {
      var keys := ManagedKeys(annotations);
      for i := 0 to |keys|
        invariant annotations == old(annotations) - Members(keys[..i])
        invariant unchanged(`internalPolicy, `externalPolicy, `ports, `selector)
      {
        annotations := annotations - {keys[i]};
        RemoveTwice(old(annotations), Members(keys[..i]), {keys[i]});
        assert Members(keys[..i]) + {keys[i]} == Members(keys[..i + 1]);
      }
      assert keys[..|keys|] == keys;
      var config := CreateConfigAnnotations(cfg.annotations);
      annotations := annotations + config;
      externalPolicy := cfg.externalPolicy;
      internalPolicy := cfg.internalPolicy;
    }

    /** LoadBalancer.UpdateExposedPorts; the caller's slice is left with node ports, sorted */
    method UpdateExposedPorts(wanted: array<ExposedPort>)
      modifies this, wanted
      ensures Settles(old(ports), old(wanted[..]), wanted[..])
      ensures Value() == old(Value()).(ports := ToServicePorts(wanted[..]))
      ensures |ports| == wanted.Length && forall i :: 0 <= i < wanted.Length ==> Serves(ports[i], wanted[i])
    {
      SetNodePorts(wanted, ports);
      ports := SortedServicePorts(wanted);
    }
  }

  // ---------- the server's part ----------

  /** The API server gives node ports to ports without one and leaves the rest alone. */
  ghost predicate Assigned(sent: seq<ServicePort>, stored: seq<ServicePort>) {
    |stored| == |sent| && forall i :: 0 <= i < |sent| ==>
      stored[i] == sent[i].(nodePort := stored[i].nodePort) && (sent[i].nodePort != 0 ==> stored[i].nodePort == sent[i].nodePort)
  }

  // ---------- repeating an upsert ----------

  lemma WithNodePortsOfAppend(a: seq<ExposedPort>, b: seq<ExposedPort>, index: map<IndexKey, Int32>)
    ensures WithNodePorts(a + b, index) == WithNodePorts(a, index) + WithNodePorts(b, index)
  {
  }

  lemma {:induction false} WithNodePortsPermuted(a: seq<ExposedPort>, b: seq<ExposedPort>, index: map<IndexKey, Int32>)
    requires multiset(a) == multiset(b)
    ensures multiset(WithNodePorts(a, index)) == multiset(WithNodePorts(b, index))
  {
    if a == [] {
      assert |b| == |multiset(b)| == 0;
    } else {
      assert a[0] in multiset(b);
      var j :| 0 <= j < |b| && b[j] == a[0];
      var l, r := b[..j], b[j + 1..];
      MultisetOfTail(a);
      MultisetWithoutOne(b, j);
      WithNodePortsPermuted(a[1..], l + r, index);
      assert a == [a[0]] + a[1..];
      assert b == (l + [b[j]]) + r;
      WithNodePortsOfAppend([a[0]], a[1..], index);
      WithNodePortsOfAppend(l + [b[j]], r, index);
      WithNodePortsOfAppend(l, [b[j]], index);
      WithNodePortsOfAppend(l, r, index);
    }
  }

  lemma WithNodePortsKeepsNames(ports: seq<ExposedPort>, index: map<IndexKey, Int32>)
    ensures DistinctKeys(PortName, ports) <==> DistinctKeys(PortName, WithNodePorts(ports, index))
    ensures Sorted(PortName, ports) <==> Sorted(PortName, WithNodePorts(ports, index))
  {
    var r := WithNodePorts(ports, index);
    assert forall i :: 0 <= i < |ports| ==> PortName(r[i]) == PortName(ports[i]);
  }

  /** Distinct names make the index exact. */
  lemma AssignedIndex(sent: seq<ExposedPort>, stored: seq<ServicePort>, i: int)
    requires DistinctKeys(PortName, sent) && Assigned(ToServicePorts(sent), stored) && 0 <= i < |sent|
    ensures WantedKey(sent[i]) in NodeIndex(stored)
    ensures NodeIndex(stored)[WantedKey(sent[i])] == stored[i].nodePort
  {
    var key := WantedKey(sent[i]);
    assert KeyOf(stored[i]) == key;
    NodeIndexDomain(stored, key);
    var j :| 0 <= j < |stored| && KeyOf(stored[j]) == key && stored[j].nodePort == NodeIndex(stored)[key];
    assert PortName(sent[j]) == stored[j].name == key.name == PortName(sent[i]);
  }

  lemma AssignedIsSettled(sent: seq<ExposedPort>, stored: seq<ServicePort>)
    requires DistinctKeys(PortName, sent) && Assigned(ToServicePorts(sent), stored)
    ensures ToServicePorts(WithNodePorts(sent, NodeIndex(stored))) == stored
  {
    forall i | 0 <= i < |sent|
      ensures ToServicePort(WithNodePort(sent[i], NodeIndex(stored))) == stored[i]
    {
      AssignedIndex(sent, stored, i);
    }
  }

  /** Once every key is indexed, earlier node ports no longer matter. */
  lemma WithNodePortsOverwrites(wanted: seq<ExposedPort>, first: map<IndexKey, Int32>, index: map<IndexKey, Int32>, sent: seq<ExposedPort>)
    requires multiset(sent) == multiset(WithNodePorts(wanted, first))
    requires forall e :: e in sent ==> WantedKey(e) in index
    ensures multiset(WithNodePorts(sent, index)) == multiset(WithNodePorts(wanted, index))
  {
    var once := WithNodePorts(wanted, first);
    WithNodePortsPermuted(sent, once, index);
    forall i | 0 <= i < |wanted|
      ensures WithNodePort(once[i], index) == WithNodePort(wanted[i], index)
    {
      assert once[i] in multiset(sent);
      assert WantedKey(once[i]) == WantedKey(wanted[i]);
    }
    assert WithNodePorts(once, index) == WithNodePorts(wanted, index);
  }

  /** With distinct names, updating again with the same ports in any order reproduces the stored
      ports, node ports assigned by the server in between included. */
  lemma SettledPortsAreStable(before: seq<ServicePort>, wanted: seq<ExposedPort>, sent: seq<ExposedPort>,
                              stored: seq<ServicePort>, again: seq<ExposedPort>, settled: seq<ExposedPort>)
    requires DistinctKeys(PortName, wanted) && multiset(again) == multiset(wanted)
    requires Settles(before, wanted, sent) && Assigned(ToServicePorts(sent), stored)
    requires Settles(stored, again, settled)
    ensures ToServicePorts(settled) == stored
  {
    var first, index := NodeIndex(before), NodeIndex(stored);
    WithNodePortsKeepsNames(wanted, first);
    DistinctKeysPermuted(PortName, WithNodePorts(wanted, first), sent);
    AssignedIsSettled(sent, stored);
    forall e | e in sent
      ensures WantedKey(e) in index
    {
      var i :| 0 <= i < |sent| && sent[i] == e;
      AssignedIndex(sent, stored, i);
    }
    WithNodePortsOverwrites(wanted, first, index, sent);
    WithNodePortsPermuted(wanted, again, index);
    WithNodePortsKeepsNames(sent, index);
    DistinctKeysIdentify(PortName, WithNodePorts(sent, index));
    SortIsUnique(PortName, WithNodePorts(sent, index), settled);
  }

  /** What the first upsert leaves stored: from nothing, or from any existing load balancer. */
  ghost predicate Upserted(before: Option<LoadBalancer>, cfg: Config, wanted: seq<ExposedPort>, selector: map<string, string>,
                           sent: seq<ExposedPort>, stored: LoadBalancer) {
    && (before.None? ==> sent == wanted && Sorted(PortName, wanted))
    && (before.Some? ==> Settles(before.value.ports, wanted, sent))
    && var lb := if before.None? then Created(cfg, wanted, selector) else Updated(before.value, cfg, sent);
       stored == lb.(ports := stored.ports) && Assigned(lb.ports, stored.ports)
  }

  /** Reconciling again with the same configuration and ports changes nothing at all, exactly when
      no piece of the key list names an unmanaged annotation. */
  lemma UpsertIsIdempotent(before: Option<LoadBalancer>, cfg: Config, wanted: seq<ExposedPort>, selector: map<string, string>,
                           sent: seq<ExposedPort>, stored: LoadBalancer, again: seq<ExposedPort>, settled: seq<ExposedPort>)
    requires Upserted(before, cfg, wanted, selector, sent, stored)
    requires DistinctKeys(PortName, wanted) && multiset(again) == multiset(wanted)
    requires Settles(stored.ports, again, settled)
    ensures Updated(stored, cfg, settled) == stored <==>
            NoStrayPiece(if before.None? then map[] else before.value.annotations, cfg.annotations)
    ensures Updated(stored, cfg, settled).(annotations := stored.annotations) == stored
  {
    UpsertedAnnotations(before, cfg, wanted, selector, sent, stored);
    UpsertedPorts(before, cfg, wanted, selector, sent, stored, again, settled);
  }

  lemma UpsertedAnnotations(before: Option<LoadBalancer>, cfg: Config, wanted: seq<ExposedPort>, selector: map<string, string>,
                            sent: seq<ExposedPort>, stored: LoadBalancer)
    requires Upserted(before, cfg, wanted, selector, sent, stored)
    ensures Applied(stored.annotations, cfg.annotations) == stored.annotations <==>
            NoStrayPiece(if before.None? then map[] else before.value.annotations, cfg.annotations)
  {
    if before.None? {
      AppliedToNothing(cfg.annotations);
    }
    ApplyIsIdempotentIff(if before.None? then map[] else before.value.annotations, cfg.annotations);
  }

  lemma UpsertedPorts(before: Option<LoadBalancer>, cfg: Config, wanted: seq<ExposedPort>, selector: map<string, string>,
                      sent: seq<ExposedPort>, stored: LoadBalancer, again: seq<ExposedPort>, settled: seq<ExposedPort>)
    requires Upserted(before, cfg, wanted, selector, sent, stored)
    requires DistinctKeys(PortName, wanted) && multiset(again) == multiset(wanted)
    requires Settles(stored.ports, again, settled)
    ensures ToServicePorts(settled) == stored.ports
  {
    if before.None? {
      assert WithNodePorts(wanted, NodeIndex([])) == wanted;
      SettledPortsAreStable([], wanted, sent, stored.ports, again, settled);
    } else {
      SettledPortsAreStable(before.value.ports, wanted, sent, stored.ports, again, settled);
    }
  }

  lemma AppliedToNothing(cfg: Annotations)
    ensures Applied(map[], cfg) == ConfigAnnotations(cfg)
  {
    var none: Annotations := map[];
    assert ManagedKeys(none) == [];
    assert (none - ManagedSet(none)) == none;
  }

  // ---------- comparing load balancers ----------

  function IndexKeys(ports: seq<ServicePort>): set<IndexKey> {
    set p | p in ports :: KeyOf(p)
  }

  /** LoadBalancer.equalPorts: fills two index maps and compares them */
  method EqualPorts(a: seq<ServicePort>, b: seq<ServicePort>) returns (equal: bool)
    ensures equal <==> forall key :: HasKey(a, key) <==> HasKey(b, key)
  {
    var left: set<IndexKey> := {};
    var right: set<IndexKey> := {};
    for i := 0 to |a|
      invariant left == IndexKeys(a[..i])
    {
      left := left + {KeyOf(a[i])};
      assert a[..i + 1] == a[..i] + [a[i]];
    }
    for i := 0 to |b|
      invariant right == IndexKeys(b[..i])
    {
      right := right + {KeyOf(b[i])};
      assert b[..i + 1] == b[..i] + [b[i]];
    }
    assert a[..|a|] == a && b[..|b|] == b;
    equal := left == right;
    IndexKeysAreKeys(a);
    IndexKeysAreKeys(b);
  }

  lemma IndexKeysAreKeys(ports: seq<ServicePort>)
    ensures forall key :: key in IndexKeys(ports) <==> HasKey(ports, key)
  {
    forall key | key in IndexKeys(ports)
      ensures HasKey(ports, key)
    {
      var p :| p in ports && KeyOf(p) == key;
      var i :| 0 <= i < |ports| && ports[i] == p;
    }
    forall key | HasKey(ports, key)
      ensures key in IndexKeys(ports)
    {
      var i :| 0 <= i < |ports| && KeyOf(ports[i]) == key;
      assert ports[i] in ports;
    }
  }

  lemma CarriedKeys(before: seq<ServicePort>, wanted: seq<ExposedPort>, sent: seq<ExposedPort>, e: ExposedPort)
    requires Settles(before, wanted, sent) && e in sent
    ensures exists j :: 0 <= j < |wanted| && e == WithNodePort(wanted[j], NodeIndex(before)) && WantedKey(wanted[j]) == WantedKey(e)
  {
    var carried := WithNodePorts(wanted, NodeIndex(before));
    assert e in multiset(sent);
    assert e in carried;
    var j :| 0 <= j < |carried| && carried[j] == e;
    assert e == WithNodePort(wanted[j], NodeIndex(before));
  }

  lemma WantedKeysAreSent(before: seq<ServicePort>, wanted: seq<ExposedPort>, sent: seq<ExposedPort>, j: int)
    requires Settles(before, wanted, sent) && 0 <= j < |wanted|
    ensures exists i :: 0 <= i < |sent| && WantedKey(sent[i]) == WantedKey(wanted[j])
  {
    var carried := WithNodePorts(wanted, NodeIndex(before));
    assert carried[j] in multiset(carried);
    assert carried[j] in sent;
    var i :| 0 <= i < |sent| && sent[i] == carried[j];
    assert WantedKey(sent[i]) == WantedKey(wanted[j]);
  }

  /** Order and node ports do not matter: every load balancer updated to some wanted ports, as the
      server stores it, has the index keys of one freshly created from them. */
  lemma UpdatedPortsEqualFresh(before: seq<ServicePort>, wanted: seq<ExposedPort>, sent: seq<ExposedPort>, stored: seq<ServicePort>, key: IndexKey)
    requires Settles(before, wanted, sent) && Assigned(ToServicePorts(sent), stored)
    ensures HasKey(stored, key) <==> HasKey(ToServicePorts(wanted), key)
  {
    if HasKey(stored, key) {
      var i :| 0 <= i < |stored| && KeyOf(stored[i]) == key;
      CarriedKeys(before, wanted, sent, sent[i]);
      var j :| 0 <= j < |wanted| && WantedKey(wanted[j]) == WantedKey(sent[i]);
      assert KeyOf(ToServicePorts(wanted)[j]) == key;
    }
    if HasKey(ToServicePorts(wanted), key) {
      var j :| 0 <= j < |wanted| && KeyOf(ToServicePorts(wanted)[j]) == key;
      WantedKeysAreSent(before, wanted, sent, j);
      var i :| 0 <= i < |sent| && WantedKey(sent[i]) == WantedKey(wanted[j]);
      assert KeyOf(stored[i]) == key;
    }
  }

  /** Permuting ports and assigning node ports changes no index key. */
  lemma OrderAndNodePortsAreIgnored(a: seq<ServicePort>, b: seq<ServicePort>, c: seq<ServicePort>, key: IndexKey)
    requires multiset(a) == multiset(b) && Assigned(b, c)
    ensures HasKey(a, key) <==> HasKey(c, key)
  {
    if HasKey(a, key) {
      var i :| 0 <= i < |a| && KeyOf(a[i]) == key;
      assert a[i] in multiset(b);
      var j :| 0 <= j < |b| && b[j] == a[i];
      assert KeyOf(c[j]) == key;
    }
    if HasKey(c, key) {
      var j :| 0 <= j < |c| && KeyOf(c[j]) == key;
      assert b[j] in multiset(a);
      var i :| 0 <= i < |a| && a[i] == b[j];
    }
  }

  // ---------- node ports over whole runs ----------

  /** One reconcile of the ports: any sort of the carried-over ports, then the server's assignments. */
  ghost predicate PortsStep(before: seq<ServicePort>, wanted: seq<ExposedPort>, after: seq<ServicePort>) {
    exists sent :: Settles(before, wanted, sent) && Assigned(ToServicePorts(sent), after)
  }

  ghost predicate Wants(wanted: seq<ExposedPort>, key: IndexKey) {
    exists i :: 0 <= i < |wanted| && WantedKey(wanted[i]) == key
  }

  lemma PortsStepKeepsNodePort(before: seq<ServicePort>, wanted: seq<ExposedPort>, after: seq<ServicePort>, key: IndexKey)
    requires PortsStep(before, wanted, after) && Wants(wanted, key)
    requires key in NodeIndex(before) && NodeIndex(before)[key] != 0
    ensures key in NodeIndex(after) && NodeIndex(after)[key] == NodeIndex(before)[key]
  {
    var sent :| Settles(before, wanted, sent) && Assigned(ToServicePorts(sent), after);
    forall i | 0 <= i < |after| && KeyOf(after[i]) == key
      ensures after[i].nodePort == NodeIndex(before)[key]
    {
      CarriedKeys(before, wanted, sent, sent[i]);
    }
    UpdatedPortsEqualFresh(before, wanted, sent, after, key);
    var j :| 0 <= j < |wanted| && WantedKey(wanted[j]) == key;
    assert KeyOf(ToServicePorts(wanted)[j]) == key;
    NodeIndexDomain(after, key);
  }

  /** As long as a port stays wanted its node port never changes once assigned, whatever else
      comes and goes, and even if names or keys repeat. */
  lemma {:induction false} NodePortsAreStable(states: seq<seq<ServicePort>>, wanted: seq<seq<ExposedPort>>, key: IndexKey)
    requires |states| == |wanted| + 1
    requires forall i :: 0 <= i < |wanted| ==> PortsStep(states[i], wanted[i], states[i + 1]) && Wants(wanted[i], key)
    requires key in NodeIndex(states[0]) && NodeIndex(states[0])[key] != 0
    ensures forall i :: 0 <= i < |states| ==> key in NodeIndex(states[i]) && NodeIndex(states[i])[key] == NodeIndex(states[0])[key]
  {
    if wanted != [] {
      PortsStepKeepsNodePort(states[0], wanted[0], states[1], key);
      NodePortsAreStable(states[1..], wanted[1..], key);
      forall i | 0 <= i < |states|
        ensures key in NodeIndex(states[i]) && NodeIndex(states[i])[key] == NodeIndex(states[0])[key]
      {
        if i > 0 {
          assert states[i] == states[1..][i - 1];
        }
      }
    }
  }
}
