/** networkPolicyHandler as imperative code: the fetched policy is edited in place inside a
    retry loop while other clients of the API server keep writing. */
module PolicyHandler {
  import opened Strings
  import opened PolicyPorts
  import opened PolicyLedger
  import opened PolicyProtocol

  datatype Status = Ok | Conflict | NotFound | AlreadyExists | BadRecord | BadService

  /** The API server's slot for the policy.  The history lists every state the slot ever had. */
  class PolicyServer {
    var stored: Option<Stored>
    var clock: nat
    ghost var history: seq<Option<Policy>>
    ghost var ownWrites: nat

    ghost predicate Valid()
      reads this
    {
      && history != [] && history[|history| - 1] == PolicyOf(stored)
      && (stored.Some? ==> stored.value.version <= clock)
    }

    /** Nothing happened since, or every version is newer than anything handed out before. */
    twostate predicate Newer()
      reads this
    {
      || (stored == old(stored) && clock == old(clock) && history == old(history))
      || (clock > old(clock) && old(history) < history && (stored.Some? ==> stored.value.version > old(clock)))
    }

    constructor ()
      ensures Valid() && stored.None? && history == [None] && ownWrites == 0
    {
      stored, clock, history, ownWrites := None, 0, [None], 0;
    }

    method Put(p: Option<Policy>)
      requires Valid()
      modifies this
      ensures Valid() && Newer() && ownWrites == old(ownWrites)
      ensures history == old(history) + [p] && PolicyOf(stored) == p
    {
      clock := clock + 1;
      stored := if p.None? then None else Some(Stored(p.value, clock));
      history := history + [p];
    }

    /** Any number of writes by other clients. */
    method Others()
      requires Valid()
      modifies this
      ensures Valid() && Newer() && ownWrites == old(ownWrites)
    {
      var n :| 0 <= n;
      for i := 0 to n
        invariant Valid() && Newer() && ownWrites == old(ownWrites)
      {
        var p: Option<Policy> := *;
        Put(p);
      }
    }

    method Create(p: Policy) returns (r: Status)
      requires Valid()
      modifies this
      ensures Valid() && Newer()
      ensures r == if old(stored).None? then Ok else AlreadyExists
      ensures r == Ok ==> history == old(history) + [Some(p)] && ownWrites == old(ownWrites) + 1
      ensures r != Ok ==> history == old(history) && ownWrites == old(ownWrites)
    {
      if stored.Some? {
        return AlreadyExists;
      }
      Put(Some(p));
      ownWrites := ownWrites + 1;
      r := Ok;
    }

    method Update(p: Policy, version: nat) returns (r: Status)
      requires Valid()
      modifies this
      ensures Valid() && Newer()
      ensures r == if old(stored).None? then NotFound else if old(stored).value.version != version then Conflict else Ok
      ensures r == Ok ==> history == old(history) + [Some(p)] && ownWrites == old(ownWrites) + 1
      ensures r != Ok ==> history == old(history) && ownWrites == old(ownWrites)
    {
      if stored.None? {
        return NotFound;
      }
      if stored.value.version != version {
        return Conflict;
      }
      Put(Some(p));
      ownWrites := ownWrites + 1;
      r := Ok;
    }

    method Delete() returns (r: Status)
      requires Valid()
      modifies this
      ensures Valid() && Newer()
      ensures r == if old(stored).None? then NotFound else Ok
      ensures r == Ok ==> history == old(history) + [None] && ownWrites == old(ownWrites) + 1
      ensures r != Ok ==> history == old(history) && ownWrites == old(ownWrites)
    {
      if stored.None? {
        return NotFound;
      }
      Put(None);
      ownWrites := ownWrites + 1;
      r := Ok;
    }
  }

  /** The client's copy of a policy. */
  class FetchedPolicy {
    var ports: seq<PolicyPort>
    var annotations: map<string, Record>
    var cidr: string

    function Value(): Policy
      reads this
    {
      Policy(ports, annotations, cidr)
    }

    constructor (p: Policy)
      ensures Value() == p
    {
      ports, annotations, cidr := p.ports, p.annotations, p.cidr;
    }

    /** The edit inside updateNetworkPolicy. */
    method Claim(service: string, want: seq<ExposedPort>, allowedCIDR: string) returns (outcome: Outcome)
      modifies this
      ensures outcome == PolicyLedger.Update(old(Value()), service, want, allowedCIDR)
      ensures Value() == if outcome.Write? then outcome.result else old(Value())
    {
      var key := AnnotationKey(service);
      if key !in annotations {
        if want == [] {
          return Done;
        }
        annotations := annotations[key := Claims(want)];
        var added := ConvertPorts(want);
        ports := ports + added;
        cidr := allowedCIDR;
        return Write(Value());
      }
      if annotations[key].Unreadable? {
        return Error;
      }
      var toDelete := SubtractSlice(annotations[key].ports, want);
      var left := DeleteIngressPorts(ports, toDelete);
      ports := AddIngressPorts(left, want);
      annotations := annotations[key := Claims(want)];
      cidr := allowedCIDR;
      outcome := Write(Value());
    }

    /** The edit inside RemoveExposedPorts. */
    method Release(service: string) returns (outcome: Outcome)
      modifies this
      ensures outcome == PolicyLedger.Release(old(Value()), service)
      ensures Value() == if outcome.Write? then outcome.result else old(Value())
    {
      var key := AnnotationKey(service);
      if key !in annotations {
        return Done;
      }
      if annotations[key].Unreadable? {
        return Error;
      }
      ports := DeleteIngressPorts(ports, annotations[key].ports);
      annotations := annotations - {key};
      outcome := Write(Value());
    }
  }

  /** The operation took effect as one atomic step on some state the slot had since `from`:
      either as the last thing that happened, or as a look at a state that needed no write. */
  ghost predicate TookEffect(op: Op, service: string, cidr: string, history: seq<Option<Policy>>, from: nat, wrote: bool) {
    if wrote then
      && |history| >= 2 && |history| > from
      && (Perform(op, service, history[|history| - 2], cidr).Write? || Perform(op, service, history[|history| - 2], cidr).Delete?)
      && history[|history| - 1] == After(op, service, history[|history| - 2], cidr)
    else
      exists k :: 0 <= k < |history| && from <= k + 1 && Perform(op, service, history[k], cidr).Done?
  }

  lemma WriteTakesEffect(op: Op, service: string, cidr: string, history: seq<Option<Policy>>, from: nat, seen: Option<Policy>, q: Policy)
    requires |history| >= 2 && |history| > from
    requires history[|history| - 2] == seen && history[|history| - 1] == Some(q)
    requires Perform(op, service, seen, cidr) == Write(q)
    ensures TookEffect(op, service, cidr, history, from, true)
  {
  }

  lemma LookTakesEffect(op: Op, service: string, cidr: string, history: seq<Option<Policy>>, from: nat)
    requires history != [] && from <= |history|
    requires Perform(op, service, history[|history| - 1], cidr).Done?
    ensures TookEffect(op, service, cidr, history, from, false)
  {
  }

  lemma EarlierStart(op: Op, service: string, cidr: string, history: seq<Option<Policy>>, earlier: nat, from: nat, wrote: bool)
    requires earlier <= from && TookEffect(op, service, cidr, history, from, wrote)
    ensures TookEffect(op, service, cidr, history, earlier, wrote)
  {
  }

  // ---------- what explains an error ----------

  /** The slot was empty at some state from index `from` on. */
  ghost predicate EmptySince(history: seq<Option<Policy>>, from: int) {
    exists k :: 0 <= k < |history| && from <= k && history[k].None?
  }

  ghost predicate FilledSince(history: seq<Option<Policy>>, from: int) {
    exists k :: 0 <= k < |history| && from <= k && history[k].Some?
  }

  /** The service's record was unreadable at some state from index `from` on. */
  ghost predicate UnreadableSince(op: Op, service: string, cidr: string, history: seq<Option<Policy>>, from: int) {
    exists k :: 0 <= k < |history| && from <= k && Perform(op, service, history[k], cidr).Error?
  }

  /** A call that began with `from` states explains each error it may return: it gave up only after
      `tries` writes by others, found the slot empty only if it was, and failed on a record only if
      that was unreadable. */
  ghost predicate Explained(r: Status, op: Op, service: string, cidr: string, history: seq<Option<Policy>>, from: nat, tries: nat) {
    match r
    case Ok => true
    case Conflict => |history| >= from + tries
    case NotFound => EmptySince(history, from - 1)
    case BadRecord => UnreadableSince(op, service, cidr, history, from - 1)
    case _ => false
  }

  lemma ExplainedEarlier(r: Status, op: Op, service: string, cidr: string, history: seq<Option<Policy>>, earlier: nat, from: nat)
    requires earlier <= from && r != Conflict && Explained(r, op, service, cidr, history, from, 1)
    ensures Explained(r, op, service, cidr, history, earlier, 1)
  {
    match r
    case NotFound =>
      var k :| 0 <= k < |history| && from - 1 <= k && history[k].None?;
    case BadRecord =>
      var k :| 0 <= k < |history| && from - 1 <= k && Perform(op, service, history[k], cidr).Error?;
    case _ =>
  }

  class NetworkPolicyHandler {
    const server: PolicyServer
    const allowedCIDR: string

    constructor (server: PolicyServer, allowedCIDR: string)
      ensures this.server == server && this.allowedCIDR == allowedCIDR
    {
      this.server, this.allowedCIDR := server, allowedCIDR;
    }

    /** createNetworkPolicy, after the caller saw that there is no policy */
    method CreateNetworkPolicy(service: string, ports: seq<ExposedPort>) returns (r: Status, wrote: bool)
      requires server.Valid() && server.stored.None?
      modifies server
      ensures server.Valid() && old(server.history) <= server.history
      ensures server.ownWrites == old(server.ownWrites) + if wrote then 1 else 0
      ensures r == Ok ==> TookEffect(Upsert(ports), service, allowedCIDR, server.history, |old(server.history)|, wrote)
      ensures r != Ok ==> !wrote
      ensures r == Ok || (r == AlreadyExists && FilledSince(server.history, |old(server.history)|))
    {
      if ports == [] {
        assert Perform(Upsert(ports), service, server.history[|server.history| - 1], allowedCIDR).Done?;
        return Ok, false;
      }
      var converted := ConvertPorts(ports);
      var policy := Policy(converted, map[AnnotationKey(service) := Claims(ports)], allowedCIDR);
      server.Others();
      r := server.Create(policy);
      wrote := r == Ok;
      if !wrote {
        assert server.history[|server.history| - 1].Some?;
      }
    }

    /** One attempt of updateNetworkPolicy */
    method TryUpdate(service: string, want: seq<ExposedPort>) returns (r: Status, wrote: bool)
      requires server.Valid()
      modifies server
      ensures server.Valid() && old(server.history) <= server.history
      ensures server.ownWrites == old(server.ownWrites) + if wrote then 1 else 0
      ensures r == Ok ==> TookEffect(Upsert(want), service, allowedCIDR, server.history, |old(server.history)|, wrote)
      ensures r != Ok ==> !wrote
      ensures Explained(r, Upsert(want), service, allowedCIDR, server.history, |old(server.history)|, 1)
    {
      server.Others();
      if server.stored.None? {
        assert server.history[|server.history| - 1].None?;
        return NotFound, false;
      }
      var version := server.stored.value.version;
      var get := new FetchedPolicy(server.stored.value.policy);
      ghost var seen := PolicyOf(server.stored);
      var outcome := get.Claim(service, want, allowedCIDR);
      if outcome.Done? {
        LookTakesEffect(Upsert(want), service, allowedCIDR, server.history, |old(server.history)|);
        return Ok, false;
      }
      if outcome.Error? {
        assert Perform(Upsert(want), service, server.history[|server.history| - 1], allowedCIDR).Error?;
        return BadRecord, false;
      }
      server.Others();
      r := server.Update(get.Value(), version);
      wrote := r == Ok;
      if r == NotFound {
        assert server.history[|server.history| - 1].None?;
      }
      if wrote {
        WriteTakesEffect(Upsert(want), service, allowedCIDR, server.history, |old(server.history)|, seen, outcome.result);
      }
    }

    /** updateNetworkPolicy: retried on conflict */
    method UpdateNetworkPolicy(service: string, want: seq<ExposedPort>, tries: nat) returns (r: Status, wrote: bool)
      requires server.Valid()
      modifies server
      ensures server.Valid() && old(server.history) <= server.history
      ensures server.ownWrites == old(server.ownWrites) + if wrote then 1 else 0
      ensures r == Ok ==> TookEffect(Upsert(want), service, allowedCIDR, server.history, |old(server.history)|, wrote)
      ensures r != Ok ==> !wrote
      ensures Explained(r, Upsert(want), service, allowedCIDR, server.history, |old(server.history)|, tries)
      ensures (tries > 0 && old(server.stored).Some? && |server.history| == |old(server.history)| + (if wrote then 1 else 0)
        && !Perform(Upsert(want), service, PolicyOf(old(server.stored)), allowedCIDR).Error?)
        ==> r == Ok
    {
      r, wrote := Conflict, false;
      for attempt := 0 to tries
        invariant r == Conflict && !wrote && |server.history| >= |old(server.history)| + attempt
        invariant server.Valid() && old(server.history) <= server.history && server.ownWrites == old(server.ownWrites)
      {
        ghost var from := |server.history|;
        r, wrote := TryUpdate(service, want);
        if r != Conflict {
          ExplainedEarlier(r, Upsert(want), service, allowedCIDR, server.history, |old(server.history)|, from);
          if r == Ok {
            EarlierStart(Upsert(want), service, allowedCIDR, server.history, |old(server.history)|, from, wrote);
          }
          return;
        }
      }
    }

    /** UpsertNetworkPoliciesForService, on the decoded annotation */
    method UpsertForService(service: string, exposed: Option<Record>, servicePorts: seq<PolicyPort>, tries: nat) returns (r: Status, wrote: bool)
      requires server.Valid()
      modifies server
      ensures server.Valid() && old(server.history) <= server.history
      ensures server.ownWrites == old(server.ownWrites) + if wrote then 1 else 0
      ensures r == BadService <==> !WellDeclared(exposed, servicePorts)
      ensures r == Ok ==> TookEffect(Upsert(Declared(exposed)), service, allowedCIDR, server.history, |old(server.history)|, wrote)
      ensures r == Ok ==> forall ports :: exposed == Some(Claims(ports)) ==>
        TookEffect(Upsert(ports), service, allowedCIDR, server.history, |old(server.history)|, wrote)
      ensures r == Ok && exposed.None? ==>
        TookEffect(Upsert([]), service, allowedCIDR, server.history, |old(server.history)|, wrote)
      ensures r != Ok ==> !wrote
      ensures r == AlreadyExists ==> FilledSince(server.history, |old(server.history)|)
      ensures r == NotFound ==> EmptySince(server.history, |old(server.history)|)
      ensures r == Conflict || r == BadRecord ==>
        Explained(r, Upsert(Declared(exposed)), service, allowedCIDR, server.history, |old(server.history)|, tries)
      ensures (tries > 0 && WellDeclared(exposed, servicePorts)
        && |server.history| == |old(server.history)| + (if wrote then 1 else 0)
        && !Perform(Upsert(Declared(exposed)), service, PolicyOf(old(server.stored)), allowedCIDR).Error?)
        ==> r == Ok
    {
      var valid := ParseExposedPorts(exposed, servicePorts);
      if !valid {
        return BadService, false;
      }
      server.Others();
      if server.stored.None? {
        r, wrote := CreateNetworkPolicy(service, Declared(exposed));
      } else {
        r, wrote := UpdateNetworkPolicy(service, Declared(exposed), tries);
      }
    }

    /** One attempt of RemoveExposedPorts */
    method TryRemove(service: string) returns (r: Status, wrote: bool)
      requires server.Valid()
      modifies server
      ensures server.Valid() && old(server.history) <= server.history
      ensures server.ownWrites == old(server.ownWrites) + if wrote then 1 else 0
      ensures r == Ok ==> TookEffect(Remove, service, allowedCIDR, server.history, |old(server.history)|, wrote)
      ensures r != Ok ==> !wrote
      ensures Explained(r, Remove, service, allowedCIDR, server.history, |old(server.history)|, 1)
      ensures r == NotFound ==> EmptySince(server.history, |old(server.history)|)
    {
      server.Others();
      if server.stored.None? {
        LookTakesEffect(Remove, service, allowedCIDR, server.history, |old(server.history)|);
        return Ok, false;
      }
      var version := server.stored.value.version;
      var get := new FetchedPolicy(server.stored.value.policy);
      ghost var seen := PolicyOf(server.stored);
      var outcome := get.Release(service);
      if outcome.Done? {
        LookTakesEffect(Remove, service, allowedCIDR, server.history, |old(server.history)|);
        return Ok, false;
      }
      if outcome.Error? {
        assert Perform(Remove, service, server.history[|server.history| - 1], allowedCIDR).Error?;
        return BadRecord, false;
      }
      server.Others();
      r := server.Update(get.Value(), version);
      wrote := r == Ok;
      if r == NotFound {
        assert server.history[|server.history| - 1].None?;
      }
      if wrote {
        WriteTakesEffect(Remove, service, allowedCIDR, server.history, |old(server.history)|, seen, outcome.result);
      }
    }

    /** RemoveExposedPorts: retried on conflict */
    method RemoveExposedPorts(service: string, tries: nat) returns (r: Status, wrote: bool)
      requires server.Valid()
      modifies server
      ensures server.Valid() && old(server.history) <= server.history
      ensures server.ownWrites == old(server.ownWrites) + if wrote then 1 else 0
      ensures r == Ok ==> TookEffect(Remove, service, allowedCIDR, server.history, |old(server.history)|, wrote)
      ensures r != Ok ==> !wrote
      ensures Explained(r, Remove, service, allowedCIDR, server.history, |old(server.history)|, tries)
      ensures r == NotFound ==> EmptySince(server.history, |old(server.history)|)
      ensures (tries > 0 && |server.history| == |old(server.history)| + (if wrote then 1 else 0)
        && !Perform(Remove, service, PolicyOf(old(server.stored)), allowedCIDR).Error?)
        ==> r == Ok
    {
      r, wrote := Conflict, false;
      for attempt := 0 to tries
        invariant r == Conflict && !wrote && |server.history| >= |old(server.history)| + attempt
        invariant server.Valid() && old(server.history) <= server.history && server.ownWrites == old(server.ownWrites)
      {
        ghost var from := |server.history|;
        r, wrote := TryRemove(service);
        if r != Conflict {
          ExplainedEarlier(r, Remove, service, allowedCIDR, server.history, |old(server.history)|, from);
          if r == Ok {
            EarlierStart(Remove, service, allowedCIDR, server.history, |old(server.history)|, from, wrote);
          }
          return;
        }
      }
    }

    /** RemoveNetworkPolicy */
    method RemoveNetworkPolicy() returns (r: Status, wrote: bool)
      requires server.Valid()
      modifies server
      ensures server.Valid() && old(server.history) <= server.history
      ensures server.ownWrites == old(server.ownWrites) + if wrote then 1 else 0
      ensures r == Ok ==> TookEffect(Drop, "", allowedCIDR, server.history, |old(server.history)|, wrote)
      ensures r != Ok ==> !wrote
      ensures r == Ok || (r == NotFound && EmptySince(server.history, |old(server.history)|))
      ensures server.stored.None?
    {
      server.Others();
      if server.stored.None? {
        assert Perform(Drop, "", server.history[|server.history| - 1], allowedCIDR).Done?;
        return Ok, false;
      }
      server.Others();
      r := server.Delete();
      wrote := r == Ok;
      if !wrote {
        assert server.history[|server.history| - 1].None?;
      }
    }
  }

  /** The port list a service's annotation declares; none without the annotation. */
  function Declared(exposed: Option<Record>): seq<ExposedPort> {
    if exposed.Some? && exposed.value.Claims? then exposed.value.ports else []
  }

  /** The annotation decodes and every port it lists is one of the service's own. */
  ghost predicate WellDeclared(exposed: Option<Record>, servicePorts: seq<PolicyPort>) {
    (exposed.Some? ==> exposed.value.Claims?) && Claimed(Declared(exposed)) <= Opened(servicePorts)
  }

  /** parseExposedPortsFromService; equalsServicePortExposedPort is `SamePort` */
  method ParseExposedPorts(exposed: Option<Record>, servicePorts: seq<PolicyPort>) returns (valid: bool)
    ensures valid <==> WellDeclared(exposed, servicePorts)
    ensures exposed.None? ==> valid
    ensures forall raw :: exposed == Some(Unreadable(raw)) ==> !valid
    ensures forall ports :: exposed == Some(Claims(ports)) ==>
      (valid <==> forall e :: e in ports ==> exists p :: p in servicePorts && SamePort(p, e))
  {
    if exposed.None? {
      return true;
    }
    if exposed.value.Unreadable? {
      return false;
    }
    var ports := exposed.value.ports;
    forall e | e in ports
      ensures ToPolicyPort(e) in Opened(servicePorts) <==> exists p :: p in servicePorts && SamePort(p, e)
    {
      IsOpenIsOpened(servicePorts, e);
    }
    for i := 0 to |ports|
      invariant Claimed(ports[..i]) <= Opened(servicePorts)
    {
      var found := false;
      for j := 0 to |servicePorts|
        invariant !found && forall p :: p in servicePorts[..j] ==> !SamePort(p, ports[i])
      {
        if SamePort(servicePorts[j], ports[i]) {
          found := true;
          break;
        }
      }
      IsOpenIsOpened(servicePorts, ports[i]);
      if !found {
        assert ports[i] in ports;
        return false;
      }
      ClaimedOfSnoc(ports[..i + 1]);
      assert ports[..i + 1][..i] == ports[..i];
    }
    assert ports[..|ports|] == ports;
    valid := true;
  }
}
