/** The shared network policy as a ledger: one flat port list for all services and one
    annotation per service recording what that service claimed.  Each operation is given
    as its effect on a policy nobody else touches meanwhile. */
module PolicyLedger {
  import opened Strings
  import opened PolicyPorts

  /** The decoded value of an annotation; one that is no port list fails to decode. */
  datatype Record = Claims(ports: seq<ExposedPort>) | Unreadable(raw: string)

  datatype Policy = Policy(ports: seq<PolicyPort>, annotations: map<string, Record>, cidr: string)

  const MAPPING_DNS_PREFIX := "k8s.cloudogu.com"
  const MAPPING_NAME_PREFIX := "ces-exposed-ports-"
  const MAX_ANNOTATION_NAME := 63
  const SIGNIFICANT := MAX_ANNOTATION_NAME - |MAPPING_NAME_PREFIX|

  function Truncate(s: string, n: nat): string {
    if |s| > n then s[..n] else s
  }

  /** getServicePortMappingAnnotationKey */
  function AnnotationKey(service: string): string {
    MAPPING_DNS_PREFIX + "/" + Truncate(MAPPING_NAME_PREFIX + service, MAX_ANNOTATION_NAME)
  }

  /** Two services share one record exactly when their first 45 characters agree. */
  lemma AnnotationKeysCollide(a: string, b: string)
    ensures SIGNIFICANT == 45
    ensures AnnotationKey(a) == AnnotationKey(b) <==> Truncate(a, SIGNIFICANT) == Truncate(b, SIGNIFICANT)
  {
    var prefix := MAPPING_DNS_PREFIX + "/" + MAPPING_NAME_PREFIX;
    assert AnnotationKey(a) == prefix + Truncate(a, SIGNIFICANT);
    assert AnnotationKey(b) == prefix + Truncate(b, SIGNIFICANT);
    assert AnnotationKey(a)[|prefix|..] == Truncate(a, SIGNIFICANT);
    assert AnnotationKey(b)[|prefix|..] == Truncate(b, SIGNIFICANT);
  }

  /** The key of a service whose name is not truncated, and the length every key keeps to. */
  lemma AnnotationKeyText(service: string)
    ensures |service| <= 45 ==> AnnotationKey(service) == "k8s.cloudogu.com/ces-exposed-ports-" + service
    ensures |AnnotationKey(service)| <= |"k8s.cloudogu.com/"| + 63
  {
    assert "k8s.cloudogu.com" + "/" + "ces-exposed-ports-" == "k8s.cloudogu.com/ces-exposed-ports-";
    if |service| <= 45 {
      assert Truncate(MAPPING_NAME_PREFIX + service, MAX_ANNOTATION_NAME) == MAPPING_NAME_PREFIX + service;
      assert AnnotationKey(service) == MAPPING_DNS_PREFIX + "/" + MAPPING_NAME_PREFIX + service;
    }
  }

  // ---------- operations ----------

  datatype Op = Upsert(want: seq<ExposedPort>) | Remove | Drop

  /** What an operation does to the stored policy when it runs alone:
      it ends without writing, it writes, or it reports an error. */
  datatype Outcome = Done | Write(result: Policy) | Delete | Error

  /** createNetworkPolicy */
  function Create(service: string, want: seq<ExposedPort>, cidr: string): Outcome {
    if want == [] then Done
    else Write(Policy(Converted(want), map[AnnotationKey(service) := Claims(want)], cidr))
  }

  /** The body of updateNetworkPolicy's retry loop, on the policy it fetched. */
  function Update(p: Policy, service: string, want: seq<ExposedPort>, cidr: string): Outcome {
    var key := AnnotationKey(service);
    if key !in p.annotations then
      if want == [] then Done
      else Write(Policy(p.ports + Converted(want), p.annotations[key := Claims(want)], cidr))
    else
      match p.annotations[key]
      case Unreadable(_) => Error
      case Claims(was) => Write(Policy(Reclaimed(p.ports, was, want), p.annotations[key := Claims(want)], cidr))
  }

  /** The body of RemoveExposedPorts' retry loop; the CIDR stays. */
  function Release(p: Policy, service: string): Outcome {
    var key := AnnotationKey(service);
    if key !in p.annotations then Done
    else
      match p.annotations[key]
      case Unreadable(_) => Error
      case Claims(was) => Write(Policy(Without(p.ports, was), p.annotations - {key}, p.cidr))
  }

  function Perform(op: Op, service: string, stored: Option<Policy>, cidr: string): Outcome {
    match (op, stored)
    case (Upsert(want), None) => Create(service, want, cidr)
    case (Upsert(want), Some(p)) => Update(p, service, want, cidr)
    case (Remove, None) => Done
    case (Remove, Some(p)) => Release(p, service)
    case (Drop, None) => Done
    case (Drop, Some(_)) => Delete
  }

  function After(op: Op, service: string, stored: Option<Policy>, cidr: string): Option<Policy> {
    match Perform(op, service, stored, cidr)
    case Write(p) => Some(p)
    case Delete => None
    case Done => stored
    case Error => stored
  }

  // ---------- what is recorded ----------

  ghost function RecordedFor(p: Policy, key: string): set<PolicyPort> {
    if key in p.annotations && p.annotations[key].Claims? then Claimed(p.annotations[key].ports) else {}
  }

  ghost function Recorded(p: Policy): set<PolicyPort> {
    set k, port | k in p.annotations && port in RecordedFor(p, k) :: port
  }

  /** Ports recorded for some key other than `key`. */
  ghost function RecordedElsewhere(p: Policy, key: string): set<PolicyPort> {
    set k, port | k in p.annotations && k != key && port in RecordedFor(p, k) :: port
  }

  lemma RecordedSplits(p: Policy, key: string)
    ensures Recorded(p) == RecordedElsewhere(p, key) + RecordedFor(p, key)
  {
  }

  lemma ElsewhereIgnoresOwnRecord(p: Policy, q: Policy, key: string)
    requires forall k :: k != key ==> (k in q.annotations <==> k in p.annotations)
    requires forall k :: k != key && k in p.annotations ==> q.annotations[k] == p.annotations[k]
    ensures RecordedElsewhere(q, key) == RecordedElsewhere(p, key)
  {
    assert forall k :: k != key ==> RecordedFor(q, k) == RecordedFor(p, k);
  }

  lemma RecordedAfterClaim(p: Policy, q: Policy, key: string, want: seq<ExposedPort>)
    requires q.annotations == p.annotations[key := Claims(want)]
    ensures Recorded(q) == RecordedElsewhere(p, key) + Claimed(want)
  {
    RecordedSplits(q, key);
    ElsewhereIgnoresOwnRecord(p, q, key);
  }

  lemma RecordedAfterRelease(p: Policy, q: Policy, key: string)
    requires q.annotations == p.annotations - {key}
    ensures Recorded(q) == RecordedElsewhere(p, key)
  {
    RecordedSplits(q, key);
    ElsewhereIgnoresOwnRecord(p, q, key);
  }

  /** Dropping leaves no policy, whatever was stored. */
  lemma DropLeavesNothing(service: string, stored: Option<Policy>, cidr: string)
    ensures After(Drop, service, stored, cidr) == None
  {
  }

  // ---------- what an operation leaves alone ----------

  /** An operation touches its own service's record only, never closes a port that service had not
      recorded, and fails exactly on a record it cannot read; an upsert opens what it wants and sets
      the CIDR, a removal closes all it had recorded and keeps the CIDR. */
  lemma OperationsAreLocal(op: Op, service: string, stored: Option<Policy>, cidr: string)
    ensures
      var key := AnnotationKey(service);
      var before := if stored.Some? then stored.value else Policy([], map[], cidr);
      && (Perform(op, service, stored, cidr).Error? <==>
            !op.Drop? && key in before.annotations && before.annotations[key].Unreadable?)
      && (Perform(op, service, stored, cidr).Write? ==>
            var after := Perform(op, service, stored, cidr).result;
            && after.annotations - {key} == before.annotations - {key}
            && Opened(before.ports) - RecordedFor(before, key) <= Opened(after.ports)
            && (op.Upsert? && key !in before.annotations ==> before.ports <= after.ports)
            && (op.Upsert? ==> RecordedFor(after, key) == Claimed(op.want) <= Opened(after.ports) && after.cidr == cidr)
            && (op.Remove? ==> key !in after.annotations && after.cidr == before.cidr
                               && Opened(after.ports) == Opened(before.ports) - RecordedFor(before, key)))
  {
    var key := AnnotationKey(service);
    match Perform(op, service, stored, cidr)
    case Write(q) =>
      match op {
        case Upsert(want) =>
          OpenedOfConverted(want);
          if stored.Some? {
            OpenedOfAppend(stored.value.ports, Converted(want));
            if key in stored.value.annotations {
              ReclaimedRefinesSetAlgebra(stored.value.ports, stored.value.annotations[key].ports, want);
            }
          }
        case Remove =>
          OpenedOfWithout(stored.value.ports, stored.value.annotations[key].ports);
      }
    case _ =>
  }

  // ---------- no stale port ----------

  /** Every open port is recorded for some service. */
  ghost predicate NoStale(stored: Option<Policy>) {
    stored.Some? ==> Opened(stored.value.ports) <= Recorded(stored.value)
  }

  /** No operation leaves a port open that nobody recorded, however claims overlap or keys collide. */
  lemma NoStaleIsKept(op: Op, service: string, stored: Option<Policy>, cidr: string)
    requires NoStale(stored)
    ensures NoStale(After(op, service, stored, cidr))
  {
    var key := AnnotationKey(service);
    match Perform(op, service, stored, cidr)
    case Write(q) =>
      match op {
        case Upsert(want) =>
          if stored.None? {
            OpenedOfConverted(want);
            assert q.annotations[key] == Claims(want);
            RecordedSplits(q, key);
          } else {
            var p := stored.value;
            RecordedSplits(p, key);
            RecordedAfterClaim(p, q, key, want);
            if key in p.annotations {
              ReclaimedRefinesSetAlgebra(p.ports, p.annotations[key].ports, want);
              KeptClaims(p.annotations[key].ports, want);
            } else {
              OpenedOfConverted(want);
              OpenedOfAppend(p.ports, Converted(want));
            }
          }
        case Remove =>
          var p := stored.value;
          RecordedSplits(p, key);
          RecordedAfterRelease(p, q, key);
          OpenedOfWithout(p.ports, p.annotations[key].ports);
      }
    case _ =>
  }

  // ---------- exactness ----------

  /** The port list is the duplicate-free union of all recorded claims. */
  ghost predicate Exact(stored: Option<Policy>) {
    stored.Some? ==> Distinct(stored.value.ports) && Opened(stored.value.ports) == Recorded(stored.value)
  }

  /** What a caller has to check before an operation so that an exact policy stays exact. */
  ghost predicate KeepsExact(op: Op, service: string, stored: Option<Policy>) {
    var key := AnnotationKey(service);
    match op
    case Drop => true
    case Remove =>
      stored.Some? ==> RecordedElsewhere(stored.value, key) !! RecordedFor(stored.value, key)
    case Upsert(want) =>
      if stored.None? then DistinctClaims(want)
      else
        var p := stored.value;
        if key !in p.annotations then DistinctClaims(want) && Opened(p.ports) !! Claimed(want)
        else p.annotations[key].Claims? ==>
          RecordedElsewhere(p, key) !! Claimed(Difference(p.annotations[key].ports, want)) - Claimed(want)
  }

  lemma DistinctAppend(ports: seq<PolicyPort>, claims: seq<ExposedPort>)
    requires Distinct(ports)
    ensures Distinct(ports + Converted(claims)) <==> DistinctClaims(claims) && Opened(ports) !! Claimed(claims)
  {
    OpenedOfConverted(claims);
    var c := Converted(claims);
    var all := ports + c;
    if Distinct(all) {
      forall i, j | 0 <= i < j < |claims|
        ensures ToPolicyPort(claims[i]) != ToPolicyPort(claims[j])
      {
        assert all[|ports| + i] == c[i] && all[|ports| + j] == c[j];
        ConvertedPortIsNormal(claims[i]);
        ConvertedPortIsNormal(claims[j]);
      }
      forall k | k in Opened(ports)
        ensures k !in Opened(c)
      {
        var i :| 0 <= i < |ports| && Normal(ports[i]) == k;
        forall j | 0 <= j < |c|
          ensures Normal(c[j]) != k
        {
          assert all[i] == ports[i] && all[|ports| + j] == c[j];
        }
      }
    } else if DistinctClaims(claims) && Opened(ports) !! Claimed(claims) {
      forall i, j | 0 <= i < |ports| && 0 <= j < |c|
        ensures Normal(ports[i]) != Normal(c[j])
      {
        assert ports[i] in ports && c[j] in c;
        assert Normal(ports[i]) in Opened(ports) && Normal(c[j]) in Opened(c);
      }
    }
  }

  lemma DistinctConverted(claims: seq<ExposedPort>)
    ensures Distinct(Converted(claims)) <==> DistinctClaims(claims)
  {
    DistinctAppend([], claims);
    assert [] + Converted(claims) == Converted(claims);
  }

  /** From an exact policy an operation leads to an exact policy exactly when `KeepsExact` holds:
      a claim list with a repeated port, a first claim on an open port, or giving up a port
      another service still records each break it, and nothing else does. */
  lemma ExactIsKeptIff(op: Op, service: string, stored: Option<Policy>, cidr: string)
    requires Exact(stored)
    ensures Exact(After(op, service, stored, cidr)) <==> KeepsExact(op, service, stored)
  {
    match op
    case Drop =>
    case Remove => ExactAfterRemove(service, stored, cidr);
    case Upsert(want) =>
      if stored.None? {
        ExactAfterCreate(service, want, cidr);
      } else {
        ExactAfterUpdate(service, want, stored.value, cidr);
      }
  }

  lemma ExactAfterCreate(service: string, want: seq<ExposedPort>, cidr: string)
    ensures Exact(After(Upsert(want), service, None, cidr)) <==> DistinctClaims(want)
  {
    if want != [] {
      var key := AnnotationKey(service);
      var q := After(Upsert(want), service, None, cidr).value;
      DistinctConverted(want);
      OpenedOfConverted(want);
      assert q.annotations == map[][key := Claims(want)];
      RecordedAfterClaim(q.(annotations := map[]), q, key, want);
    }
  }

  lemma ExactAfterUpdate(service: string, want: seq<ExposedPort>, p: Policy, cidr: string)
    requires Exact(Some(p))
    ensures Exact(After(Upsert(want), service, Some(p), cidr)) <==> KeepsExact(Upsert(want), service, Some(p))
  {
    var key := AnnotationKey(service);
    RecordedSplits(p, key);
    if key !in p.annotations {
      if want != [] {
        var q := After(Upsert(want), service, Some(p), cidr).value;
        DistinctAppend(p.ports, want);
        OpenedOfConverted(want);
        OpenedOfAppend(p.ports, Converted(want));
        RecordedAfterClaim(p, q, key, want);
      }
    } else if p.annotations[key].Claims? {
      var was := p.annotations[key].ports;
      var q := After(Upsert(want), service, Some(p), cidr).value;
      ReclaimedRefinesSetAlgebra(p.ports, was, want);
      RecordedAfterClaim(p, q, key, want);
      ReclaimIsUnionIff(RecordedElsewhere(p, key), Claimed(was), Claimed(Difference(was, want)), Claimed(want)) by {
        KeptClaims(was, want);
      }
    }
  }

  lemma ReclaimIsUnionIff<T>(others: set<T>, was: set<T>, dropped: set<T>, want: set<T>)
    requires dropped <= was && was - dropped <= want
    ensures (others + was - dropped) + want == others + want <==> others !! dropped - want
  {
    if (others + was - dropped) + want == others + want {
      assert forall x :: x in others ==> x in (others + was - dropped) + want;
    }
  }

  lemma ExactAfterRemove(service: string, stored: Option<Policy>, cidr: string)
    requires Exact(stored)
    ensures Exact(After(Remove, service, stored, cidr)) <==> KeepsExact(Remove, service, stored)
  {
    if stored.Some? {
      var p := stored.value;
      var key := AnnotationKey(service);
      RecordedSplits(p, key);
      if key in p.annotations && p.annotations[key].Claims? {
        var was := p.annotations[key].ports;
        var q := After(Remove, service, stored, cidr).value;
        OpenedOfWithout(p.ports, was);
        WithoutKeepsDistinct(p.ports, was);
        RecordedAfterRelease(p, q, key);
        if RecordedElsewhere(p, key) + Claimed(was) - Claimed(was) == RecordedElsewhere(p, key) {
          assert RecordedElsewhere(p, key) !! Claimed(was);
        }
      }
    }
  }

  /** Two services claim TCP 22; removing one closes the port the other still records. */
  lemma SharedPortIsClosed()
    ensures
      var ssh := [ExposedPort("tcp", 22, 22)];
      var both := After(Upsert(ssh), "b", After(Upsert(ssh), "a", None, "0.0.0.0/0"), "0.0.0.0/0");
      var left := After(Remove, "b", both, "0.0.0.0/0");
      left.Some? && left.value.ports == [] && ToPolicyPort(ssh[0]) in RecordedFor(left.value, AnnotationKey("a"))
  {
    var cidr := "0.0.0.0/0";
    var ssh := [ExposedPort("tcp", 22, 22)];
    AnnotationKeysCollide("a", "b");
    assert Truncate("a", SIGNIFICANT)[0] != Truncate("b", SIGNIFICANT)[0];
    var one := After(Upsert(ssh), "a", None, cidr).value;
    assert AnnotationKey("b") !in one.annotations;
    var two := After(Upsert(ssh), "b", Some(one), cidr).value;
    OpenedOfConverted(ssh);
    OpenedOfAppend(Converted(ssh), Converted(ssh));
    WithoutEverything(ssh, two.ports);
    assert ssh[0] in ssh;
  }

  // ---------- disjoint ownership ----------

  /** Each port is claimable under one annotation key only. */
  ghost predicate OwnsAll(owner: PolicyPort -> string, key: string, claims: seq<ExposedPort>) {
    forall e :: e in claims ==> owner(ToPolicyPort(e)) == key
  }

  ghost predicate Owned(owner: PolicyPort -> string, stored: Option<Policy>) {
    stored.Some? ==> forall k :: k in stored.value.annotations && stored.value.annotations[k].Claims? ==>
      OwnsAll(owner, k, stored.value.annotations[k].ports)
  }

  ghost predicate Disciplined(owner: PolicyPort -> string, service: string, op: Op) {
    op.Upsert? ==> DistinctClaims(op.want) && OwnsAll(owner, AnnotationKey(service), op.want)
  }

  /** With disjoint, duplicate-free claims every operation keeps the policy exact. */
  lemma DisciplineKeepsExact(owner: PolicyPort -> string, op: Op, service: string, stored: Option<Policy>, cidr: string)
    requires Exact(stored) && Owned(owner, stored) && Disciplined(owner, service, op)
    ensures Exact(After(op, service, stored, cidr)) && Owned(owner, After(op, service, stored, cidr))
  {
    ExactIsKeptIff(op, service, stored, cidr);
    if stored.Some? {
      var p := stored.value;
      var key := AnnotationKey(service);
      forall port | port in RecordedElsewhere(p, key)
        ensures owner(port) != key
      {
      }
      RecordedSplits(p, key);
      if op.Upsert? && key in p.annotations && p.annotations[key].Claims? {
        KeptClaims(p.annotations[key].ports, op.want);
      }
    }
  }

  // ---------- idempotence and undoing ----------

  /** Repeating an upsert changes nothing: not the port sequence, not an annotation, not the CIDR. */
  lemma UpsertIsIdempotent(service: string, want: seq<ExposedPort>, stored: Option<Policy>, cidr: string)
    ensures
      var once := After(Upsert(want), service, stored, cidr);
      After(Upsert(want), service, once, cidr) == once
  {
    var key := AnnotationKey(service);
    var once := After(Upsert(want), service, stored, cidr);
    match Perform(Upsert(want), service, stored, cidr)
    case Write(q) =>
      assert q.annotations[key] == Claims(want);
      OpenedOfConverted(want);
      if stored.Some? {
        var p := stored.value;
        if key in p.annotations {
          ReclaimedRefinesSetAlgebra(p.ports, p.annotations[key].ports, want);
        } else {
          OpenedOfAppend(p.ports, Converted(want));
        }
      }
      ReclaimingTheSame(q.ports, want);
      assert q.annotations[key := Claims(want)] == q.annotations;
    case _ =>
  }

  lemma ReclaimingTheSame(ports: seq<PolicyPort>, want: seq<ExposedPort>)
    requires Claimed(want) <= Opened(ports)
    ensures Reclaimed(ports, want, want) == ports
  {
    DifferenceWithSelf(want);
    WithoutIsIdentity(ports, []);
    WithIsIdentity(ports, want);
  }

  /** Adding a new service to an existing policy and removing it again restores the annotations,
      and restores the port sequence exactly when none of its ports was open before. */
  lemma RemoveUndoesUpsert(service: string, want: seq<ExposedPort>, p: Policy, cidr: string)
    requires AnnotationKey(service) !in p.annotations
    ensures
      var undone := After(Remove, service, After(Upsert(want), service, Some(p), cidr), cidr);
      && undone.Some? && undone.value.annotations == p.annotations
      && (undone.value.ports == p.ports <==> Opened(p.ports) !! Claimed(want))
  {
    if want != [] {
      var key := AnnotationKey(service);
      var q := After(Upsert(want), service, Some(p), cidr).value;
      assert q.annotations - {key} == p.annotations;
      OpenedOfConverted(want);
      WithoutOfAppend(p.ports, Converted(want), want);
      WithoutEverything(want, Converted(want));
      WithoutIsIdentity(p.ports, want);
    }
  }
}
