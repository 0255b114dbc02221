/** The port lists of the shared network policy: the loops of networkPolicyHandler.go
    that edit them, and the set algebra those loops amount to. */
module PolicyPorts {
  import opened Strings

  /** A port a service claims, as its annotation lists it. */
  datatype ExposedPort = ExposedPort(protocol: string, port: Int32, targetPort: Int32)

  /** An entry of the policy's ingress rule. */
  datatype PolicyPort = PolicyPort(protocol: string, port: Int32)

  /** getNetworkPolicyPort */
  function ToPolicyPort(e: ExposedPort): PolicyPort {
    PolicyPort(ToUpper(e.protocol), e.port)
  }

  /** equalsNetpolPortExposedPort: protocol up to case and number; the target port is ignored. */
  predicate SamePort(p: PolicyPort, e: ExposedPort) {
    EqualFold(p.protocol, e.protocol) && p.port == e.port
  }

  /** What `SamePort` compares: two entries open the same port iff they normalise alike. */
  function Normal(p: PolicyPort): PolicyPort {
    PolicyPort(ToUpper(p.protocol), p.port)
  }

  lemma SamePortComparesNormalForms(p: PolicyPort, e: ExposedPort)
    ensures SamePort(p, e) <==> Normal(p) == ToPolicyPort(e)
  {
    EqualFoldIsUpperEquality(p.protocol, e.protocol);
  }

  lemma ConvertedPortIsNormal(e: ExposedPort)
    ensures Normal(ToPolicyPort(e)) == ToPolicyPort(e)
  {
    ToUpperIsIdempotent(e.protocol);
  }

  /** The policy entry of a claimed port has its number, and its protocol up to case without a small letter. */
  lemma ConvertedPortFields(e: ExposedPort)
    ensures ToPolicyPort(e).port == e.port && EqualFold(ToPolicyPort(e).protocol, e.protocol)
    ensures forall c :: c in ToPolicyPort(e).protocol ==> !('a' <= c <= 'z')
  {
    ToUpperIsIdempotent(e.protocol);
    EqualFoldIsUpperEquality(ToPolicyPort(e).protocol, e.protocol);
    forall c | c in ToUpper(e.protocol)
      ensures !('a' <= c <= 'z')
    {
      var i :| 0 <= i < |ToUpper(e.protocol)| && ToUpper(e.protocol)[i] == c;
      assert c == UpperChar(e.protocol[i]);
    }
  }

  /** The ports an ingress rule opens. */
  ghost function Opened(ports: seq<PolicyPort>): set<PolicyPort> {
    set p | p in ports :: Normal(p)
  }

  /** The ports a claim list asks for. */
  ghost function Claimed(claims: seq<ExposedPort>): set<PolicyPort> {
    set e | e in claims :: ToPolicyPort(e)
  }

  ghost predicate Distinct(ports: seq<PolicyPort>) {
    forall i, j :: 0 <= i < j < |ports| ==> Normal(ports[i]) != Normal(ports[j])
  }

  ghost predicate DistinctClaims(claims: seq<ExposedPort>) {
    forall i, j :: 0 <= i < j < |claims| ==> ToPolicyPort(claims[i]) != ToPolicyPort(claims[j])
  }

  predicate MatchesSome(p: PolicyPort, claims: seq<ExposedPort>) {
    exists e :: e in claims && SamePort(p, e)
  }

  predicate IsOpen(ports: seq<PolicyPort>, e: ExposedPort) {
    exists p :: p in ports && SamePort(p, e)
  }

  lemma MatchesSomeIsClaimed(p: PolicyPort, claims: seq<ExposedPort>)
    ensures MatchesSome(p, claims) <==> Normal(p) in Claimed(claims)
  {
    forall e | e in claims
      ensures SamePort(p, e) <==> Normal(p) == ToPolicyPort(e)
    {
      SamePortComparesNormalForms(p, e);
    }
  }

  lemma IsOpenIsOpened(ports: seq<PolicyPort>, e: ExposedPort)
    ensures IsOpen(ports, e) <==> ToPolicyPort(e) in Opened(ports)
  {
    forall p | p in ports
      ensures SamePort(p, e) <==> Normal(p) == ToPolicyPort(e)
    {
      SamePortComparesNormalForms(p, e);
    }
  }

  // ---------- what the loops compute ----------

  function Converted(claims: seq<ExposedPort>): seq<PolicyPort> {
    seq(|claims|, i requires 0 <= i < |claims| => ToPolicyPort(claims[i]))
  }

  function Without(ports: seq<PolicyPort>, claims: seq<ExposedPort>): seq<PolicyPort> {
    if ports == [] then []
    else
      var n := |ports| - 1;
      Without(ports[..n], claims) + if MatchesSome(ports[n], claims) then [] else [ports[n]]
  }

  function With(ports: seq<PolicyPort>, claims: seq<ExposedPort>): seq<PolicyPort> {
    if claims == [] then ports
    else
      var n := |claims| - 1;
      var r := With(ports, claims[..n]);
      if IsOpen(r, claims[n]) then r else r + [ToPolicyPort(claims[n])]
  }

  function Difference(s: seq<ExposedPort>, t: seq<ExposedPort>): seq<ExposedPort> {
    if s == [] then []
    else
      var n := |s| - 1;
      Difference(s[..n], t) + if s[n] in t then [] else [s[n]]
  }

  // ---------- the loops ----------

  /** getNetworkPolicyPortsFromExposedPorts */
  method ConvertPorts(claims: seq<ExposedPort>) returns (result: seq<PolicyPort>)
    ensures result == Converted(claims)
    ensures |result| == |claims| && forall i :: 0 <= i < |claims| ==>
      result[i].port == claims[i].port && EqualFold(result[i].protocol, claims[i].protocol)
  {
    result := [];
    for i := 0 to |claims|
      invariant result == Converted(claims[..i])
    {
      result := result + [ToPolicyPort(claims[i])];
    }
    assert claims[..|claims|] == claims;
    forall i | 0 <= i < |claims|
      ensures result[i].port == claims[i].port && EqualFold(result[i].protocol, claims[i].protocol)
    {
      ConvertedPortFields(claims[i]);
    }
  }

  /** addIngressPorts */
  method AddIngressPorts(ports: seq<PolicyPort>, portsToAdd: seq<ExposedPort>) returns (result: seq<PolicyPort>)
    ensures result == With(ports, portsToAdd)
  {
    result := ports;
    for i := 0 to |portsToAdd|
      invariant result == With(ports, portsToAdd[..i])
    {
      assert portsToAdd[..i + 1][..i] == portsToAdd[..i];
      var found := false;
      for j := 0 to |result|
        invariant !found && forall p :: p in result[..j] ==> !SamePort(p, portsToAdd[i])
      {
        if SamePort(result[j], portsToAdd[i]) {
          found := true;
          break;
        }
      }
      if !found {
        result := result + [ToPolicyPort(portsToAdd[i])];
      }
    }
    assert portsToAdd[..|portsToAdd|] == portsToAdd;
  }

  /** deleteIngressPorts */
  method DeleteIngressPorts(ports: seq<PolicyPort>, portsToDelete: seq<ExposedPort>) returns (result: seq<PolicyPort>)
    ensures result == Without(ports, portsToDelete)
  {
    result := [];
    for i := 0 to |ports|
      invariant result == Without(ports[..i], portsToDelete)
    {
      assert ports[..i + 1][..i] == ports[..i];
      var found := false;
      for j := 0 to |portsToDelete|
        invariant found <==> exists e :: e in portsToDelete[..j] && SamePort(ports[i], e)
      {
        if SamePort(ports[i], portsToDelete[j]) {
          found := true;
        }
      }
      assert portsToDelete[..|portsToDelete|] == portsToDelete;
      if !found {
        result := result + [ports[i]];
      }
    }
    assert ports[..|ports|] == ports;
  }

  /** subtractSlice: full struct equality, target port included */
  method SubtractSlice(s: seq<ExposedPort>, t: seq<ExposedPort>) returns (result: seq<ExposedPort>)
    ensures result == Difference(s, t)
  {
    result := [];
    for i := 0 to |s|
      invariant result == Difference(s[..i], t)
    {
      assert s[..i + 1][..i] == s[..i];
      var found := false;
      for j := 0 to |t|
        invariant found <==> s[i] in t[..j]
      {
        if s[i] == t[j] {
          found := true;
        }
      }
      assert t[..|t|] == t;
      if !found {
        result := result + [s[i]];
      }
    }
    assert s[..|s|] == s;
  }

  // ---------- the algebra ----------

  lemma OpenedOfConverted(claims: seq<ExposedPort>)
    ensures Opened(Converted(claims)) == Claimed(claims)
    ensures AllNormal(Converted(claims))
    ensures DistinctClaims(claims) ==> Distinct(Converted(claims))
  {
    var c := Converted(claims);
    forall i | 0 <= i < |c|
      ensures Normal(c[i]) == c[i] == ToPolicyPort(claims[i])
    {
      ConvertedPortIsNormal(claims[i]);
    }
    forall k | k in Claimed(claims)
      ensures k in Opened(c)
    {
      var i :| 0 <= i < |claims| && ToPolicyPort(claims[i]) == k;
      assert c[i] in c;
    }
  }

  lemma OpenedOfAppend(a: seq<PolicyPort>, b: seq<PolicyPort>)
    ensures Opened(a + b) == Opened(a) + Opened(b)
  {
    assert forall p :: p in a + b <==> p in a || p in b;
  }

  /** Deleting keeps every unmatched entry with its multiplicity and drops every matched one. */
  lemma {:induction false} WithoutFilters(ports: seq<PolicyPort>, claims: seq<ExposedPort>, p: PolicyPort)
    ensures multiset(Without(ports, claims))[p] == if MatchesSome(p, claims) then 0 else multiset(ports)[p]
  {
    if ports != [] {
      var n := |ports| - 1;
      assert ports == ports[..n] + [ports[n]];
      WithoutFilters(ports[..n], claims, p);
    }
  }

  lemma OpenedOfWithout(ports: seq<PolicyPort>, claims: seq<ExposedPort>)
    ensures Opened(Without(ports, claims)) == Opened(ports) - Claimed(claims)
  {
    var r := Without(ports, claims);
    forall p: PolicyPort
      ensures p in r <==> p in ports && Normal(p) !in Claimed(claims)
    {
      WithoutFilters(ports, claims, p);
      MatchesSomeIsClaimed(p, claims);
      assert p in r <==> p in multiset(r);
      assert p in ports <==> p in multiset(ports);
    }
  }

  lemma DistinctSnoc(ports: seq<PolicyPort>, p: PolicyPort)
    requires Distinct(ports) && Normal(p) !in Opened(ports)
    ensures Distinct(ports + [p])
  {
    forall i | 0 <= i < |ports|
      ensures Normal(ports[i]) != Normal(p)
    {
      assert ports[i] in ports;
    }
  }

  lemma {:induction false} WithoutKeepsDistinct(ports: seq<PolicyPort>, claims: seq<ExposedPort>)
    requires Distinct(ports)
    ensures Distinct(Without(ports, claims))
  {
    if ports != [] {
      var n := |ports| - 1;
      WithoutKeepsDistinct(ports[..n], claims);
      OpenedOfWithout(ports[..n], claims);
      if !MatchesSome(ports[n], claims) {
        assert Normal(ports[n]) !in Opened(ports[..n]);
        DistinctSnoc(Without(ports[..n], claims), ports[n]);
      }
    }
  }

  lemma {:induction false} WithoutOfAppend(a: seq<PolicyPort>, b: seq<PolicyPort>, claims: seq<ExposedPort>)
    ensures Without(a + b, claims) == Without(a, claims) + Without(b, claims)
  {
    if b == [] {
      assert a + b == a;
    } else {
      var n := |b| - 1;
      assert (a + b)[..|a + b| - 1] == a + b[..n];
      WithoutOfAppend(a, b[..n], claims);
    }
  }

  /** Deleting changes nothing exactly when no listed port is open. */
  lemma {:induction false} WithoutIsIdentity(ports: seq<PolicyPort>, claims: seq<ExposedPort>)
    ensures Without(ports, claims) == ports <==> Opened(ports) !! Claimed(claims)
  {
    if Without(ports, claims) == ports {
      OpenedOfWithout(ports, claims);
    } else if ports != [] {
      var n := |ports| - 1;
      assert ports == ports[..n] + [ports[n]];
      WithoutIsIdentity(ports[..n], claims);
      MatchesSomeIsClaimed(ports[n], claims);
      OpenedOfAppend(ports[..n], [ports[n]]);
      assert Normal(ports[n]) in Opened(ports);
    }
  }

  lemma {:induction false} WithoutEverything(claims: seq<ExposedPort>, ports: seq<PolicyPort>)
    requires Opened(ports) <= Claimed(claims)
    ensures Without(ports, claims) == []
  {
    if ports != [] {
      var n := |ports| - 1;
      assert ports == ports[..n] + [ports[n]];
      OpenedOfAppend(ports[..n], [ports[n]]);
      assert Normal(ports[n]) in Opened(ports);
      MatchesSomeIsClaimed(ports[n], claims);
      WithoutEverything(claims, ports[..n]);
    }
  }

  /** Adding keeps the list as a prefix and opens what is claimed. */
  lemma {:induction false} OpenedOfWith(ports: seq<PolicyPort>, claims: seq<ExposedPort>)
    ensures ports <= With(ports, claims)
    ensures Opened(With(ports, claims)) == Opened(ports) + Claimed(claims)
  {
    if claims != [] {
      var n := |claims| - 1;
      var r := With(ports, claims[..n]);
      OpenedOfWith(ports, claims[..n]);
      IsOpenIsOpened(r, claims[n]);
      ConvertedPortIsNormal(claims[n]);
      OpenedOfAppend(r, [ToPolicyPort(claims[n])]);
      ClaimedOfSnoc(claims);
    }
  }

  /** More claims only append. */
  lemma {:induction false} WithExtends(ports: seq<PolicyPort>, a: seq<ExposedPort>, b: seq<ExposedPort>)
    ensures With(ports, a) <= With(ports, a + b)
  {
    if b == [] {
      assert a + b == a;
    } else {
      assert (a + b)[..|a + b| - 1] == a + b[..|b| - 1];
      WithExtends(ports, a, b[..|b| - 1]);
    }
  }

  lemma ClaimedOfSnoc(claims: seq<ExposedPort>)
    requires claims != []
    ensures Claimed(claims) == Claimed(claims[..|claims| - 1]) + {ToPolicyPort(claims[|claims| - 1])}
  {
    assert claims == claims[..|claims| - 1] + [claims[|claims| - 1]];
  }

  /** Adding introduces no duplicate, and only normal entries. */
  lemma {:induction false} WithKeepsDistinct(ports: seq<PolicyPort>, claims: seq<ExposedPort>)
    requires Distinct(ports)
    ensures Distinct(With(ports, claims))
  {
    if claims != [] {
      var n := |claims| - 1;
      var r := With(ports, claims[..n]);
      WithKeepsDistinct(ports, claims[..n]);
      if !IsOpen(r, claims[n]) {
        IsOpenIsOpened(r, claims[n]);
        ConvertedPortIsNormal(claims[n]);
        DistinctSnoc(r, ToPolicyPort(claims[n]));
      }
    }
  }

  ghost predicate AllNormal(ports: seq<PolicyPort>) {
    forall p :: p in ports ==> Normal(p) == p
  }

  lemma {:induction false} WithKeepsNormal(ports: seq<PolicyPort>, claims: seq<ExposedPort>)
    requires AllNormal(ports)
    ensures AllNormal(With(ports, claims))
  {
    if claims != [] {
      WithKeepsNormal(ports, claims[..|claims| - 1]);
      ConvertedPortIsNormal(claims[|claims| - 1]);
    }
  }

  /** Adding changes nothing exactly when every claimed port is open already. */
  lemma {:induction false} WithIsIdentity(ports: seq<PolicyPort>, claims: seq<ExposedPort>)
    ensures With(ports, claims) == ports <==> Claimed(claims) <= Opened(ports)
  {
    OpenedOfWith(ports, claims);
    if Claimed(claims) <= Opened(ports) && claims != [] {
      var n := |claims| - 1;
      ClaimedOfSnoc(claims);
      WithIsIdentity(ports, claims[..n]);
      IsOpenIsOpened(ports, claims[n]);
    }
  }

  lemma {:induction false} DifferenceMembers(s: seq<ExposedPort>, t: seq<ExposedPort>, e: ExposedPort)
    ensures multiset(Difference(s, t))[e] == if e in t then 0 else multiset(s)[e]
    ensures e in Difference(s, t) <==> e in s && e !in t
  {
    if s != [] {
      var n := |s| - 1;
      assert s == s[..n] + [s[n]];
      DifferenceMembers(s[..n], t, e);
    }
  }

  lemma {:induction false} DifferenceOfAppend(a: seq<ExposedPort>, b: seq<ExposedPort>, t: seq<ExposedPort>)
    ensures Difference(a + b, t) == Difference(a, t) + Difference(b, t)
  {
    if b == [] {
      assert a + b == a;
    } else {
      assert (a + b)[..|a + b| - 1] == a + b[..|b| - 1];
      DifferenceOfAppend(a, b[..|b| - 1], t);
    }
  }

  lemma DifferenceWithSelf(s: seq<ExposedPort>)
    ensures Difference(s, s) == []
  {
    if Difference(s, s) != [] {
      DifferenceMembers(s, s, Difference(s, s)[0]);
    }
  }

  /** What a claim list loses without its dropped entries is still claimed by the new list. */
  lemma KeptClaims(was: seq<ExposedPort>, want: seq<ExposedPort>)
    ensures Claimed(was) - Claimed(Difference(was, want)) <= Claimed(want)
    ensures Claimed(Difference(was, want)) <= Claimed(was)
  {
    forall e
      ensures e in Difference(was, want) <==> e in was && e !in want
    {
      DifferenceMembers(was, want, e);
    }
  }

  /** The ports of a policy after a recorded service changed its claims from `was` to `want`. */
  function Reclaimed(ports: seq<PolicyPort>, was: seq<ExposedPort>, want: seq<ExposedPort>): seq<PolicyPort> {
    With(Without(ports, Difference(was, want)), want)
  }

  /** The two list edits, under their two notions of equality, are one set expression.
      A service never closes a port outside its old record, everything it wants is open
      afterwards, and everything else open was open before and is not a dropped claim. */
  lemma ReclaimedRefinesSetAlgebra(ports: seq<PolicyPort>, was: seq<ExposedPort>, want: seq<ExposedPort>)
    ensures Opened(Reclaimed(ports, was, want)) == (Opened(ports) - Claimed(Difference(was, want))) + Claimed(want)
    ensures Opened(ports) - Claimed(was) <= Opened(Reclaimed(ports, was, want))
    ensures Claimed(want) <= Opened(Reclaimed(ports, was, want)) <= Opened(ports) + Claimed(want)
    ensures Opened(Reclaimed(ports, was, want)) * (Claimed(Difference(was, want)) - Claimed(want)) == {}
    ensures Distinct(ports) ==> Distinct(Reclaimed(ports, was, want))
  {
    var dropped := Difference(was, want);
    OpenedOfWithout(ports, dropped);
    OpenedOfWith(Without(ports, dropped), want);
    KeptClaims(was, want);
    if Distinct(ports) {
      WithoutKeepsDistinct(ports, dropped);
      WithKeepsDistinct(Without(ports, dropped), want);
    }
  }

  /** A claim that changes only in its target port keeps its port open, though `subtractSlice`
      lists the old entry for deletion. */
  lemma RetargetedPortStaysOpen(ports: seq<PolicyPort>, was: seq<ExposedPort>, want: seq<ExposedPort>, e: ExposedPort, target: Int32)
    requires e in was && e !in want && e.(targetPort := target) in want
    ensures e in Difference(was, want)
    ensures IsOpen(Reclaimed(ports, was, want), e)
  {
    DifferenceMembers(was, want, e);
    ReclaimedRefinesSetAlgebra(ports, was, want);
    assert ToPolicyPort(e) == ToPolicyPort(e.(targetPort := target));
    IsOpenIsOpened(Reclaimed(ports, was, want), e);
  }
}
