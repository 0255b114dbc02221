# Verified model of k8s-service-discovery

k8s-service-discovery is a Kubernetes operator. Most of it forwards calls to the API server; this
project models the parts that keep shared state consistent, and proves what they keep:

- **The shared network policy** (`PolicyPorts`, `PolicyLedger`, `PolicyProtocol`, `PolicyHandler`).
  One policy object holds a flat port list for all services and one annotation per service recording
  what that service claimed. `PolicyPorts` has the list loops and the set algebra they amount to,
  across their two notions of equality. `PolicyLedger` gives each operation's effect on a policy and
  says exactly when the list stays the union of the claims. `PolicyProtocol` is the concurrent system:
  any number of workers that probe, create, fetch, edit, update with a version, meet conflicts, lose
  replies, give up and start over. Every run equals its concluded operations
  carried out one at a time; from that follow "no stale port", exactness, confluence and that no run is
  ever stuck. `PolicyHandler` is the handler itself, editing the fetched object inside its retry
  loop while others write.
- **The load balancer** (`ExposedPorts`, `ManagedAnnotations`, `LoadBalancers`, `Routes`, `Reconciler`).
  Ports of the dogu services become the load balancer's ports; annotations from the configuration are
  tracked in a `;`-joined key list; node ports are carried over through a textual index; the filter
  of the default ports works in place on a slice that is used again afterwards for the Traefik routes.
- **Certificate synchronisation** (`CertificateSync`) into the versioned global configuration.
- **Alternative FQDNs** (`AlternativeFqdns`): parser, default secrets, grouping, redirect ingress, and
  the names requested for the self-signed certificate.
- **Maintenance mode** (`Maintenance`): what any sequence of toggles leaves in a service's selector.

`Strings` and `Sorting` hold the Go library operations these rely on.

## Modelling decisions

- The API server is a versioned object store: a read returns object and version, an update is accepted
  only with the current version, and versions never repeat (Kubernetes API Conventions, section
  "Concurrency Control and Consistency").
- JSON and YAML payloads are decoded values; a payload that does not decode is a value of its own
  (`Unreadable`, `Undecodable`), and the error paths for it are part of the model.
- Strings are sequences of characters; upper-casing and case folding act on ASCII letters.
- A range over a Go map takes its keys in any order: the methods choose an arbitrary key each time, so
  their postconditions hold for every order.
- `sort.Slice` is unstable. Callers only know that the result is sorted by name and has the same
  elements (`IsSortOf`); statements about order therefore ask for distinct names.
- An error of an operation in `PolicyProtocol` puts it back to its start, as the controller does when a
  reconcile returns an error. A reply may also get lost after the server has acted on the call.
- Other writers in `PolicyHandler`, `CertificateSync`, `Routes`, `Reconciler` and `AlternativeFqdns` are
  arbitrary: between any two calls they may replace or delete the stored object any number of times.
  Ghost counters of foreign writes say when an error may occur and what holds undisturbed.

## Where the code and its description differ

- Ports claimed by two services are closed when either of them gives the port up
  (`SharedPortIsClosed`); `ExactIsKeptIff` says exactly when the list stays the union of the claims.
- `ApplyConfig` is called idempotent. It is, exactly when no piece of the configuration's key list names
  an unmanaged annotation (`ApplyIsIdempotentIff`). A key holding `;` breaks this
  (`SeparatorReachesUnmanaged`) and its annotation is never removed (`KeyIsForgottenIff`, `SeparatorKeyStays`); for other keys
  the only exception is an annotation with the empty key after an empty configuration
  (`CleanHasNoStrayPieceIff`). The API server admits neither `;` in an annotation key nor the empty key,
  so on what it stores `ReconcileTwice` never reports a change.
- TCP and UDP on one port of one service share one name (`ProtocolsShareAName`), so the order of such
  ports is not determined; `LoadBalancerNamesDistinctIff` says exactly when all names differ.
- An entry made of white space parses to an empty FQDN (`EmptyFqdnIff`, `BlankIsAnEntry`).
- An FQDN that names the default secret itself is served with it but not requested for the certificate
  (`RequestedNamesIff`, `ExplicitDefaultIsNotRequested`).
- A service whose selector is not exactly its dogu label does not get its selector back after
  maintenance (`RestoredIff`, `UnlabelledServiceIsLost`).

## Model

| member | source | states |
|---|---|---|
| PolicyPorts.SamePortComparesNormalForms | controllers/expose/networkPolicyHandler.go:243-254 | a policy port equals a claimed one iff upper-cased protocol and number agree; the target port plays no part |
| PolicyPorts.ConvertPorts | controllers/expose/networkPolicyHandler.go:128-134 | the loop converts each claimed port in order: number kept, protocol in upper case |
| PolicyPorts.ConvertedPortFields | controllers/expose/networkPolicyHandler.go:128-134 | a converted port has the claimed number and the claimed protocol without lower-case letters |
| PolicyPorts.AddIngressPorts | controllers/expose/networkPolicyHandler.go:206-221 | the nested loop computes `With`, whose algebra the next rows give |
| PolicyPorts.OpenedOfWith | controllers/expose/networkPolicyHandler.go:206-221 | adding keeps the list as a prefix and opens exactly the old ports and the claimed ones |
| PolicyPorts.WithKeepsDistinct | controllers/expose/networkPolicyHandler.go:206-221 | adding introduces no duplicate |
| PolicyPorts.WithIsIdentity | controllers/expose/networkPolicyHandler.go:206-221 | adding changes nothing iff everything claimed is open already |
| PolicyPorts.DeleteIngressPorts | controllers/expose/networkPolicyHandler.go:224-240 | the nested loop computes `Without` |
| PolicyPorts.WithoutFilters | controllers/expose/networkPolicyHandler.go:224-240 | every entry keeps its multiplicity unless it matches a listed port, then it is gone |
| PolicyPorts.OpenedOfWithout | controllers/expose/networkPolicyHandler.go:224-240 | the ports left open are the old ones minus the listed ones |
| PolicyPorts.WithoutIsIdentity | controllers/expose/networkPolicyHandler.go:224-240 | the port sequence is unchanged iff no listed port was open |
| PolicyPorts.SubtractSlice | controllers/expose/networkPolicyHandler.go:257-273 | the nested loop computes `Difference` under full struct equality |
| PolicyPorts.DifferenceMembers | controllers/expose/networkPolicyHandler.go:257-273 | members and multiplicities of the difference |
| PolicyPorts.ReclaimedRefinesSetAlgebra | controllers/expose/networkPolicyHandler.go:171-178 | subtract, delete and add together are (open minus dropped claims) plus wanted; no port outside the old record is closed |
| PolicyPorts.RetargetedPortStaysOpen | controllers/expose/networkPolicyHandler.go:176-177 | a claim that changes only its target port is listed for deletion yet stays open |
| PolicyLedger.AnnotationKeysCollide | controllers/expose/networkPolicyHandler.go:293-299 | two services share one record iff their first 45 characters agree |
| PolicyLedger.AnnotationKeyText | controllers/expose/networkPolicyHandler.go:293-299 | the record of a service with at most 45 characters is the annotation "k8s.cloudogu.com/ces-exposed-ports-" and its name; no annotation name is longer than 63 |
| PolicyLedger.OperationsAreLocal | controllers/expose/networkPolicyHandler.go:136-194 | an operation changes only its own record, closes no port the service had not recorded, fails iff its record is unreadable; an upsert sets the CIDR, a removal does not |
| PolicyLedger.DropLeavesNothing | controllers/expose/networkPolicyHandler.go:355-374 | deleting leaves no policy, whatever was stored |
| PolicyLedger.NoStaleIsKept | controllers/expose/networkPolicyHandler.go:136-190 | no operation leaves an unrecorded port open, whatever overlaps or collides |
| PolicyLedger.ExactIsKeptIff | controllers/expose/networkPolicyHandler.go:80-190 | from an exact policy the result is exact iff the claim list repeats no port, a first claim meets no open port, and no port given up is recorded elsewhere |
| PolicyLedger.SharedPortIsClosed | controllers/expose/networkPolicyHandler.go:341-342 | concrete case: removing one of two services with TCP 22 closes the port the other records |
| PolicyLedger.DisciplineKeepsExact | controllers/expose/networkPolicyHandler.go:136-190 | with one owner per port and duplicate-free claims every operation keeps the policy exact |
| PolicyLedger.UpsertIsIdempotent | controllers/expose/networkPolicyHandler.go:136-190 | a repeated upsert leaves port sequence, annotations and CIDR as they are, for every policy or none |
| PolicyLedger.RemoveUndoesUpsert | controllers/expose/networkPolicyHandler.go:316-353 | adding a new service and removing it restores the annotations, and the port sequence iff none of its ports was open |
| PolicyProtocol.StepIsAtomic | controllers/expose/networkPolicyHandler.go:138-183 | a call changes the stored policy only by concluding its operation, by exactly that operation's effect on the policy then stored |
| PolicyProtocol.RunsAreSequential | controllers/expose/networkPolicyHandler.go:49-190 | every run with conflicts, retries, lost replies and restarts equals its concluded operations one at a time |
| PolicyProtocol.NoStaleInAnyRun | controllers/expose/networkPolicyHandler.go:49-190 | from no policy or any without stale ports, at any time in any run every open port is recorded for some service |
| PolicyProtocol.ExactInAnyDisciplinedRun | controllers/expose/networkPolicyHandler.go:136-240 | with one owner per port, from no policy or any exact one, at any time in any run the open ports are the duplicate-free union of the records |
| PolicyProtocol.CallsGetCloser | controllers/expose/networkPolicyHandler.go:136-190 | undisturbed, each call concludes the operation or lowers the number of calls left, which is at most four |
| PolicyProtocol.EveryRunCanFinish | controllers/expose/networkPolicyHandler.go:49-190 | from any stored policy whose workers' own records are readable, every run can be continued until all operations of all workers are concluded |
| PolicyProtocol.FinalRecords | controllers/expose/networkPolicyHandler.go:316-353 | at the end of a run a service's record is what its own history leaves from its record at the start; all other annotations are as at the start |
| PolicyProtocol.FinalHeader | controllers/expose/networkPolicyHandler.go:80-85 | at the end of a run the policy is there with the configured CIDR iff some history wrote; else it and its CIDR are as at the start |
| PolicyProtocol.Confluence | controllers/expose/networkPolicyHandler.go:80-190 | with disjoint claims and no deletion, from no policy or any exact one, any two interleavings of the same histories end with the same annotations, CIDR and ports up to order |
| PolicyHandler.ParseExposedPorts | controllers/expose/networkPolicyHandler.go:376-404 | a service is accepted iff its annotation is absent, or decodes and each port it lists has the number and protocol of one of the service's own; an undecodable annotation is rejected |
| PolicyHandler.FetchedPolicy.Claim | controllers/expose/networkPolicyHandler.go:144-179 | the in-place edit of the fetched policy has the ledger's effect, or leaves it untouched |
| PolicyHandler.FetchedPolicy.Release | controllers/expose/networkPolicyHandler.go:330-342 | the same for a removal |
| PolicyHandler.NetworkPolicyHandler.CreateNetworkPolicy | controllers/expose/networkPolicyHandler.go:80-126 | on success the creation took effect as one atomic step; it fails, without writing, only if someone else created the policy meanwhile |
| PolicyHandler.NetworkPolicyHandler.UpdateNetworkPolicy | controllers/expose/networkPolicyHandler.go:136-190 | on success the retried edit took effect once, on the state immediately before it; it gives up only after as many foreign writes as tries, and reports a missing policy or unreadable record only if there was one; undisturbed on an existing policy with a readable record it succeeds |
| PolicyHandler.NetworkPolicyHandler.UpsertForService | controllers/expose/networkPolicyHandler.go:49-72 | the same for the whole upsert of exactly the ports the annotation lists, none without one; its not-found and already-exists errors need a foreign write; rejected iff the service's annotation is invalid; undisturbed with a readable record it succeeds |
| PolicyHandler.NetworkPolicyHandler.RemoveExposedPorts | controllers/expose/networkPolicyHandler.go:316-353 | the same for the retried removal, whose not-found error needs a foreign deletion |
| PolicyHandler.NetworkPolicyHandler.RemoveNetworkPolicy | controllers/expose/networkPolicyHandler.go:355-374 | the same for deleting the policy, whose only error is a foreign deletion between its two calls; it leaves no policy stored |
| ExposedPorts.WantedKeySeparates | internal/types/exposedPort.go:33-40 | the textual index key agrees iff name, protocol, port and target port agree |
| ExposedPorts.NodeIndexDomain | internal/types/exposedPort.go:87-91 | the index holds exactly the keys of the ports, each with the node port of one of them |
| ExposedPorts.MatchesIff | internal/types/exposedPort.go:33-44 | the textual keys of a service port and a wanted port agree iff name, protocol and number agree and the target port is or spells the same number |
| ExposedPorts.SortByName | internal/types/exposedPort.go:46-50 | sorts in place by name, keeping the elements; nothing else is promised |
| ExposedPorts.SetNodePorts | internal/types/exposedPort.go:86-99 | each port keeps all but its node port, which it takes from a service port of the same name, protocol, number and target port; without one it is unchanged |
| ExposedPorts.SortedServicePorts | internal/types/exposedPort.go:53-63 | sorts its receiver and converts it in that order, field by field |
| ExposedPorts.Equals | internal/types/exposedPort.go:67-72 | never calls different multisets equal, and decides multiset equality when names are distinct |
| ExposedPorts.SortedComparison | internal/types/exposedPort.go:67-72 | the same for any two results an unstable sort may give |
| ExposedPorts.AcceptedPorts | internal/types/service.go:79-126 | a declared port is accepted iff both numbers fit and the protocol is TCP, UDP or SCTP in any case, and is carried over unchanged, named after service and number |
| ExposedPorts.MapPortsPointwise | internal/types/service.go:58-65 | a list is mapped iff each of its ports is, one for one and in order |
| ExposedPorts.DeclaredPorts | internal/types/service.go:58-126 | on the annotation: the list is mapped iff every declared port is valid, and then index by index to its port |
| ExposedPorts.GetExposedPorts | internal/types/service.go:43-70 | on the annotation: absent gives no ports, undecodable fails, otherwise it fails iff a declared port is invalid; else the name-sorted ports, one for each declared one |
| ExposedPorts.GetExposedDoguPorts | controllers/loadbalancerController.go:292-307 | fails iff some service's ports are invalid; else the name-sorted ports of all services |
| ExposedPorts.AllPortsAround | controllers/loadbalancerController.go:292-307 | the ports of a list of services hold every service's ports in one piece, between those of the services before and after it |
| ExposedPorts.DeleteDefaultPorts | controllers/loadbalancerController.go:281-283 | the caller's array is left as the surviving ports in order followed by zero entries |
| ExposedPorts.CreateLoadBalancerPorts | controllers/loadbalancerController.go:279-290 | a new, name-sorted slice of the default and surviving ports; the argument is left compacted |
| ExposedPorts.LoadBalancerPortsConserved | controllers/loadbalancerController.go:279-290 | the load balancer's ports are the multiset of http (TCP 80 to 80), https (TCP 443 to 443) and every dogu port not numbered 80 or 443 |
| ExposedPorts.PortNamesAreInjective | internal/types/service.go:103 | "service-number" determines service and number |
| ExposedPorts.LoadBalancerNamesDistinctIff | internal/types/service.go:43-109 | for distinct service names all port names differ iff no service lists a number other than 80 and 443 twice |
| ExposedPorts.ProtocolsShareAName | internal/types/service.go:103 | TCP and UDP on one number of one service get one name |
| ManagedAnnotations.CreateConfigAnnotations | internal/types/loadbalancer.go:274-288 | the configuration with its values plus its sorted key list, for every map iteration order |
| ManagedAnnotations.KeyListEntry | internal/types/loadbalancer.go:274-288 | the annotation "k8s-service-discovery.cloudogu.com/configManagedKeys" holds the configured keys, ascending, joined by `;` |
| ManagedAnnotations.KeyListIsCanonical | internal/types/loadbalancer.go:278-285 | any enumeration of the keys sorts to the same key list |
| ManagedAnnotations.KeyListRoundTrip | internal/types/loadbalancer.go:274-299 | reading the key list back gives the sorted keys iff no key holds `;`, and one empty key for the empty configuration |
| ManagedAnnotations.AppliedEntry | internal/types/loadbalancer.go:70-85 | every annotation after ApplyConfig: configured ones have the configured value, others the previous key list names are gone, the rest is as before |
| ManagedAnnotations.UnmanagedAfterApply | internal/types/loadbalancer.go:70-85 | a configuration takes from the unmanaged annotations exactly the keys it claims |
| ManagedAnnotations.RunKeepsOnlyTheLastConfig | internal/types/loadbalancer.go:70-85 | after any run of configurations: the unmanaged annotations not claimed earlier, plus the last configuration; all survive iff none was claimed |
| ManagedAnnotations.RunKeepsConfiguredValues | internal/types/loadbalancer.go:70-85 | after any run of configurations each annotation of the last one has its value |
| ManagedAnnotations.ApplyIsIdempotentIff | internal/types/loadbalancer.go:68-85 | applying twice equals applying once iff no piece of the key list names an unmanaged annotation |
| ManagedAnnotations.CleanHasNoStrayPieceIff | internal/types/loadbalancer.go:290-299 | without `;` in keys that can only be the empty key after an empty configuration |
| ManagedAnnotations.KeyIsForgottenIff | internal/types/loadbalancer.go:73-76 | the next configuration deletes a configured annotation iff its key holds no `;` |
| ManagedAnnotations.SeparatorKeyStays | internal/types/loadbalancer.go:73-76 | an annotation whose key holds `;` survives every run of configurations |
| ManagedAnnotations.SeparatorReachesUnmanaged | internal/types/loadbalancer.go:298 | concrete case: repeating a configuration with the key "a;b" deletes the unmanaged annotation "a" |
| ManagedAnnotations.CompareAnnotations | internal/types/loadbalancer.go:137-162 | the comparison decides equality of the managed keys and of their presence and values |
| ManagedAnnotations.EqualAnnotationsIsEquivalence | internal/types/loadbalancer.go:137-162 | reflexive, symmetric and transitive |
| ManagedAnnotations.ComparisonDecidesConfig | internal/types/loadbalancer.go:137-162 | for configurations without `;` in a key, created annotations compare equal iff the configurations are equal |
| ManagedAnnotations.UpdatedEqualsFreshIff | internal/types/loadbalancer.go:137-162 | updated annotations compare equal to freshly created ones iff no piece of the key list names an unmanaged annotation |
| LoadBalancers.ParseConfig | internal/types/loadbalancer.go:36-63 | accepted iff both policies are empty, Cluster or Local; given policies are kept, empty ones become Cluster (internal) and Local (external) |
| LoadBalancers.CreateLoadBalancer | internal/types/loadbalancer.go:240-272 | configured annotation values and policies, and a service port for each wanted port, field by field in the given order |
| LoadBalancers.LoadBalancerObject.ApplyConfig | internal/types/loadbalancer.go:70-85 | annotations with the configured values, both policies, and nothing else |
| LoadBalancers.LoadBalancerObject.UpdateExposedPorts | internal/types/loadbalancer.go:88-91 | node ports carried over, sorted, converted field by field; nothing else changes |
| LoadBalancers.SettledPortsAreStable | internal/types/exposedPort.go:86-99 | with distinct names, updating again with the same ports in any order reproduces the stored ports and node ports |
| LoadBalancers.UpsertIsIdempotent | controllers/loadbalancerController.go:112-148 | from nothing or any load balancer, a second upsert changes nothing, iff no piece of the key list names an unmanaged annotation; policies, ports, node ports and selector never change |
| LoadBalancers.EqualPorts | internal/types/loadbalancer.go:164-177 | true iff both lists have the same index keys |
| LoadBalancers.OrderAndNodePortsAreIgnored | internal/types/loadbalancer.go:164-177 | order and node ports do not affect the comparison |
| LoadBalancers.UpdatedPortsEqualFresh | internal/types/loadbalancer.go:164-177 | any updated load balancer, as stored, has the index keys of a freshly created one |
| LoadBalancers.NodePortsAreStable | internal/types/exposedPort.go:73-99 | over any run of reconciles a port that stays wanted keeps its node port once assigned |
| Routes.RouteStore.Upsert | controllers/expose/ingressController/traefik/portExposer.go:56-102 | with others writing between its calls: it sends the route once, or fails only because of a foreign write; undisturbed it stores the route and no other |
| Routes.ExposePorts | controllers/expose/ingressController/traefik/portExposer.go:29-54 | sends the TCP and UDP routes in order, ignoring other protocols, and stops at the first failure, which needs a foreign write; undisturbed the routes are those of `Written`, which the next rows pin down |
| Routes.RouteFields | controllers/expose/ingressController/traefik/portExposer.go:104-163 | the entry point is "tcp-" or "udp-" and the number, the route leads to the port's service and target port and is named after the port with "-tcp" or "-udp" |
| Routes.SendsMembers | controllers/expose/ingressController/traefik/portExposer.go:29-54 | exactly the routes of ports with protocol TCP (UDP) are sent to the TCP (UDP) store |
| Routes.WrittenReplaysSends | controllers/expose/ingressController/traefik/portExposer.go:29-54 | undisturbed, the stored routes are the sent ones, each put under its name in the order of sending |
| Routes.WrittenRoute | controllers/expose/ingressController/traefik/portExposer.go:29-54 | a stored route is that of the last port writing it, and untouched if none does |
| Routes.WritingIsIdempotent | controllers/expose/ingressController/traefik/portExposer.go:26 | exposing the same ports again changes no route |
| Routes.RouteNamesAreInjective | controllers/expose/ingressController/traefik/portExposer.go:107 | route names agree iff service and number agree |
| Routes.RouteTellsPort | controllers/expose/ingressController/traefik/portExposer.go:104-163 | routes agree iff number, service and target port agree |
| Reconciler.LoadBalancerReconciler.UpsertLoadBalancer | controllers/loadbalancerController.go:112-148 | on success the stored load balancer is the creation or update of the state its write replaced; it fails only on a service of another type or because of a foreign write between its calls |
| Reconciler.LoadBalancerReconciler.Reconcile | controllers/loadbalancerController.go:48-96 | on success the load balancer is upserted and exactly the routes of the surviving ports are sent; invalid configuration or ports change nothing; undisturbed it fails iff one of these or the stored service is invalid |
| Reconciler.ReconciledPolicies | controllers/loadbalancerController.go:136-142 | what a reconcile leaves has the configured traffic policies, and the selector of the load balancer it acted on |
| Reconciler.ReconciledContents | controllers/loadbalancerController.go:112-148 | what a reconcile leaves has the configured annotation values, no others of the previous key list, all other annotations as before, and a service port for each port sent |
| Reconciler.ReconciledRoutes | controllers/loadbalancerController.go:80-89 | a route is written iff a service declares it with a number other than 80 and 443; all others are untouched |
| Reconciler.OwnRoutesIff | controllers/loadbalancerController.go:80-89 | every routed port finds its own route stored iff no service declares one number and protocol for two target ports |
| Reconciler.AcceptsUpdate | controllers/loadbalancerController.go:207-234 | a rejected update with valid ports leaves the service's contribution unchanged; gaining or losing dogu status or the annotation is accepted, an update of what was and is no dogu service or has invalid ports is rejected |
| Reconciler.DesiredIgnoresListingOrder | controllers/loadbalancerController.go:98-110 | the order in which services are listed changes no wanted port, and with distinct names not even their order |
| Reconciler.ReconcileTwice | controllers/loadbalancerController.go:46-47 | a second undisturbed reconcile of the same services, in any order and with node ports assigned in between, changes neither load balancer nor routes iff no piece of the key list names an unmanaged annotation, hence never for keys without `;` in the absence of the empty key |
| CertificateSync.UpdateInGlobalConfig | controllers/ssl/certificateSynchronizer.go:59-81 | success stores the state immediately before with only the certificate set and the key removed; it gives up only after as many foreign writes as tries, so an undisturbed call on a settable configuration succeeds; failure writes nothing |
| CertificateSync.NoEditIsLost | controllers/ssl/certificateSynchronizer.go:59-81 | in every interleaving of versioned writers the configuration is the start with every accepted edit applied in order |
| CertificateSync.UndisturbedEditIsAccepted | controllers/ssl/certificateSynchronizer.go:59-81 | a client that reads and sends undisturbed has its edit accepted, once and on the current state |
| CertificateSync.SyncsAreInvisibleElsewhere | controllers/ssl/certificateSynchronizer.go:66-72 | all other entries are as the other writers alone would have left them |
| CertificateSync.SyncSticks | controllers/ssl/certificateSynchronizer.go:66-72 | after a sync "certificate/server.crt" is the certificate and "certificate/server.key" absent until someone else writes them |
| AlternativeFqdns.ParseAlternativeFqdns | internal/types/alternativeFQDN.go:14-28 | the loop parses segment by segment, as the rows below pin down |
| AlternativeFqdns.AcceptedEntryIff | internal/types/alternativeFQDN.go:17-26 | a segment gives an entry iff it holds at most one colon and does not begin with it |
| AlternativeFqdns.EmptyFqdnIff | internal/types/alternativeFQDN.go:20-23 | an accepted entry has an empty FQDN iff its name part is white space |
| AlternativeFqdns.ParseOfRender | internal/types/alternativeFQDN.go:14-28 | parsing a rendered list of tidy entries gives back those with a name |
| AlternativeFqdns.ParseOfPadded | internal/types/alternativeFQDN.go:14-28 | any white space around names and secrets is dropped: the padded list parses to the same entries |
| AlternativeFqdns.ParseIsStableIff | internal/types/alternativeFQDN.go:14-28 | rendering and parsing again gives the same list iff no segment of the string has a blank, non-empty name part |
| AlternativeFqdns.BlankIsAnEntry | internal/types/alternativeFQDN.go:20-23 | concrete case: one blank parses to an entry with an empty FQDN |
| AlternativeFqdns.AssignDefaultCertSecrets | controllers/redirectController.go:74-89 | entries without secret get "ecosystem-certificate", all others keep theirs, in order |
| AlternativeFqdns.GroupFqdnsBySecretName | controllers/expose/ingressController/traefik/redirector.go:158-166 | one group per listed secret, holding its FQDNs in order |
| AlternativeFqdns.CreateIngressRules | controllers/expose/ingressController/traefik/redirector.go:116-148 | one rule per host, in order, from "/" to ces-loadbalancer:443 |
| AlternativeFqdns.CreateRedirectIngress | controllers/expose/ingressController/traefik/redirector.go:66-96 | for every iteration order: one TLS entry per secret, rules for their hosts in that order |
| AlternativeFqdns.IngressStore.Upsert | controllers/expose/ingressController/traefik/redirector.go:98-114 | stores the ingress, or fails only because of a foreign write |
| AlternativeFqdns.RedirectAlternativeFqdn | controllers/expose/ingressController/traefik/redirector.go:32-64 | with others writing between its calls: an empty list deletes the ingress, any other stores one redirecting exactly the parsed FQDNs; it fails only if others wrote between create and update |
| AlternativeFqdns.RedirectsAreExact | controllers/expose/ingressController/traefik/redirector.go:66-96 | one rule to ces-loadbalancer:443 per parsed FQDN, rule hosts the concatenated TLS hosts, secrets distinct, every host under its own secret or else "ecosystem-certificate", and under no other |
| AlternativeFqdns.GetAlternativeFqdns | controllers/selfsignedCertificateUpdater.go:242-259 | the FQDNs of entries without a secret, in order |
| AlternativeFqdns.RequestedNamesIff | controllers/selfsignedCertificateUpdater.go:242-259 | the requested names are those given the default secret by fallback; they are all hosts under it iff no segment of the string names it itself |
| AlternativeFqdns.ExplicitDefaultIsNotRequested | controllers/selfsignedCertificateUpdater.go:252-256 | concrete case: "a:ecosystem-certificate" is served with the default secret and not requested |
| Maintenance.ServiceStore.Rewrite | controllers/maintenanceModeController.go:155-165 | every listed service is rewritten unless its update fails; exactly the failing rewritable ones are reported |
| Maintenance.ServiceStore.SetMaintenanceMode | controllers/maintenanceModeController.go:106-132 | all services are rewritten, none after an ingress error; succeeds iff nothing failed |
| Maintenance.SetMaintenanceModes | controllers/maintenanceModeController.go:106-132 | after any sequence of maintenance changes with any failures every service is as the toggles that reached it leave it |
| Maintenance.LeftAlone | controllers/maintenanceModeController.go:167-202 | services of type ClusterIP, without a selected dogu, or selecting "nginx-…" are unchanged by any sequence of toggles |
| Maintenance.Redirected | controllers/maintenanceModeController.go:167-202 | every other service is rewritten by one toggle: activation selects only "deactivatedDuringMaintenance", deactivation only its dogu label |
| Maintenance.TogglesDecideSelector | controllers/maintenanceModeController.go:167-198 | the exact state of any service after any sequence of toggles |
| Maintenance.LastToggleDecides | controllers/maintenanceModeController.go:183-189 | a service selecting exactly its eligible dogu label is in maintenance or original by the last toggle |
| Maintenance.RestoredIff | controllers/maintenanceModeController.go:188 | a service is restored iff it is never rewritten or its selector is exactly its dogu label |
| Maintenance.UnlabelledServiceIsLost | controllers/maintenanceModeController.go:172-188 | concrete case: without the label the first deactivation leaves an empty selector value for good |

## Left out

- Manager setup, watches, event recording, logging, environment configuration: wiring without state of its own.
- JSON, YAML, PEM and x509 decoding and the certificate generator: library code; decoded values are inputs.
- Labels, owner references, namespaces and error texts; API errors other than not-found, conflict and already-exists.
- Policies without an ingress rule: the handler indexes the first rule and peer, which every policy it creates has.
- Unicode case mapping beyond ASCII, where `ToUpper` and `EqualFold` can disagree; the API server admits only TCP, UDP and SCTP.
- `LoadBalancer.Equals` as a whole: it compares `InternalTrafficPolicy` as pointers, so two decoded objects never compare equal; its annotation and port comparisons are modelled.
- Back-off delays: `retry.OnConflict` is a number of attempts here, and giving up is an event of the protocol.
- ingressUpdater, middleware manager and the regular expressions handed to Traefik: their meaning depends on Traefik.
- deploymentReadyChecker, deploymentController, serviceController and ecosystemCertificateReconciler: timers and dispatch.
- The rest of selfsignedCertificateUpdater: its watch loop and expiry arithmetic depend on the generator.
- The Traefik middleware created after the redirect ingress, and the maintenance controller's version conflicts beyond "this update fails".
