/** Toggling the maintenance mode rewrites the selectors of exposed services. */
module Maintenance {
  import opened Strings

  const DOGU_LABEL := "dogu.name"
  const MAINTENANCE_VALUE := "deactivatedDuringMaintenance"
  const NGINX_PREFIX := "nginx-"

  datatype Service = Service(name: string, isClusterIP: bool, labels: map<string, string>, selector: map<string, string>)

  /** Reading a Go map: the empty string for a missing key. */
  function Get(m: map<string, string>, k: string): string {
    if k in m then m[k] else ""
  }

  /** Not empty and not an nginx service: what rewriteNonSimpleServiceRoute is willing to rewrite. */
  predicate Eligible(value: string) {
    value != "" && !(NGINX_PREFIX <= value)
  }

  predicate Rewritable(s: Service) {
    !s.isClusterIP && Eligible(Get(s.selector, DOGU_LABEL))
  }

  function Select(value: string): map<string, string> {
    map[DOGU_LABEL := value]
  }

  /** rewriteNonSimpleServiceRoute with a successful update */
  function Rewritten(s: Service, activate: bool): Service {
    if !Rewritable(s) then s
    else s.(selector := Select(if activate then MAINTENANCE_VALUE else Get(s.labels, DOGU_LABEL)))
  }

  /** The services as stored.  An update may fail for any of them; it is then reported and skipped. */
  class ServiceStore {
    var services: map<string, Service>

    /** rewrite, over the listed services; `failing` are those whose update the server refuses */
    method Rewrite(names: seq<string>, activate: bool, failing: set<string>) returns (failed: set<string>)
      requires forall n :: n in names ==> n in services
      modifies this
      ensures services.Keys == old(services).Keys
      ensures forall n :: n in services ==> services[n] == (if n in names && n !in failing then Rewritten(old(services)[n], activate) else old(services)[n])
      ensures failed == set n | n in names && n in failing && Rewritable(old(services)[n])
    {
      failed := {};
      var done: set<string> := {};
      for i := 0 to |names|
        invariant done == set n | n in names[..i]
        invariant services.Keys == old(services).Keys
        invariant forall n :: n in services ==> services[n] == (if n in done && n !in failing then Rewritten(old(services)[n], activate) else old(services)[n])
        invariant failed == set n | n in done && n in failing && Rewritable(old(services)[n])
      {
        var n := names[i];
        assert names[..i + 1] == names[..i] + [n];
        if Rewritable(services[n]) {
          if n in failing {
            failed := failed + {n};
          } else {
            RewritingTwice(old(services)[n], activate);
            services := services[n := Rewritten(services[n], activate)];
          }
        } else if n !in done && n !in failing {
          assert Rewritten(old(services)[n], activate) == old(services)[n];
        }
        done := done + {n};
      }
      assert names[..|names|] == names;
    }

    /** getAllServices: every service once, in any order */
    method List() returns (names: seq<string>)
      ensures forall n :: n in names <==> n in services
    {
      names := [];
      var rest := services.Keys;
      while rest != {}
        invariant rest <= services.Keys && forall n :: n in names <==> n in services.Keys - rest
      {
        var n :| n in rest;
        names := names + [n];
        rest := rest - {n};
      }
    }

    /** setMaintenanceMode: an error while updating an ingress ends it before any service is rewritten */
    method SetMaintenanceMode(activate: bool, ingressFails: bool, failing: set<string>) returns (ok: bool)
      modifies this
      ensures services.Keys == old(services).Keys
      ensures forall n :: n in services ==> services[n] == (if ingressFails || n in failing then old(services)[n] else Rewritten(old(services)[n], activate))
      ensures ok <==> !ingressFails && forall n :: n in old(services) && n in failing ==> !Rewritable(old(services)[n])
    {
      var names := List();
      if ingressFails {
        return false;
      }
      var failed := Rewrite(names, activate, failing);
      ok := failed == {};
      assert forall n :: n in old(services) && n in failing && Rewritable(old(services)[n]) ==> n in failed;
    }
  }

  /** One call of setMaintenanceMode and what fails during it. */
  datatype Round = Round(activate: bool, ingressFails: bool, failing: set<string>)

  /** The toggles that reach a service: those without an ingress error and without its own update failing. */
  function Reaching(rounds: seq<Round>, name: string): seq<bool> {
    if rounds == [] then []
    else
      var n := |rounds| - 1;
      Reaching(rounds[..n], name) +
      if rounds[n].ingressFails || name in rounds[n].failing then [] else [rounds[n].activate]
  }

  lemma OneMoreRound(s: Service, rounds: seq<Round>, round: Round, name: string)
    ensures
      var before := Toggled(s, Reaching(rounds, name));
      Toggled(s, Reaching(rounds + [round], name)) ==
        if round.ingressFails || name in round.failing then before else Rewritten(before, round.activate)
  {
    var before := Reaching(rounds, name);
    assert (rounds + [round])[..|rounds|] == rounds;
    if round.ingressFails || name in round.failing {
      assert Reaching(rounds + [round], name) == before;
    } else {
      assert Reaching(rounds + [round], name)[..|before|] == before;
    }
  }

  ghost predicate AfterRounds(was: map<string, Service>, rounds: seq<Round>, now: map<string, Service>) {
    now.Keys == was.Keys && forall n :: n in was ==> now[n] == Toggled(was[n], Reaching(rounds, n))
  }

  lemma AfterOneMoreRound(was: map<string, Service>, rounds: seq<Round>, mid: map<string, Service>, round: Round, now: map<string, Service>)
    requires AfterRounds(was, rounds, mid) && now.Keys == mid.Keys
    requires forall n :: n in now ==> now[n] == (if round.ingressFails || n in round.failing then mid[n] else Rewritten(mid[n], round.activate))
    ensures AfterRounds(was, rounds + [round], now)
  {
    forall n | n in was
      ensures now[n] == Toggled(was[n], Reaching(rounds + [round], n))
    {
      OneMoreRound(was[n], rounds, round, n);
    }
  }

  /** Any sequence of maintenance changes: every service ends as the toggles that reached it leave it. */
  method SetMaintenanceModes(store: ServiceStore, rounds: seq<Round>)
    modifies store
    ensures AfterRounds(old(store.services), rounds, store.services)
  {
    for i := 0 to |rounds|
      invariant AfterRounds(old(store.services), rounds[..i], store.services)
    {
      ghost var mid := store.services;
      var ok := store.SetMaintenanceMode(rounds[i].activate, rounds[i].ingressFails, rounds[i].failing);
      AfterOneMoreRound(old(store.services), rounds[..i], mid, rounds[i], store.services);
      assert rounds[..i + 1] == rounds[..i] + [rounds[i]];
    }
    assert rounds[..|rounds|] == rounds;
  }

  lemma RewritingTwice(s: Service, activate: bool)
    ensures Rewritten(Rewritten(s, activate), activate) == Rewritten(s, activate)
  {
  }

  /** The toggles whose update succeeded for the service, one after the other. */
  function Toggled(s: Service, toggles: seq<bool>): Service {
    if toggles == [] then s else Rewritten(Toggled(s, toggles[..|toggles| - 1]), toggles[|toggles| - 1])
  }

  lemma SelectedValue(value: string)
    ensures Get(Select(value), DOGU_LABEL) == value
  {
  }

  lemma MaintenanceValueIsEligible()
    ensures Eligible(MAINTENANCE_VALUE)
  {
    assert MAINTENANCE_VALUE[0] != NGINX_PREFIX[0];
  }

  /** ClusterIP services, services that select no dogu and nginx services are never changed. */
  lemma {:induction false} LeftAlone(s: Service, toggles: seq<bool>)
    requires s.isClusterIP || "dogu.name" !in s.selector || s.selector["dogu.name"] == "" || "nginx-" <= s.selector["dogu.name"]
    ensures Toggled(s, toggles) == s
  {
    if toggles != [] {
      LeftAlone(s, toggles[..|toggles| - 1]);
    }
  }

  /** Every other service is rewritten by the first toggle: to the maintenance value, or to its dogu label. */
  lemma Redirected(s: Service, activate: bool)
    requires !s.isClusterIP && "dogu.name" in s.selector && s.selector["dogu.name"] != "" && !("nginx-" <= s.selector["dogu.name"])
    ensures
      var target := if activate then "deactivatedDuringMaintenance" else if "dogu.name" in s.labels then s.labels["dogu.name"] else "";
      Toggled(s, [activate]) == s.(selector := map["dogu.name" := target])
  {
    assert [activate][..0] == [];
    assert Toggled(s, []) == s;
  }

  /** What a sequence of toggles leaves in the selector.  A service that is not rewritable never
      changes.  Otherwise the last toggle decides, unless the dogu label is itself not eligible: then
      the first deactivation is final. */
  function Decided(s: Service, toggles: seq<bool>): map<string, string> {
    var own := Get(s.labels, DOGU_LABEL);
    if !Rewritable(s) || toggles == [] then s.selector
    else if Eligible(own) then (if toggles[|toggles| - 1] then Select(MAINTENANCE_VALUE) else Select(own))
    else if false in toggles then Select(own) else Select(MAINTENANCE_VALUE)
  }

  /** One more toggle, on a service whose selector is already decided. */
  lemma OneMoreToggle(s: Service, toggles: seq<bool>, activate: bool)
    ensures Rewritten(s.(selector := Decided(s, toggles)), activate) == s.(selector := Decided(s, toggles + [activate]))
  {
    var own := Get(s.labels, DOGU_LABEL);
    MaintenanceValueIsEligible();
    SelectedValue(MAINTENANCE_VALUE);
    SelectedValue(own);
    assert false in toggles + [activate] <==> false in toggles || !activate;
    if toggles == [] {
      assert Decided(s, toggles) == s.selector;
      assert s.(selector := s.selector) == s;
    }
  }

  /** The state of any service after any sequence of toggles. */
  lemma {:induction false} TogglesDecideSelector(s: Service, toggles: seq<bool>)
    ensures Toggled(s, toggles) == s.(selector := Decided(s, toggles))
  {
    if toggles != [] {
      var n := |toggles| - 1;
      TogglesDecideSelector(s, toggles[..n]);
      OneMoreToggle(s, toggles[..n], toggles[n]);
      assert toggles == toggles[..n] + [toggles[n]];
    }
  }

  /** A service comes back from maintenance with its own selector exactly when that selector is its
      dogu label and nothing else, or when it is never rewritten. */
  lemma RestoredIff(s: Service, toggles: seq<bool>)
    requires toggles != [] && !toggles[|toggles| - 1]
    ensures Toggled(s, toggles) == s <==> !Rewritable(s) || s.selector == Select(Get(s.labels, DOGU_LABEL))
  {
    TogglesDecideSelector(s, toggles);
    assert toggles[|toggles| - 1] in toggles;
    assert Toggled(s, toggles) == s <==> Decided(s, toggles) == s.selector;
  }

  /** A non-ClusterIP service selecting exactly its eligible dogu label is in maintenance if the last
      toggle activated it and has its original selector otherwise. */
  lemma LastToggleDecides(s: Service, toggles: seq<bool>)
    requires !s.isClusterIP && Eligible(Get(s.labels, DOGU_LABEL)) && s.selector == Select(Get(s.labels, DOGU_LABEL))
    requires toggles != []
    ensures Toggled(s, toggles).selector == if toggles[|toggles| - 1] then Select(MAINTENANCE_VALUE) else s.selector
  {
    SelectedValue(Get(s.labels, DOGU_LABEL));
    TogglesDecideSelector(s, toggles);
  }

  /** A service without the dogu label is taken down and never comes back. */
  lemma UnlabelledServiceIsLost(toggles: seq<bool>)
    requires false in toggles
    ensures
      var s := Service("app", false, map[], Select("app"));
      Rewritable(s) && Toggled(s, toggles).selector == Select("")
  {
    var s := Service("app", false, map[], Select("app"));
    SelectedValue("app");
    assert "app"[0] != NGINX_PREFIX[0];
    TogglesDecideSelector(s, toggles);
  }
}
