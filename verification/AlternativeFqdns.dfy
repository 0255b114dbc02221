/** Alternative FQDNs: from the configuration string to the redirect ingress and to the names
    requested for the self-signed certificate. */
module AlternativeFqdns {
  import opened Strings

  const DEFAULT_SECRET := "ecosystem-certificate"

  datatype AlternativeFqdn = AlternativeFqdn(fqdn: string, secret: string) {
    /** HasCertificate */
    predicate HasCertificate() { secret != "" }
  }

  // ---------- parsing ----------

  function ParseEntry(segment: string): Option<AlternativeFqdn> {
    var parts := Split(segment, ':');
    if |parts| == 2 && parts[0] != "" then Some(AlternativeFqdn(TrimSpace(parts[0]), TrimSpace(parts[1])))
    else if |parts| == 1 && parts[0] != "" then Some(AlternativeFqdn(TrimSpace(parts[0]), ""))
    else None
  }

  function ParseSegments(segments: seq<string>): seq<AlternativeFqdn> {
    if segments == [] then []
    else
      var n := |segments| - 1;
      var last := ParseEntry(segments[n]);
      ParseSegments(segments[..n]) + if last.Some? then [last.value] else []
  }

  function Parsed(config: string): seq<AlternativeFqdn> {
    ParseSegments(Split(config, ','))
  }

  /** ParseAlternativeFQDNsFromConfigString */
  method ParseAlternativeFqdns(config: string) returns (result: seq<AlternativeFqdn>)
    ensures result == Parsed(config)
  {
    result := [];
    var segments := Split(config, ',');
    for i := 0 to |segments|
      invariant result == ParseSegments(segments[..i])
    {
      assert segments[..i + 1][..i] == segments[..i];
      var parts := Split(segments[i], ':');
      if |parts| == 2 && parts[0] != "" {
        result := result + [AlternativeFqdn(TrimSpace(parts[0]), TrimSpace(parts[1]))];
      } else if |parts| == 1 && parts[0] != "" {
        result := result + [AlternativeFqdn(TrimSpace(parts[0]), "")];
      }
    }
    assert segments[..|segments|] == segments;
  }

  /** A segment gives an entry exactly when it holds at most one colon and does not begin with it. */
  lemma AcceptedEntryIff(segment: string)
    ensures ParseEntry(segment).Some? <==> segment != "" && segment[0] != ':' && multiset(segment)[':'] <= 1
  {
    SplitCounts(segment, ':');
  }

  /** An entry gets an empty FQDN exactly when its name part is white space but not empty. */
  lemma EmptyFqdnIff(segment: string)
    requires ParseEntry(segment).Some?
    ensures ParseEntry(segment).value.fqdn == "" <==> AllSpace(Split(segment, ':')[0])
    ensures Split(segment, ':')[0] != ""
  {
    TrimSpaceIsEmpty(Split(segment, ':')[0]);
  }

  // ---------- rendering ----------

  function RenderEntry(e: AlternativeFqdn): string {
    if e.HasCertificate() then e.fqdn + [':'] + e.secret else e.fqdn
  }

  function RenderEntries(list: seq<AlternativeFqdn>): seq<string> {
    seq(|list|, i requires 0 <= i < |list| => RenderEntry(list[i]))
  }

  function Render(list: seq<AlternativeFqdn>): string {
    Join(RenderEntries(list), ',')
  }

  ghost predicate TidyText(s: string) {
    ',' !in s && ':' !in s && TrimSpace(s) == s
  }

  ghost predicate Tidy(e: AlternativeFqdn) {
    TidyText(e.fqdn) && TidyText(e.secret)
  }

  function Named(list: seq<AlternativeFqdn>): seq<AlternativeFqdn> {
    if list == [] then []
    else
      var n := |list| - 1;
      Named(list[..n]) + if list[n].fqdn == "" then [] else [list[n]]
  }

  lemma {:induction false} NamedIsShorter(list: seq<AlternativeFqdn>)
    ensures |Named(list)| <= |list|
    ensures Named(list) == list <==> forall e :: e in list ==> e.fqdn != ""
  {
    if list != [] {
      var n := |list| - 1;
      assert list == list[..n] + [list[n]];
      NamedIsShorter(list[..n]);
    }
  }

  lemma ParseRenderedEntry(e: AlternativeFqdn)
    requires Tidy(e)
    ensures ParseEntry(RenderEntry(e)) == if e.fqdn == "" then None else Some(e)
    ensures ',' !in RenderEntry(e)
  {
    if e.HasCertificate() {
      SplitAfterPiece(e.fqdn, e.secret, ':');
      SplitOfFree(e.secret, ':');
    } else {
      SplitOfFree(e.fqdn, ':');
    }
  }

  lemma {:induction false} ParseRenderedEntries(list: seq<AlternativeFqdn>)
    requires forall e :: e in list ==> Tidy(e)
    ensures ParseSegments(RenderEntries(list)) == Named(list)
    ensures Free(RenderEntries(list), ',')
  {
    if list != [] {
      var n := |list| - 1;
      assert RenderEntries(list)[..n] == RenderEntries(list[..n]);
      ParseRenderedEntries(list[..n]);
      assert list[n] in list;
      ParseRenderedEntry(list[n]);
      assert RenderEntries(list) == RenderEntries(list[..n]) + [RenderEntry(list[n])];
    }
  }

  /** Parsing a rendered list of tidy entries gives back those with a name. */
  lemma ParseOfRender(list: seq<AlternativeFqdn>)
    requires forall e :: e in list ==> Tidy(e)
    ensures Parsed(Render(list)) == Named(list)
  {
    ParseRenderedEntries(list);
    if list == [] {
      assert Split("", ',') == [""];
      SplitOfFree("", ':');
      assert ParseEntry("") == None;
      assert [""][..0] == [];
    } else {
      SplitJoin(RenderEntries(list), ',');
    }
  }

  /** White space around the name and the secret of an entry. */
  datatype Padding = Padding(beforeName: string, afterName: string, beforeSecret: string, afterSecret: string)

  ghost predicate Blank(p: Padding) {
    AllSpace(p.beforeName) && AllSpace(p.afterName) && AllSpace(p.beforeSecret) && AllSpace(p.afterSecret)
  }

  function PaddedEntry(e: AlternativeFqdn, p: Padding): string {
    var name := p.beforeName + e.fqdn + p.afterName;
    if e.HasCertificate() then name + [':'] + (p.beforeSecret + e.secret + p.afterSecret) else name
  }

  function PaddedEntries(list: seq<AlternativeFqdn>, pads: seq<Padding>): seq<string>
    requires |pads| == |list|
  {
    seq(|list|, i requires 0 <= i < |list| => PaddedEntry(list[i], pads[i]))
  }

  lemma PaddedText(l: string, s: string, r: string)
    requires AllSpace(l) && AllSpace(r) && TidyText(s)
    ensures TrimSpace(l + s + r) == s && ',' !in l + s + r && ':' !in l + s + r
  {
    TrimSpaceRemovesPadding(l, s, r);
    assert !IsSpace(',') && !IsSpace(':');
  }

  lemma ParsePaddedEntry(e: AlternativeFqdn, p: Padding)
    requires Tidy(e) && e.fqdn != "" && Blank(p)
    ensures ParseEntry(PaddedEntry(e, p)) == Some(e)
    ensures ',' !in PaddedEntry(e, p)
  {
    var name, secret := p.beforeName + e.fqdn + p.afterName, p.beforeSecret + e.secret + p.afterSecret;
    PaddedText(p.beforeName, e.fqdn, p.afterName);
    PaddedText(p.beforeSecret, e.secret, p.afterSecret);
    assert |name| > 0;
    SplitOfFree(name, ':');
    SplitOfFree(secret, ':');
    SplitAfterPiece(name, secret, ':');
  }

  lemma {:induction false} ParsePaddedEntries(list: seq<AlternativeFqdn>, pads: seq<Padding>)
    requires |pads| == |list| && forall i :: 0 <= i < |list| ==> Tidy(list[i]) && list[i].fqdn != "" && Blank(pads[i])
    ensures ParseSegments(PaddedEntries(list, pads)) == list
    ensures Free(PaddedEntries(list, pads), ',')
  {
    if list != [] {
      var n := |list| - 1;
      var before := PaddedEntries(list[..n], pads[..n]);
      assert PaddedEntries(list, pads) == before + [PaddedEntry(list[n], pads[n])];
      assert PaddedEntries(list, pads)[..n] == before;
      ParsePaddedEntries(list[..n], pads[..n]);
      ParsePaddedEntry(list[n], pads[n]);
    }
  }

  /** White space around names and secrets does not matter: "a.example.com, b.example.com : secret" lists
      the same entries as without it. */
  lemma ParseOfPadded(list: seq<AlternativeFqdn>, pads: seq<Padding>)
    requires |pads| == |list| && forall i :: 0 <= i < |list| ==> Tidy(list[i]) && list[i].fqdn != "" && Blank(pads[i])
    ensures Parsed(Join(PaddedEntries(list, pads), ',')) == list
  {
    if list == [] {
      ParseOfRender(list);
      assert RenderEntries(list) == PaddedEntries(list, pads);
    } else {
      ParsePaddedEntries(list, pads);
      SplitJoin(PaddedEntries(list, pads), ',');
    }
  }

  lemma ParsedEntryIsTidy(segment: string)
    requires ',' !in segment && ParseEntry(segment).Some?
    ensures Tidy(ParseEntry(segment).value)
  {
    var parts := Split(segment, ':');
    SplitPiecesAreFree(segment, ':');
    forall p | p in parts
      ensures TidyText(TrimSpace(p))
    {
      SplitIntroducesNothing(segment, ':', p);
      TrimSpaceIsStable(p);
    }
    assert parts[0] in parts;
    if |parts| == 2 {
      assert parts[1] in parts;
    }
    TrimSpaceIsStable("");
    assert TidyText("");
  }

  lemma {:induction false} SplitIntroducesNothing(s: string, sep: char, p: string)
    requires p in Split(s, sep)
    ensures forall c :: c in p ==> c in s
  {
    if s != [] {
      var rest := Split(s[1..], sep);
      forall q | q in rest
        ensures forall c :: c in q ==> c in s[1..]
      {
        SplitIntroducesNothing(s[1..], sep, q);
      }
      assert s == [s[0]] + s[1..];
      assert p == [] || p in rest || p == [s[0]] + rest[0];
      assert rest[0] in rest;
    }
  }

  lemma {:induction false} ParsedSegmentsAreTidy(segments: seq<string>)
    requires Free(segments, ',')
    ensures forall e :: e in ParseSegments(segments) ==> Tidy(e)
  {
    if segments != [] {
      var n := |segments| - 1;
      ParsedSegmentsAreTidy(segments[..n]);
      assert segments[n] in segments;
      if ParseEntry(segments[n]).Some? {
        ParsedEntryIsTidy(segments[n]);
      }
    }
  }

  /** A segment that gives an entry without a name: at most two parts, the first blank but not empty. */
  ghost predicate BlankName(segment: string) {
    var parts := Split(segment, ':');
    |parts| <= 2 && parts[0] != "" && AllSpace(parts[0])
  }

  lemma {:induction false} NamelessIffBlank(segments: seq<string>)
    ensures (forall e :: e in ParseSegments(segments) ==> e.fqdn != "") <==> (forall s :: s in segments ==> !BlankName(s))
  {
    if segments != [] {
      var n := |segments| - 1;
      var rest, last := segments[..n], ParseEntry(segments[n]);
      assert segments == rest + [segments[n]];
      NamelessIffBlank(rest);
      if last.Some? {
        EmptyFqdnIff(segments[n]);
      }
      assert BlankName(segments[n]) <==> last.Some? && last.value.fqdn == "";
      assert ParseSegments(segments) == ParseSegments(rest) + if last.Some? then [last.value] else [];
    }
  }

  /** Parsing loses nothing but white space: rendering what was parsed and parsing it again gives
      the same list, exactly when no segment of the configured string has a blank name. */
  lemma ParseIsStableIff(config: string)
    ensures Parsed(Render(Parsed(config))) == Parsed(config) <==> forall s :: s in Split(config, ',') ==> !BlankName(s)
  {
    SplitPiecesAreFree(config, ',');
    ParsedSegmentsAreTidy(Split(config, ','));
    ParseOfRender(Parsed(config));
    NamedIsShorter(Parsed(config));
    NamelessIffBlank(Split(config, ','));
  }

  /** One blank parses to an entry with an empty FQDN, which no rendering brings back. */
  lemma BlankIsAnEntry()
    ensures Parsed(" ") == [AlternativeFqdn("", "")] && Parsed(Render(Parsed(" "))) == []
  {
    SplitOfFree(" ", ',');
    SplitOfFree(" ", ':');
    TrimSpaceIsEmpty(" ");
    assert [" "][..0] == [] && ParseSegments([]) == [];
    assert ParseEntry(" ") == Some(AlternativeFqdn("", ""));
    var list := Parsed(" ");
    assert list == [AlternativeFqdn("", "")];
    TrimSpaceIsStable("");
    ParseOfRender(list);
    assert list[..0] == [];
  }

  // ---------- default secrets ----------

  function WithDefault(e: AlternativeFqdn): AlternativeFqdn {
    if e.HasCertificate() then e else AlternativeFqdn(e.fqdn, DEFAULT_SECRET)
  }

  function WithDefaults(list: seq<AlternativeFqdn>): seq<AlternativeFqdn> {
    seq(|list|, i requires 0 <= i < |list| => WithDefault(list[i]))
  }

  /** The secret a host is served with. */
  ghost function ServedSecret(e: AlternativeFqdn): string {
    if e.secret == "" then "ecosystem-certificate" else e.secret
  }

  /** assignDefaultCertSecrets */
  method AssignDefaultCertSecrets(list: seq<AlternativeFqdn>) returns (result: seq<AlternativeFqdn>)
    ensures result == WithDefaults(list)
    ensures |result| == |list| && forall i :: 0 <= i < |list| ==>
      result[i].fqdn == list[i].fqdn && result[i].secret == ServedSecret(list[i])
  {
    result := [];
    for i := 0 to |list|
      invariant result == WithDefaults(list[..i])
    {
      if list[i].HasCertificate() {
        result := result + [list[i]];
      } else {
        result := result + [AlternativeFqdn(list[i].fqdn, DEFAULT_SECRET)];
      }
    }
    assert list[..|list|] == list;
  }

  // ---------- grouping ----------

  /** The FQDNs listed for a secret, in order. */
  function HostsOf(list: seq<AlternativeFqdn>, secret: string): seq<string> {
    if list == [] then []
    else
      var n := |list| - 1;
      HostsOf(list[..n], secret) + if list[n].secret == secret then [list[n].fqdn] else []
  }

  ghost predicate GroupedBySecret(list: seq<AlternativeFqdn>, groups: map<string, seq<string>>) {
    && (forall e :: e in list ==> e.secret in groups)
    && (forall s :: s in groups ==> HostsOf(list, s) != [] && groups[s] == HostsOf(list, s))
  }

  /** groupFQDNsBySecretName */
  method GroupFqdnsBySecretName(list: seq<AlternativeFqdn>) returns (groups: map<string, seq<string>>)
    ensures GroupedBySecret(list, groups)
  {
    groups := map[];
    for i := 0 to |list|
      invariant GroupedBySecret(list[..i], groups)
    {
      var e := list[i];
      assert list[..i + 1][..i] == list[..i];
      assert list[..i + 1] == list[..i] + [e];
      if e.secret !in groups {
        NoHostsOf(list[..i], e.secret);
      }
      groups := groups[e.secret := (if e.secret in groups then groups[e.secret] else []) + [e.fqdn]];
    }
    assert list[..|list|] == list;
  }

  lemma {:induction false} NoHostsOf(list: seq<AlternativeFqdn>, secret: string)
    requires forall e :: e in list ==> e.secret != secret
    ensures HostsOf(list, secret) == []
  {
    if list != [] {
      NoHostsOf(list[..|list| - 1], secret);
      assert list[|list| - 1] in list;
    }
  }

  lemma {:induction false} HostsOfMembers(list: seq<AlternativeFqdn>, secret: string, host: string)
    ensures host in HostsOf(list, secret) <==> AlternativeFqdn(host, secret) in list
  {
    if list != [] {
      var n := |list| - 1;
      assert list == list[..n] + [list[n]];
      HostsOfMembers(list[..n], secret, host);
    }
  }

  // ---------- the redirect ingress ----------

  datatype Tls = Tls(hosts: seq<string>, secret: string)
  datatype Rule = Rule(host: string, path: string, serviceName: string, servicePort: Int32)
  datatype Ingress = Ingress(tls: seq<Tls>, rules: seq<Rule>)

  function RuleFor(host: string): Rule {
    Rule(host, "/", "ces-loadbalancer", 443)
  }

  function RulesFor(hosts: seq<string>): seq<Rule> {
    seq(|hosts|, i requires 0 <= i < |hosts| => RuleFor(hosts[i]))
  }

  function AllHosts(tls: seq<Tls>): seq<string> {
    if tls == [] then [] else AllHosts(tls[..|tls| - 1]) + tls[|tls| - 1].hosts
  }

  ghost predicate DistinctSecrets(tls: seq<Tls>) {
    forall i, j :: 0 <= i < j < |tls| ==> tls[i].secret != tls[j].secret
  }

  /** A TLS entry for each group and a rule for each of their hosts, in the order of the entries. */
  ghost predicate Redirects(groups: map<string, seq<string>>, ingress: Ingress) {
    && DistinctSecrets(ingress.tls)
    && (forall t :: t in ingress.tls ==> t.secret in groups && t.hosts == groups[t.secret])
    && (forall s :: s in groups ==> Tls(groups[s], s) in ingress.tls)
    && ingress.rules == RulesFor(AllHosts(ingress.tls))
  }

  /** The whole host is sent to the load balancer's https port. */
  ghost predicate ToLoadBalancer(r: Rule) {
    r.path == "/" && r.serviceName == "ces-loadbalancer" && r.servicePort == 443
  }

  /** createIngressRules */
  method CreateIngressRules(hosts: seq<string>) returns (rules: seq<Rule>)
    ensures rules == RulesFor(hosts)
    ensures |rules| == |hosts| && forall i :: 0 <= i < |hosts| ==> rules[i].host == hosts[i] && ToLoadBalancer(rules[i])
  {
    rules := [];
    for i := 0 to |hosts|
      invariant rules == RulesFor(hosts[..i])
    {
      rules := rules + [RuleFor(hosts[i])];
    }
    assert hosts[..|hosts|] == hosts;
  }

  lemma AddTls(tls: seq<Tls>, entry: Tls)
    requires DistinctSecrets(tls) && forall t :: t in tls ==> t.secret != entry.secret
    ensures DistinctSecrets(tls + [entry]) && AllHosts(tls + [entry]) == AllHosts(tls) + entry.hosts
  {
    assert (tls + [entry])[..|tls|] == tls;
    assert forall i :: 0 <= i < |tls| ==> tls[i] in tls;
  }

  /** createRedirectIngress; the range over the map takes the secrets in any order */
  method CreateRedirectIngress(groups: map<string, seq<string>>) returns (ingress: Ingress)
    ensures Redirects(groups, ingress)
  {
    var fqdns: seq<string> := [];
    var tls: seq<Tls> := [];
    var rest := groups.Keys;
    while rest != {}
      invariant rest <= groups.Keys
      invariant DistinctSecrets(tls) && fqdns == AllHosts(tls)
      invariant forall t :: t in tls ==> t.secret in groups.Keys - rest && t.hosts == groups[t.secret]
      invariant forall s :: s in groups.Keys - rest ==> Tls(groups[s], s) in tls
    {
      var secret :| secret in rest;
      var entry := Tls(groups[secret], secret);
      AddTls(tls, entry);
      fqdns := fqdns + groups[secret];
      tls := tls + [entry];
      rest := rest - {secret};
    }
    var rules := CreateIngressRules(fqdns);
    ingress := Ingress(tls, rules);
  }

  /** The server's slot for the redirect ingress; `foreign` counts the writes of others. */
  class IngressStore {
    var stored: Option<Ingress>
    ghost var foreign: nat

    constructor (initial: Option<Ingress>)
      ensures stored == initial && foreign == 0
    {
      stored, foreign := initial, 0;
    }

    /** Any number of writes by others. */
    method Others()
      modifies this
      ensures foreign >= old(foreign) && (foreign == old(foreign) ==> stored == old(stored))
    {
      var n :| 0 <= n;
      for i := 0 to n
        invariant foreign == old(foreign) + i && (foreign == old(foreign) ==> stored == old(stored))
      {
        stored := *;
        foreign := foreign + 1;
      }
    }

    /** upsertIngress: create, else update without a version */
    method Upsert(ingress: Ingress) returns (ok: bool)
      modifies this
      ensures ok ==> stored == Some(ingress)
      ensures foreign >= old(foreign) && (!ok ==> foreign > old(foreign))
    {
      Others();
      if stored.None? {
        stored := Some(ingress);
        return true;
      }
      Others();
      if stored.None? {
        return false;
      }
      stored := Some(ingress);
      ok := true;
    }
  }

  /** RedirectAlternativeFQDN: an empty list deletes the ingress, any other stores one that redirects
      exactly the parsed FQDNs.  It fails only if others deleted the ingress between create and update. */
  method RedirectAlternativeFqdn(store: IngressStore, config: string) returns (ok: bool)
    modifies store
    ensures ok && Parsed(config) == [] ==> store.stored.None?
    ensures ok && Parsed(config) != [] ==> store.stored.Some? && RedirectsExactly(config, store.stored.value)
    ensures !ok ==> Parsed(config) != [] && store.foreign > old(store.foreign)
  {
    var parsed := ParseAlternativeFqdns(config);
    var list := AssignDefaultCertSecrets(parsed);
    if list == [] {
      store.Others();
      store.stored := None;
      return true;
    }
    var groups := GroupFqdnsBySecretName(list);
    var created := CreateRedirectIngress(groups);
    RedirectsAreExact(config, groups, created);
    ok := store.Upsert(created);
  }

  function Fqdns(list: seq<AlternativeFqdn>): seq<string> {
    seq(|list|, i requires 0 <= i < |list| => list[i].fqdn)
  }

  function RuleHosts(rules: seq<Rule>): seq<string> {
    seq(|rules|, i requires 0 <= i < |rules| => rules[i].host)
  }

  /** One rule to the load balancer per parsed FQDN, rule hosts the concatenated TLS hosts, TLS secrets distinct, and each
      host exactly under the secrets its entries name, the default one where they name none. */
  ghost predicate RedirectsExactly(config: string, ingress: Ingress) {
    var list := Parsed(config);
    && |ingress.rules| == |list|
    && (forall r :: r in ingress.rules ==> ToLoadBalancer(r))
    && RuleHosts(ingress.rules) == AllHosts(ingress.tls)
    && multiset(RuleHosts(ingress.rules)) == multiset(Fqdns(list))
    && DistinctSecrets(ingress.tls)
    && (forall t, host :: t in ingress.tls && host in t.hosts ==>
          exists e :: e in list && e.fqdn == host && ServedSecret(e) == t.secret)
    && (forall e :: e in list ==>
          exists t :: t in ingress.tls && t.secret == ServedSecret(e) && e.fqdn in t.hosts)
  }

  /** The hosts of a list, secret by secret. */
  function HostsUnder(list: seq<AlternativeFqdn>, secrets: seq<string>): seq<string> {
    if secrets == [] then []
    else
      var n := |secrets| - 1;
      HostsUnder(list, secrets[..n]) + HostsOf(list, secrets[n])
  }

  ghost predicate DistinctStrings(s: seq<string>) {
    forall i, j :: 0 <= i < j < |s| ==> s[i] != s[j]
  }

  lemma HostsOfSnoc(list: seq<AlternativeFqdn>, e: AlternativeFqdn, secret: string)
    ensures HostsOf(list + [e], secret) == HostsOf(list, secret) + if e.secret == secret then [e.fqdn] else []
  {
    assert (list + [e])[..|list|] == list;
  }

  lemma {:induction false} HostsUnderSnoc(list: seq<AlternativeFqdn>, e: AlternativeFqdn, secrets: seq<string>)
    requires DistinctStrings(secrets)
    ensures multiset(HostsUnder(list + [e], secrets)) ==
            multiset(HostsUnder(list, secrets)) + if e.secret in secrets then multiset{e.fqdn} else multiset{}
  {
    if secrets != [] {
      var n := |secrets| - 1;
      assert secrets == secrets[..n] + [secrets[n]];
      assert secrets[n] !in secrets[..n];
      HostsUnderSnoc(list, e, secrets[..n]);
      HostsOfSnoc(list, e, secrets[n]);
    }
  }

  lemma {:induction false} HostsUnderNothing(secrets: seq<string>)
    ensures HostsUnder([], secrets) == []
  {
    if secrets != [] {
      HostsUnderNothing(secrets[..|secrets| - 1]);
    }
  }

  /** Distinct secrets that cover a list hold each of its FQDNs as often as it is listed. */
  lemma {:induction false} HostsUnderCover(list: seq<AlternativeFqdn>, secrets: seq<string>)
    requires DistinctStrings(secrets) && forall e :: e in list ==> e.secret in secrets
    ensures multiset(HostsUnder(list, secrets)) == multiset(Fqdns(list))
  {
    if list == [] {
      HostsUnderNothing(secrets);
    } else {
      var n := |list| - 1;
      assert list == list[..n] + [list[n]];
      assert list[n] in list;
      HostsUnderCover(list[..n], secrets);
      HostsUnderSnoc(list[..n], list[n], secrets);
      assert Fqdns(list) == Fqdns(list[..n]) + [list[n].fqdn];
    }
  }

  function Secrets(tls: seq<Tls>): seq<string> {
    seq(|tls|, i requires 0 <= i < |tls| => tls[i].secret)
  }

  lemma {:induction false} AllHostsAreUnder(list: seq<AlternativeFqdn>, tls: seq<Tls>)
    requires forall t :: t in tls ==> t.hosts == HostsOf(list, t.secret)
    ensures AllHosts(tls) == HostsUnder(list, Secrets(tls))
  {
    if tls != [] {
      var n := |tls| - 1;
      assert Secrets(tls)[..n] == Secrets(tls[..n]);
      assert tls[n] in tls;
      AllHostsAreUnder(list, tls[..n]);
    }
  }

  lemma RedirectedHosts(full: seq<AlternativeFqdn>, groups: map<string, seq<string>>, ingress: Ingress)
    requires GroupedBySecret(full, groups) && Redirects(groups, ingress)
    ensures multiset(AllHosts(ingress.tls)) == multiset(Fqdns(full))
  {
    var secrets := Secrets(ingress.tls);
    AllHostsAreUnder(full, ingress.tls);
    forall e | e in full
      ensures e.secret in secrets
    {
      var t := Tls(groups[e.secret], e.secret);
      assert t in ingress.tls;
      var i :| 0 <= i < |ingress.tls| && ingress.tls[i] == t;
      assert secrets[i] == e.secret;
    }
    HostsUnderCover(full, secrets);
  }

  lemma RedirectedRules(list: seq<AlternativeFqdn>, groups: map<string, seq<string>>, ingress: Ingress)
    requires GroupedBySecret(WithDefaults(list), groups) && Redirects(groups, ingress)
    ensures |ingress.rules| == |list| && RuleHosts(ingress.rules) == AllHosts(ingress.tls)
    ensures multiset(RuleHosts(ingress.rules)) == multiset(Fqdns(list))
    ensures forall r :: r in ingress.rules ==> ToLoadBalancer(r)
  {
    var hosts := AllHosts(ingress.tls);
    assert Fqdns(WithDefaults(list)) == Fqdns(list);
    RedirectedHosts(WithDefaults(list), groups, ingress);
    assert RuleHosts(ingress.rules) == hosts;
    assert |hosts| == |multiset(hosts)| == |multiset(Fqdns(list))| == |list|;
  }

  lemma HostHasEntry(list: seq<AlternativeFqdn>, groups: map<string, seq<string>>, ingress: Ingress, t: Tls, host: string)
    requires GroupedBySecret(WithDefaults(list), groups) && Redirects(groups, ingress)
    requires t in ingress.tls && host in t.hosts
    ensures exists e :: e in list && e.fqdn == host && ServedSecret(e) == t.secret
  {
    var full := WithDefaults(list);
    HostsOfMembers(full, t.secret, host);
    var i :| 0 <= i < |full| && full[i] == AlternativeFqdn(host, t.secret);
    assert list[i] in list && WithDefault(list[i]) == full[i];
  }

  lemma EntryHasHost(list: seq<AlternativeFqdn>, groups: map<string, seq<string>>, ingress: Ingress, e: AlternativeFqdn)
    requires GroupedBySecret(WithDefaults(list), groups) && Redirects(groups, ingress)
    requires e in list
    ensures exists t :: t in ingress.tls && t.secret == ServedSecret(e) && e.fqdn in t.hosts
  {
    var full := WithDefaults(list);
    var i :| 0 <= i < |list| && list[i] == e;
    assert full[i] in full;
    var secret := full[i].secret;
    HostsOfMembers(full, secret, e.fqdn);
    assert Tls(groups[secret], secret) in ingress.tls;
  }

  /** Whatever order the groups are ranged over in, the ingress redirects exactly the parsed FQDNs. */
  lemma RedirectsAreExact(config: string, groups: map<string, seq<string>>, ingress: Ingress)
    requires GroupedBySecret(WithDefaults(Parsed(config)), groups) && Redirects(groups, ingress)
    ensures RedirectsExactly(config, ingress)
  {
    var list := Parsed(config);
    RedirectedRules(list, groups, ingress);
    forall t, host | t in ingress.tls && host in t.hosts
      ensures exists e :: e in list && e.fqdn == host && ServedSecret(e) == t.secret
    {
      HostHasEntry(list, groups, ingress, t, host);
    }
    forall e | e in list
      ensures exists t :: t in ingress.tls && t.secret == ServedSecret(e) && e.fqdn in t.hosts
    {
      EntryHasHost(list, groups, ingress, e);
    }
  }

  // ---------- names for the certificate ----------

  function Uncertified(list: seq<AlternativeFqdn>): seq<string> {
    HostsOf(list, "")
  }

  /** getAlternativeFQDNs on the configured string */
  method GetAlternativeFqdns(config: Option<string>) returns (names: seq<string>)
    ensures names == if config.None? then [] else Uncertified(Parsed(config.value))
  {
    if config.None? {
      return [];
    }
    var list := ParseAlternativeFqdns(config.value);
    names := [];
    for i := 0 to |list|
      invariant names == Uncertified(list[..i])
    {
      assert list[..i + 1][..i] == list[..i];
      if !list[i].HasCertificate() {
        names := names + [list[i].fqdn];
      }
    }
    assert list[..|list|] == list;
  }

  ghost predicate NamesDefault(list: seq<AlternativeFqdn>) {
    exists e :: e in list && e.secret == DEFAULT_SECRET
  }

  lemma {:induction false} DefaultHosts(list: seq<AlternativeFqdn>)
    ensures |Uncertified(list)| <= |HostsOf(WithDefaults(list), DEFAULT_SECRET)|
    ensures !NamesDefault(list) ==> HostsOf(WithDefaults(list), DEFAULT_SECRET) == Uncertified(list)
    ensures NamesDefault(list) ==> |Uncertified(list)| < |HostsOf(WithDefaults(list), DEFAULT_SECRET)|
  {
    if list != [] {
      var n := |list| - 1;
      assert list == list[..n] + [list[n]];
      assert WithDefaults(list)[..n] == WithDefaults(list[..n]);
      assert |DEFAULT_SECRET| > 0;
      DefaultHosts(list[..n]);
      if NamesDefault(list[..n]) {
        var e :| e in list[..n] && e.secret == DEFAULT_SECRET;
        assert e in list;
      }
      if list[n].secret == DEFAULT_SECRET {
        assert list[n] in list;
      }
    }
  }

  /** A segment that names the default secret itself. */
  ghost predicate ExplicitDefault(segment: string) {
    var parts := Split(segment, ':');
    |parts| == 2 && parts[0] != "" && TrimSpace(parts[1]) == DEFAULT_SECRET
  }

  lemma {:induction false} NamesDefaultIff(segments: seq<string>)
    ensures NamesDefault(ParseSegments(segments)) <==> exists s :: s in segments && ExplicitDefault(s)
  {
    if segments != [] {
      var n := |segments| - 1;
      var rest, last := segments[..n], ParseEntry(segments[n]);
      assert segments == rest + [segments[n]];
      NamesDefaultIff(rest);
      assert |DEFAULT_SECRET| > 0;
      assert ExplicitDefault(segments[n]) <==> last.Some? && last.value.secret == DEFAULT_SECRET;
      assert ParseSegments(segments) == ParseSegments(rest) + if last.Some? then [last.value] else [];
      NamesDefaultSnoc(ParseSegments(rest), last);
      if ExplicitDefault(segments[n]) {
        assert segments[n] in segments;
      }
    }
  }

  lemma NamesDefaultSnoc(list: seq<AlternativeFqdn>, last: Option<AlternativeFqdn>)
    ensures NamesDefault(list + if last.Some? then [last.value] else []) <==>
            NamesDefault(list) || (last.Some? && last.value.secret == DEFAULT_SECRET)
  {
    var all := list + if last.Some? then [last.value] else [];
    if NamesDefault(list) {
      var e :| e in list && e.secret == DEFAULT_SECRET;
      assert e in all;
    }
    if last.Some? {
      assert all[|list|] == last.value;
    }
  }

  /** The names requested for the certificate are the FQDNs given the default secret by fallback; they
      are all hosts served with the default secret exactly when no segment names it itself. */
  lemma RequestedNamesIff(config: string)
    ensures Uncertified(Parsed(config)) == HostsOf(WithDefaults(Parsed(config)), DEFAULT_SECRET) <==>
            forall s :: s in Split(config, ',') ==> !ExplicitDefault(s)
    ensures forall name :: name in Uncertified(Parsed(config)) <==> AlternativeFqdn(name, "") in Parsed(config)
  {
    DefaultHosts(Parsed(config));
    NamesDefaultIff(Split(config, ','));
    forall name
      ensures name in Uncertified(Parsed(config)) <==> AlternativeFqdn(name, "") in Parsed(config)
    {
      HostsOfMembers(Parsed(config), "", name);
    }
  }

  lemma TidyByEnds(s: string)
    requires s != "" && ',' !in s && ':' !in s && !IsSpace(s[0]) && !IsSpace(s[|s| - 1])
    ensures TidyText(s)
  {
  }

  lemma SingletonHosts(e: AlternativeFqdn, secret: string)
    ensures HostsOf([e], secret) == if e.secret == secret then [e.fqdn] else []
  {
    assert [e][..0] == [];
  }

  lemma ParseOneEntry(e: AlternativeFqdn)
    requires Tidy(e) && e.fqdn != ""
    ensures Parsed(RenderEntry(e)) == [e]
  {
    assert RenderEntries([e]) == [RenderEntry(e)];
    ParseOfRender([e]);
    NamedIsShorter([e]);
  }

  /** Any host that names its secret itself is served with it and not requested for the certificate. */
  lemma CertifiedIsNotRequested(e: AlternativeFqdn)
    requires e.HasCertificate()
    ensures HostsOf(WithDefaults([e]), e.secret) == [e.fqdn] && Uncertified([e]) == []
  {
    assert WithDefaults([e]) == [e];
    SingletonHosts(e, e.secret);
    SingletonHosts(e, "");
  }

  lemma DefaultSecretIsTidy()
    ensures DEFAULT_SECRET != "" && TidyText(DEFAULT_SECRET)
  {
    TidyByEnds(DEFAULT_SECRET);
  }

  /** The host "a" of "a:ecosystem-certificate" is served with the default secret and not requested for
      the certificate. */
  lemma ExplicitDefaultIsNotRequested()
    ensures
      var list := Parsed("a" + [':'] + "ecosystem-certificate");
      HostsOf(WithDefaults(list), "ecosystem-certificate") == ["a"] && Uncertified(list) == []
  {
    TidyByEnds("a");
    DefaultSecretIsTidy();
    var e := AlternativeFqdn("a", DEFAULT_SECRET);
    ParseOneEntry(e);
    CertifiedIsNotRequested(e);
  }
}
