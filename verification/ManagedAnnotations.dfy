/** The load balancer's annotations: those taken from the configuration are remembered in a
    `;`-joined key list so that the next configuration can replace them. */
module ManagedAnnotations {
  import opened Strings
  import opened Sorting

  type Annotations = map<string, string>

  const MANAGED := "k8s-service-discovery.cloudogu.com/configManagedKeys"
  const SEPARATOR := ';'

  // ---------- maps ----------

  lemma OverrideHides<K, V>(m: map<K, V>, x: K, over: map<K, V>)
    requires x in over
    ensures m + over == (m - {x}) + over
  {
    var l, r := m + over, (m - {x}) + over;
    assert forall k :: k in l <==> k in r;
    assert forall k :: k in l ==> l[k] == r[k];
  }

  lemma RemoveTwice<K, V>(m: map<K, V>, a: set<K>, b: set<K>)
    ensures (m - a) - b == m - (a + b)
  {
    var l, r := (m - a) - b, m - (a + b);
    assert forall k :: k in l <==> k in r;
    assert forall k :: k in l ==> l[k] == r[k];
  }

  lemma RemoveOverride<K, V>(m: map<K, V>, over: map<K, V>, gone: set<K>)
    requires over.Keys <= gone
    ensures (m + over) - gone == m - gone
  {
    var l, r := (m + over) - gone, m - gone;
    assert forall k :: k in l <==> k in r;
    assert forall k :: k in l ==> l[k] == r[k];
  }

  lemma RemoveThenOverride<K, V>(m: map<K, V>, gone: set<K>, over: map<K, V>)
    ensures ((m + over) - gone) + over == (m - gone) + over
  {
    var l, r := ((m + over) - gone) + over, (m - gone) + over;
    assert forall k :: k in l <==> k in r;
    assert forall k :: k in l ==> l[k] == r[k];
  }

  /** Removing keys before an override shows exactly in the keys the override leaves alone. */
  lemma RemovedUnderOverride<K, V>(base: map<K, V>, gone: set<K>, over: map<K, V>)
    ensures (base - gone) + over == base + over <==> gone * base.Keys <= over.Keys
  {
    var l, r := (base - gone) + over, base + over;
    if l == r {
      forall k | k in gone * base.Keys
        ensures k in over
      {
        assert k in r;
        assert k in l;
      }
    }
    if gone * base.Keys <= over.Keys {
      assert forall k :: k in l <==> k in r;
      assert forall k :: k in l ==> l[k] == r[k];
    }
  }

  // ---------- the key list ----------

  ghost function Enumerate(keys: set<string>): (e: seq<string>)
    ensures multiset(e) == multiset(keys)
  {
    if keys == {} then []
    else
      var k :| k in keys;
      [k] + Enumerate(keys - {k})
  }

  /** The keys in ascending order. */
  ghost function KeyList(keys: set<string>): seq<string> {
    SortStrings(Enumerate(keys))
  }

  /** Whatever order a map is ranged over, sorting the keys gives the key list. */
  lemma KeyListIsCanonical(e: seq<string>, keys: set<string>)
    requires multiset(e) == multiset(keys)
    ensures SortStrings(e) == KeyList(keys)
  {
    SortStringsIsCanonical(e, Enumerate(keys));
  }

  lemma KeyListMembers(keys: set<string>)
    ensures Sorted(Self, KeyList(keys)) && multiset(KeyList(keys)) == multiset(keys)
    ensures forall k :: k in KeyList(keys) <==> k in keys
    ensures KeyList(keys) == [] <==> keys == {}
  {
    SortStringsIsCanonical(Enumerate(keys), []);
    forall k
      ensures k in KeyList(keys) <==> k in keys
    {
      assert k in KeyList(keys) <==> k in multiset(KeyList(keys));
    }
    if keys != {} {
      var k :| k in keys;
      assert k in KeyList(keys);
    } else {
      assert |KeyList(keys)| == |multiset(KeyList(keys))| == 0;
    }
  }

  /** getConfigAnnotationKeys */
  function ManagedKeys(ann: Annotations): seq<string> {
    if MANAGED in ann then Split(ann[MANAGED], SEPARATOR) else []
  }

  /** What createConfigAnnotations returns. */
  ghost function ConfigAnnotations(cfg: Annotations): Annotations {
    cfg[MANAGED := Join(KeyList(cfg.Keys), SEPARATOR)]
  }

  /** Ranging over a map takes its keys in any order. */
  method RangeOver(cfg: Annotations) returns (ann: Annotations, keys: seq<string>)
    ensures ann == cfg && multiset(keys) == multiset(cfg.Keys)
  {
    ann, keys := map[], [];
    var rest := cfg.Keys;
    while rest != {}
      invariant rest <= cfg.Keys
      invariant ann == map k | k in cfg.Keys - rest :: cfg[k]
      invariant multiset(keys) == multiset(cfg.Keys - rest)
    {
      var k :| k in rest;
      assert cfg.Keys - (rest - {k}) == (cfg.Keys - rest) + {k};
      ann := ann[k := cfg[k]];
      keys := keys + [k];
      rest := rest - {k};
    }
    assert cfg.Keys - rest == cfg.Keys;
  }

  /** createConfigAnnotations */
  method CreateConfigAnnotations(cfg: Annotations) returns (ann: Annotations)
    ensures ann == ConfigAnnotations(cfg)
    ensures forall k :: k in cfg && k != MANAGED ==> Lookup(ann, k) == Some(cfg[k])
    ensures ann.Keys == cfg.Keys + {MANAGED}
  {
    var keys;
    ann, keys := RangeOver(cfg);
    KeyListIsCanonical(keys, cfg.Keys);
    ann := ann[MANAGED := Join(SortStrings(keys), SEPARATOR)];
  }

  /** The key list is stored under its own annotation: the configured keys, ascending, joined by `;`. */
  lemma KeyListEntry(cfg: Annotations)
    ensures exists list ::
      && Sorted(Self, list) && multiset(list) == multiset(cfg.Keys)
      && Lookup(ConfigAnnotations(cfg), "k8s-service-discovery.cloudogu.com/configManagedKeys") == Some(Join(list, ';'))
  {
    KeyListMembers(cfg.Keys);
    var list := KeyList(cfg.Keys);
    assert Lookup(ConfigAnnotations(cfg), MANAGED) == Some(Join(list, SEPARATOR));
  }

  /** Reading the key list back gives the configuration's sorted keys exactly when no key holds
      the separator; the empty configuration reads back as one empty key. */
  lemma KeyListRoundTrip(cfg: Annotations)
    ensures cfg == map[] ==> ManagedKeys(ConfigAnnotations(cfg)) == [""]
    ensures cfg != map[] ==>
      (ManagedKeys(ConfigAnnotations(cfg)) == KeyList(cfg.Keys) <==> forall k :: k in cfg ==> SEPARATOR !in k)
  {
    KeyListMembers(cfg.Keys);
    if cfg != map[] {
      assert cfg.Keys != {};
      SplitJoin(KeyList(cfg.Keys), SEPARATOR);
    } else {
      assert cfg.Keys == {};
    }
  }

  // ---------- applying a configuration ----------

  ghost function Members(keys: seq<string>): set<string> {
    set k | k in keys
  }

  ghost function ManagedSet(ann: Annotations): set<string> {
    Members(ManagedKeys(ann))
  }

  /** The annotations after ApplyConfig. */
  ghost function Applied(ann: Annotations, cfg: Annotations): Annotations {
    (ann - ManagedSet(ann)) + ConfigAnnotations(cfg)
  }

  ghost function Unmanaged(ann: Annotations): Annotations {
    ann - ManagedSet(ann) - {MANAGED}
  }

  /** A configuration whose keys survive the key list. */
  ghost predicate Clean(cfg: Annotations) {
    forall k :: k in cfg ==> SEPARATOR !in k && k != MANAGED
  }

  /** Every annotation after ApplyConfig: a configured one has the configured value, one the previous key
      list names is gone, any other is as before. */
  lemma AppliedEntry(ann: Annotations, cfg: Annotations, k: string)
    requires k != MANAGED
    ensures Lookup(Applied(ann, cfg), k) ==
            if k in cfg then Some(cfg[k])
            else if MANAGED in ann && k in Split(ann[MANAGED], ';') then None
            else Lookup(ann, k)
  {
    assert k in ConfigAnnotations(cfg) <==> k in cfg;
    assert k in ManagedSet(ann) <==> k in ManagedKeys(ann);
  }

  lemma AppliedIsUnmanagedPlusConfig(ann: Annotations, cfg: Annotations)
    ensures Applied(ann, cfg) == Unmanaged(ann) + ConfigAnnotations(cfg)
  {
    OverrideHides(ann - ManagedSet(ann), MANAGED, ConfigAnnotations(cfg));
  }

  /** The keys one configuration makes later configurations delete. */
  ghost function Forgets(cfg: Annotations): set<string> {
    if cfg == map[] then {""} else cfg.Keys
  }

  lemma ManagedSetOfApplied(ann: Annotations, cfg: Annotations)
    requires Clean(cfg)
    ensures ManagedSet(Applied(ann, cfg)) == Forgets(cfg)
  {
    KeyListRoundTrip(cfg);
    KeyListMembers(cfg.Keys);
    assert ManagedKeys(Applied(ann, cfg)) == ManagedKeys(ConfigAnnotations(cfg));
  }

  lemma UnmanagedAfterApply(ann: Annotations, cfg: Annotations)
    requires Clean(cfg)
    ensures Unmanaged(Applied(ann, cfg)) == Unmanaged(ann) - Forgets(cfg)
  {
    var gone := Forgets(cfg) + {MANAGED};
    AppliedIsUnmanagedPlusConfig(ann, cfg);
    ManagedSetOfApplied(ann, cfg);
    RemoveTwice(Applied(ann, cfg), Forgets(cfg), {MANAGED});
    RemoveOverride(Unmanaged(ann), ConfigAnnotations(cfg), gone);
    RemoveTwice(ann - ManagedSet(ann), {MANAGED}, gone);
    RemoveTwice(ann - ManagedSet(ann), {MANAGED}, Forgets(cfg));
    assert {MANAGED} + gone == {MANAGED} + Forgets(cfg);
  }

  /** One configuration applied after the other. */
  ghost function Run(ann: Annotations, cfgs: seq<Annotations>): Annotations {
    if cfgs == [] then ann else Applied(Run(ann, cfgs[..|cfgs| - 1]), cfgs[|cfgs| - 1])
  }

  ghost function ForgetsAll(cfgs: seq<Annotations>): set<string> {
    if cfgs == [] then {} else ForgetsAll(cfgs[..|cfgs| - 1]) + Forgets(cfgs[|cfgs| - 1])
  }

  lemma {:induction false} UnmanagedAfterRun(ann: Annotations, cfgs: seq<Annotations>)
    requires forall c :: c in cfgs ==> Clean(c)
    ensures Unmanaged(Run(ann, cfgs)) == Unmanaged(ann) - ForgetsAll(cfgs)
  {
    if cfgs != [] {
      var n := |cfgs| - 1;
      assert Clean(cfgs[n]);
      UnmanagedAfterRun(ann, cfgs[..n]);
      UnmanagedAfterApply(Run(ann, cfgs[..n]), cfgs[n]);
      RemoveTwice(Unmanaged(ann), ForgetsAll(cfgs[..n]), Forgets(cfgs[n]));
    }
  }

  /** After any run of configurations the annotations are the original unmanaged ones, less those an
      earlier configuration claimed, plus the last configuration and its key list.  So the unmanaged
      annotations all survive exactly when no earlier configuration claimed one of them. */
  lemma RunKeepsOnlyTheLastConfig(ann: Annotations, cfgs: seq<Annotations>, last: Annotations)
    requires forall c :: c in cfgs ==> Clean(c)
    ensures Run(ann, cfgs + [last]) == (Unmanaged(ann) - ForgetsAll(cfgs)) + ConfigAnnotations(last)
    ensures Run(ann, cfgs + [last]) == Unmanaged(ann) + ConfigAnnotations(last) <==>
            ForgetsAll(cfgs) * Unmanaged(ann).Keys <= ConfigAnnotations(last).Keys
  {
    assert (cfgs + [last])[..|cfgs|] == cfgs;
    AppliedIsUnmanagedPlusConfig(Run(ann, cfgs), last);
    UnmanagedAfterRun(ann, cfgs);
    RemovedUnderOverride(Unmanaged(ann), ForgetsAll(cfgs), ConfigAnnotations(last));
  }

  /** After any run the last configuration's annotations have its values. */
  lemma RunKeepsConfiguredValues(ann: Annotations, cfgs: seq<Annotations>, last: Annotations, k: string)
    requires k in last && k != MANAGED
    ensures Lookup(Run(ann, cfgs + [last]), k) == Some(last[k])
  {
    assert (cfgs + [last])[..|cfgs|] == cfgs;
    AppliedEntry(Run(ann, cfgs), last, k);
  }

  // ---------- idempotence and comparison ----------

  /** No piece of the configuration's key list names a present annotation that is none of its keys. */
  ghost predicate NoStrayPiece(ann: Annotations, cfg: Annotations) {
    forall k :: k in ManagedKeys(ConfigAnnotations(cfg)) && k in ann - ManagedSet(ann) ==> k in ConfigAnnotations(cfg)
  }

  /** Applying a configuration twice is applying it once, exactly without stray pieces. */
  lemma ApplyIsIdempotentIff(ann: Annotations, cfg: Annotations)
    ensures Applied(Applied(ann, cfg), cfg) == Applied(ann, cfg) <==> NoStrayPiece(ann, cfg)
  {
    var kept, c := ann - ManagedSet(ann), ConfigAnnotations(cfg);
    var pieces := ManagedSet(c);
    assert ManagedKeys(kept + c) == ManagedKeys(c);
    RemoveThenOverride(kept, pieces, c);
    RemovedUnderOverride(kept, pieces, c);
  }

  /** For clean configurations the only stray piece is the empty key, left by an empty configuration. */
  lemma CleanHasNoStrayPieceIff(ann: Annotations, cfg: Annotations)
    requires Clean(cfg)
    ensures NoStrayPiece(ann, cfg) <==> !(cfg == map[] && "" in ann - ManagedSet(ann))
  {
    KeyListRoundTrip(cfg);
    KeyListMembers(cfg.Keys);
    if cfg == map[] {
      assert "" in ManagedKeys(ConfigAnnotations(cfg));
      assert "" != MANAGED;
    }
  }

  lemma ConfiguredKeyIsPieceIff(cfg: Annotations, k: string)
    requires k in cfg
    ensures k in ManagedKeys(ConfigAnnotations(cfg)) <==> SEPARATOR !in k
  {
    var list := KeyList(cfg.Keys);
    KeyListMembers(cfg.Keys);
    SplitPiecesAreFree(Join(list, SEPARATOR), SEPARATOR);
    if SEPARATOR !in k {
      FreePieceIsFound(list, k, SEPARATOR);
    }
  }

  /** A configured annotation is deleted by the next configuration without it exactly when its key
      holds no separator, whatever the other keys are. */
  lemma KeyIsForgottenIff(ann: Annotations, cfg: Annotations, next: Annotations, k: string)
    requires k in cfg && k != MANAGED && k !in next
    ensures k !in Applied(Applied(ann, cfg), next) <==> SEPARATOR !in k
  {
    ConfiguredKeyIsPieceIff(cfg, k);
    assert ManagedKeys(Applied(ann, cfg)) == ManagedKeys(ConfigAnnotations(cfg));
    assert k in ConfigAnnotations(cfg) && k !in ConfigAnnotations(next);
  }

  lemma KeyListOfOne(k: string)
    ensures KeyList({k}) == [k]
  {
    KeyListIsCanonical([k], {k});
    assert [k][1..] == [] && Sort(Self, []) == [];
  }

  /** Repeating a configuration with the key "a;b" deletes an annotation "a" nobody managed. */
  lemma SeparatorReachesUnmanaged()
    ensures
      var once := Applied(map["a" := "by hand"], map["a;b" := "v"]);
      "a" in once && "a" !in Applied(once, map["a;b" := "v"])
  {
    var ann: Annotations := map["a" := "by hand"];
    var cfg: Annotations := map["a;b" := "v"];
    assert |"a"| != |MANAGED| && |"a"| != |"a;b"|;
    assert cfg.Keys == {"a;b"};
    KeyListOfOne("a;b");
    assert "a" + [SEPARATOR] + "b" == "a;b";
    SplitAfterPiece("a", "b", SEPARATOR);
    assert ManagedKeys(ConfigAnnotations(cfg)) == ["a"] + Split("b", SEPARATOR);
    assert "a" in ManagedKeys(ConfigAnnotations(cfg));
    assert ManagedKeys(ann) == [];
    assert ManagedKeys(Applied(ann, cfg)) == ManagedKeys(ConfigAnnotations(cfg));
  }

  /** An annotation whose key holds the separator is never removed, whatever configurations follow. */
  lemma {:induction false} SeparatorKeyStays(ann: Annotations, cfgs: seq<Annotations>, k: string)
    requires k in ann && SEPARATOR in k
    ensures k in Run(ann, cfgs)
  {
    if cfgs != [] {
      var before := Run(ann, cfgs[..|cfgs| - 1]);
      SeparatorKeyStays(ann, cfgs[..|cfgs| - 1], k);
      if MANAGED in before {
        SplitPiecesAreFree(before[MANAGED], SEPARATOR);
      }
    }
  }

  /** LoadBalancer.equalAnnotations */
  ghost predicate EqualAnnotations(a: Annotations, b: Annotations) {
    SortStrings(ManagedKeys(a)) == SortStrings(ManagedKeys(b)) &&
    forall k :: k in ManagedKeys(a) ==> Lookup(a, k) == Lookup(b, k)
  }

  method CompareAnnotations(a: Annotations, b: Annotations) returns (equal: bool)
    ensures equal <==> EqualAnnotations(a, b)
  {
    var aKeys := SortStrings(ManagedKeys(a));
    var bKeys := SortStrings(ManagedKeys(b));
    if aKeys != bKeys {
      return false;
    }
    forall k
      ensures k in aKeys <==> k in ManagedKeys(a)
    {
      SortStringsMembers(ManagedKeys(a), k);
    }
    for i := 0 to |aKeys|
      invariant forall k :: k in aKeys[..i] ==> Lookup(a, k) == Lookup(b, k)
    {
      var k := aKeys[i];
      assert k in ManagedKeys(a);
      if (k in a) != (k in b) || (k in a && a[k] != b[k]) {
        assert Lookup(a, k) != Lookup(b, k);
        return false;
      }
    }
    assert aKeys[..|aKeys|] == aKeys;
    equal := true;
  }

  lemma SameManagedKeys(a: Annotations, b: Annotations)
    requires EqualAnnotations(a, b)
    ensures forall k :: k in ManagedKeys(a) <==> k in ManagedKeys(b)
  {
    forall k
      ensures k in ManagedKeys(a) <==> k in ManagedKeys(b)
    {
      SortStringsMembers(ManagedKeys(a), k);
      SortStringsMembers(ManagedKeys(b), k);
    }
  }

  lemma EqualAnnotationsIsEquivalence(a: Annotations, b: Annotations, c: Annotations)
    ensures EqualAnnotations(a, a)
    ensures EqualAnnotations(a, b) ==> EqualAnnotations(b, a)
    ensures EqualAnnotations(a, b) && EqualAnnotations(b, c) ==> EqualAnnotations(a, c)
  {
    if EqualAnnotations(a, b) {
      SameManagedKeys(a, b);
    }
  }

  /** An updated load balancer compares equal to a freshly created one exactly without stray pieces. */
  lemma UpdatedEqualsFreshIff(ann: Annotations, cfg: Annotations)
    ensures EqualAnnotations(Applied(ann, cfg), ConfigAnnotations(cfg)) <==> NoStrayPiece(ann, cfg)
  {
    assert ManagedKeys(Applied(ann, cfg)) == ManagedKeys(ConfigAnnotations(cfg));
  }

  lemma SameConfiguredKeys(c: Annotations, d: Annotations)
    requires Clean(c) && Clean(d) && c != map[] && d != map[]
    requires EqualAnnotations(ConfigAnnotations(c), ConfigAnnotations(d))
    ensures c.Keys == d.Keys
  {
    KeyListRoundTrip(c);
    KeyListRoundTrip(d);
    KeyListMembers(c.Keys);
    KeyListMembers(d.Keys);
    SameManagedKeys(ConfigAnnotations(c), ConfigAnnotations(d));
    assert forall k :: k in c.Keys <==> k in d.Keys;
  }

  lemma SameConfiguredValue(c: Annotations, d: Annotations, k: string)
    requires Clean(c) && k in c && k in d
    requires EqualAnnotations(ConfigAnnotations(c), ConfigAnnotations(d))
    ensures c[k] == d[k]
  {
    ConfiguredKeyIsPieceIff(c, k);
    assert Lookup(ConfigAnnotations(c), k) == Lookup(ConfigAnnotations(d), k);
  }

  lemma NothingConfiguredIsApart(c: Annotations)
    requires Clean(c) && EqualAnnotations(ConfigAnnotations(c), ConfigAnnotations(map[]))
    ensures c == map[]
  {
    var none: Annotations := map[];
    KeyListRoundTrip(c);
    KeyListRoundTrip(none);
    KeyListMembers(c.Keys);
    SameManagedKeys(ConfigAnnotations(c), ConfigAnnotations(none));
    assert "" in ManagedKeys(ConfigAnnotations(none));
    assert "" != MANAGED;
    assert Lookup(ConfigAnnotations(c), "") == Lookup(ConfigAnnotations(none), "") == None;
  }

  /** The comparison tells any two clean configurations apart. */
  lemma ComparisonDecidesConfig(c: Annotations, d: Annotations)
    requires Clean(c) && Clean(d)
    ensures EqualAnnotations(ConfigAnnotations(c), ConfigAnnotations(d)) <==> c == d
  {
    EqualAnnotationsIsEquivalence(ConfigAnnotations(c), ConfigAnnotations(d), ConfigAnnotations(c));
    if EqualAnnotations(ConfigAnnotations(c), ConfigAnnotations(d)) {
      if d == map[] {
        NothingConfiguredIsApart(c);
      } else if c == map[] {
        NothingConfiguredIsApart(d);
      } else {
        SameConfiguredKeys(c, d);
        forall k | k in c
          ensures c[k] == d[k]
        {
          SameConfiguredValue(c, d, k);
        }
      }
    }
  }
}
