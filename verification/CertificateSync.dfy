/** Synchronising the ecosystem certificate into the versioned global configuration, which other
    clients keep writing. */
module CertificateSync {
  import opened Strings

  type Entries = map<string, string>

  const SERVER_CERTIFICATE := "certificate/server.crt"
  const SERVER_KEY := "certificate/server.key"

  /** The configuration with the certificate set and the private key deleted. */
  function Synced(cfg: Entries, certificate: string): Entries {
    cfg[SERVER_CERTIFICATE := certificate] - {SERVER_KEY}
  }

  datatype Outcome = Done | Conflict | NotSettable

  /** The repository: every state the configuration ever had, indexed by its version. */
  class GlobalConfigStore {
    var entries: Entries
    var version: nat
    ghost var history: seq<Entries>
    ghost var ownWrites: nat

    ghost predicate Valid()
      reads this
    {
      |history| == version + 1 && history[version] == entries
    }

    constructor (initial: Entries)
      ensures Valid() && entries == initial && ownWrites == 0
    {
      entries, version, history, ownWrites := initial, 0, [initial], 0;
    }

    method Put(cfg: Entries)
      requires Valid()
      modifies this
      ensures Valid() && ownWrites == old(ownWrites)
      ensures history == old(history) + [cfg]
    {
      entries, version, history := cfg, version + 1, history + [cfg];
    }

    /** Any number of writes by other clients. */
    method Others()
      requires Valid()
      modifies this
      ensures Valid() && old(history) <= history && ownWrites == old(ownWrites)
    {
      var n :| 0 <= n;
      for i := 0 to n
        invariant Valid() && old(history) <= history && ownWrites == old(ownWrites)
      {
        var cfg: Entries := *;
        Put(cfg);
      }
    }

    method Update(cfg: Entries, base: nat) returns (ok: bool)
      requires Valid()
      modifies this
      ensures Valid() && ok == (base == old(version))
      ensures ok ==> history == old(history) + [cfg] && ownWrites == old(ownWrites) + 1
      ensures !ok ==> history == old(history) && ownWrites == old(ownWrites)
    {
      ok := base == version;
      if ok {
        Put(cfg);
        ownWrites := ownWrites + 1;
      }
    }
  }

  /** updateInGlobalConfig: read, set, delete, write back; again on conflict, at most `tries` times,
      which the source sets to 1000.
      `settable` is the configuration library's own check on setting a key.
      On success the last state is the one just before it with only the two certificate entries changed.
      It gives up only after `tries` writes by others, so an undisturbed call succeeds. */
  method UpdateInGlobalConfig(store: GlobalConfigStore, certificate: string, settable: Entries -> bool, tries: nat) returns (r: Outcome)
    requires store.Valid()
    modifies store
    ensures store.Valid() && old(store.history) <= store.history
    ensures store.ownWrites == old(store.ownWrites) + if r == Done then 1 else 0
    ensures r == Done ==>
      && |store.history| > |old(store.history)|
      && store.entries == Synced(store.history[store.version - 1], certificate)
      && settable(store.history[store.version - 1])
    ensures r == NotSettable ==> !settable(store.entries)
    ensures r == Conflict ==> |store.history| >= |old(store.history)| + tries
    ensures (tries > 0 && settable(old(store.entries)) && |store.history| == |old(store.history)| + (if r == Done then 1 else 0))
      ==> r == Done
  {
    for attempt := 0 to tries
      invariant store.Valid() && old(store.history) <= store.history && store.ownWrites == old(store.ownWrites)
      invariant |store.history| >= |old(store.history)| + attempt
    {
      store.Others();
      var cfg, base := store.entries, store.version;
      if !settable(cfg) {
        return NotSettable;
      }
      cfg := cfg[SERVER_CERTIFICATE := certificate];
      cfg := cfg - {SERVER_KEY};
      store.Others();
      var ok := store.Update(cfg, base);
      if ok {
        return Done;
      }
    }
    return Conflict;
  }

  // ---------- many clients ----------

  datatype Edit = Sync(certificate: string) | Set(key: string, value: string) | Erase(key: string)

  function Edited(cfg: Entries, e: Edit): Entries {
    match e
    case Sync(c) => Synced(cfg, c)
    case Set(k, v) => cfg[k := v]
    case Erase(k) => cfg - {k}
  }

  function Replay(cfg: Entries, edits: seq<Edit>): Entries {
    if edits == [] then cfg else Edited(Replay(cfg, edits[..|edits| - 1]), edits[|edits| - 1])
  }

  datatype Held = Held(base: Entries, version: nat)
  datatype Client = Client(edit: Edit, held: Option<Held>)
  datatype World = World(entries: Entries, version: nat, clients: seq<Client>, log: seq<Edit>)

  datatype Event =
    | Begin(client: nat, edit: Edit)  // a client turns to another edit
    | Fetch(client: nat)              // it reads the configuration
    | Send(client: nat)               // it sends its edited copy; on conflict it has to read again

  function Step(w: World, e: Event): World {
    if e.client >= |w.clients| then w
    else
      var i := e.client;
      var me := w.clients[i];
      match e
      case Begin(_, edit) => w.(clients := w.clients[i := Client(edit, None)])
      case Fetch(_) => w.(clients := w.clients[i := Client(me.edit, Some(Held(w.entries, w.version)))])
      case Send(_) =>
        var done := w.clients[i := Client(me.edit, None)];
        if me.held.None? || me.held.value.version != w.version then w.(clients := done)
        else World(Edited(me.held.value.base, me.edit), w.version + 1, done, w.log + [me.edit])
  }

  function Run(w: World, events: seq<Event>): World {
    if events == [] then w else Step(Run(w, events[..|events| - 1]), events[|events| - 1])
  }

  ghost predicate Coherent(w: World, start: Entries) {
    && w.entries == Replay(start, w.log)
    && forall i :: 0 <= i < |w.clients| && w.clients[i].held.Some? ==>
      && w.clients[i].held.value.version <= w.version
      && (w.clients[i].held.value.version == w.version ==> w.clients[i].held.value.base == w.entries)
  }

  /** In every interleaving the configuration is the start with all accepted edits, each applied to
      the result of the one before: no accepted edit is ever lost. */
  lemma {:induction false} NoEditIsLost(w: World, events: seq<Event>, start: Entries)
    requires Coherent(w, start)
    ensures Coherent(Run(w, events), start)
    ensures Run(w, events).entries == Replay(start, Run(w, events).log)
  {
    if events != [] {
      var u, e := Run(w, events[..|events| - 1]), events[|events| - 1];
      NoEditIsLost(w, events[..|events| - 1], start);
      if e.client < |u.clients| && e.Send? {
        var edit := u.clients[e.client].edit;
        assert (u.log + [edit])[..|u.log|] == u.log;
      }
    }
  }

  /** A client that reads and sends undisturbed has its edit accepted, on the current state and once. */
  lemma UndisturbedEditIsAccepted(w: World, i: nat)
    requires i < |w.clients|
    ensures
      var edit := w.clients[i].edit;
      var u := Run(w, [Fetch(i), Send(i)]);
      && u.entries == Edited(w.entries, edit) && u.log == w.log + [edit] && u.version == w.version + 1
      && Run(u, [Send(i)]).entries == u.entries && Run(u, [Send(i)]).log == u.log
  {
    var u := Run(w, [Fetch(i), Send(i)]);
    assert [Fetch(i), Send(i)][..1] == [Fetch(i)] && [Fetch(i)][..0] == [];
    assert Run(w, [Fetch(i)]) == Step(w, Fetch(i));
    assert [Send(i)][..0] == [];
    assert Run(u, [Send(i)]) == Step(u, Send(i));
  }

  /** The edits of the other clients, in order. */
  function WithoutSyncs(edits: seq<Edit>): seq<Edit> {
    if edits == [] then []
    else
      var n := |edits| - 1;
      WithoutSyncs(edits[..n]) + if edits[n].Sync? then [] else [edits[n]]
  }

  ghost predicate Touches(e: Edit, k: string) {
    match e
    case Sync(_) => k == SERVER_CERTIFICATE || k == SERVER_KEY
    case Set(key, _) => key == k
    case Erase(key) => key == k
  }

  lemma UntouchedEntry(cfg: Entries, e: Edit, k: string)
    requires !Touches(e, k)
    ensures Lookup(Edited(cfg, e), k) == Lookup(cfg, k)
  {
    match e
    case Sync(_) => assert k in Synced(cfg, e.certificate) <==> k in cfg;
    case Set(_, _) =>
    case Erase(_) =>
  }

  lemma EditedAlike(a: Entries, b: Entries, e: Edit, k: string)
    requires !e.Sync? && Lookup(a, k) == Lookup(b, k)
    ensures Lookup(Edited(a, e), k) == Lookup(Edited(b, e), k)
  {
    assert k in a <==> k in b;
    match e
    case Set(_, _) =>
    case Erase(_) =>
  }

  /** Every other entry is as the other clients alone would have left it. */
  lemma {:induction false} SyncsAreInvisibleElsewhere(start: Entries, edits: seq<Edit>, k: string)
    requires k != "certificate/server.crt" && k != "certificate/server.key"
    ensures Lookup(Replay(start, edits), k) == Lookup(Replay(start, WithoutSyncs(edits)), k)
  {
    if edits != [] {
      var n := |edits| - 1;
      SyncsAreInvisibleElsewhere(start, edits[..n], k);
      if edits[n].Sync? {
        UntouchedEntry(Replay(start, edits[..n]), edits[n], k);
        assert WithoutSyncs(edits) == WithoutSyncs(edits[..n]);
      } else {
        var rest := WithoutSyncs(edits[..n]);
        assert WithoutSyncs(edits)[..|rest|] == rest;
        EditedAlike(Replay(start, edits[..n]), Replay(start, rest), edits[n], k);
      }
    }
  }

  /** After a sync the certificate is set and the key is gone, until someone else writes them. */
  lemma {:induction false} SyncSticks(start: Entries, before: seq<Edit>, certificate: string, after: seq<Edit>)
    requires forall e :: e in after ==> !Touches(e, "certificate/server.crt") && !Touches(e, "certificate/server.key")
    ensures
      var cfg := Replay(start, before + [Sync(certificate)] + after);
      Lookup(cfg, "certificate/server.crt") == Some(certificate) && Lookup(cfg, "certificate/server.key") == None
  {
    var edits := before + [Sync(certificate)] + after;
    if after == [] {
      assert edits[..|edits| - 1] == before;
      assert SERVER_CERTIFICATE[|SERVER_CERTIFICATE| - 1] != SERVER_KEY[|SERVER_KEY| - 1];
    } else {
      var n := |after| - 1;
      assert edits[..|edits| - 1] == before + [Sync(certificate)] + after[..n];
      assert edits[|edits| - 1] == after[n];
      SyncSticks(start, before, certificate, after[..n]);
      UntouchedEntry(Replay(start, edits[..|edits| - 1]), after[n], SERVER_CERTIFICATE);
      UntouchedEntry(Replay(start, edits[..|edits| - 1]), after[n], SERVER_KEY);
    }
  }
}
