/** Concurrent workers editing the shared network policy through the API server.
    One event is one API call together with the local code up to the next call.  The server
    keeps one versioned policy and accepts an update only with the current version. */
module PolicyProtocol {
  import opened Strings
  import opened PolicyPorts
  import opened PolicyLedger

  datatype Stored = Stored(policy: Policy, version: nat)

  /** Where a worker is inside the operation it is carrying out. */
  datatype Phase =
    | Start                                    // before its first call
    | Creating                                 // saw no policy, will create one
    | Looping                                  // will fetch the policy inside the retry loop
    | Holding(base: Policy, version: nat)      // fetched a policy, will send the edited copy
    | Deleting                                 // saw a policy, will delete it

  /** A worker reconciles one service: operations done, and operations still to do. */
  datatype Worker = Worker(service: string, done: seq<Op>, todo: seq<Op>, phase: Phase)

  datatype World = World(stored: Option<Stored>, clock: nat, workers: seq<Worker>)

  datatype Event =
    | Act(worker: nat)        // the next call of a worker
    | LoseReply(worker: nat)  // the same, but the worker sees an error and starts its operation over
    | GiveUp(worker: nat)     // the worker fails without a call (retries exhausted, restart)

  datatype Progress = Finish | Goto(phase: Phase)
  datatype Reply = Reply(stored: Option<Stored>, clock: nat, next: Progress)

  function PolicyOf(stored: Option<Stored>): Option<Policy> {
    match stored
    case None => None
    case Some(s) => Some(s.policy)
  }

  /** Get inside a retry loop, then the edit on the fetched copy. */
  function Fetch(op: Op, service: string, stored: Option<Stored>, cidr: string): Progress {
    match stored
    case None => if op.Upsert? then Goto(Start) else Finish
    case Some(s) =>
      match Perform(op, service, Some(s.policy), cidr)
      case Done => Finish
      case Write(_) => Goto(Holding(s.policy, s.version))
      case _ => Goto(Start)
  }

  function Call(op: Op, service: string, phase: Phase, stored: Option<Stored>, clock: nat, cidr: string): Reply {
    match phase
    case Start =>
      Reply(stored, clock,
            match op
            case Upsert(want) => if stored.Some? then Goto(Looping) else if want == [] then Finish else Goto(Creating)
            case Remove => Fetch(op, service, stored, cidr)
            case Drop => if stored.Some? then Goto(Deleting) else Finish)
    case Creating =>
      if stored.None? && op.Upsert? && Create(service, op.want, cidr).Write? then
        Reply(Some(Stored(Create(service, op.want, cidr).result, clock + 1)), clock + 1, Finish)
      else Reply(stored, clock, Goto(Start))
    case Looping =>
      Reply(stored, clock, Fetch(op, service, stored, cidr))
    case Holding(base, version) =>
      if stored.None? then Reply(stored, clock, Goto(Start))
      else if stored.value.version != version then Reply(stored, clock, Goto(Looping))
      else (
        match Perform(op, service, Some(base), cidr)
        case Write(q) => Reply(Some(Stored(q, clock + 1)), clock + 1, Finish)
        case _ => Reply(stored, clock, Goto(Start))
      )
    case Deleting =>
      if stored.Some? && op.Drop? then Reply(None, clock + 1, Finish) else Reply(stored, clock, Goto(Start))
  }

  predicate Enabled(w: World, e: Event) {
    e.worker < |w.workers| && w.workers[e.worker].todo != []
  }

  function ReplyTo(w: World, i: nat, cidr: string): Reply
    requires i < |w.workers| && w.workers[i].todo != []
  {
    var me := w.workers[i];
    Call(me.todo[0], me.service, me.phase, w.stored, w.clock, cidr)
  }

  function Step(w: World, e: Event, cidr: string): World {
    if !Enabled(w, e) then w
    else
      var i := e.worker;
      var me := w.workers[i];
      var r := ReplyTo(w, i, cidr);
      match e
      case Act(_) =>
        var next := if r.next.Finish? then Worker(me.service, me.done + [me.todo[0]], me.todo[1..], Start)
                    else me.(phase := r.next.phase);
        World(r.stored, r.clock, w.workers[i := next])
      case LoseReply(_) => World(r.stored, r.clock, w.workers[i := me.(phase := Start)])
      case GiveUp(_) => w.(workers := w.workers[i := me.(phase := Start)])
  }

  function Run(w: World, events: seq<Event>, cidr: string): World {
    if events == [] then w
    else Step(Run(w, events[..|events| - 1], cidr), events[|events| - 1], cidr)
  }

  // ---------- atomicity ----------

  datatype Commit = Commit(service: string, op: Op)

  /** The operation, if any, that an event brings to its conclusion on the server. */
  function Committed(w: World, e: Event, cidr: string): seq<Commit> {
    if Enabled(w, e) && !e.GiveUp? && ReplyTo(w, e.worker, cidr).next.Finish?
    then [Commit(w.workers[e.worker].service, w.workers[e.worker].todo[0])]
    else []
  }

  function Commits(w: World, events: seq<Event>, cidr: string): seq<Commit> {
    if events == [] then []
    else
      var before := events[..|events| - 1];
      Commits(w, before, cidr) + Committed(Run(w, before, cidr), events[|events| - 1], cidr)
  }

  /** The operations one after the other, each alone. */
  function Sequentially(p: Option<Policy>, commits: seq<Commit>, cidr: string): Option<Policy> {
    if commits == [] then p
    else
      var n := |commits| - 1;
      After(commits[n].op, commits[n].service, Sequentially(p, commits[..n], cidr), cidr)
  }

  /** A held copy whose version is current is the stored policy. */
  ghost predicate Coherent(w: World) {
    && (w.stored.Some? ==> w.stored.value.version <= w.clock)
    && forall i :: 0 <= i < |w.workers| && w.workers[i].phase.Holding? ==>
      && w.workers[i].phase.version <= w.clock
      && (w.stored.Some? && w.stored.value.version == w.workers[i].phase.version ==>
            w.stored.value.policy == w.workers[i].phase.base)
  }

  /** A run starts with every worker before its first operation, over any stored policy or none. */
  ghost predicate Begins(w: World) {
    Coherent(w) && forall i :: 0 <= i < |w.workers| ==> w.workers[i].phase.Start? && w.workers[i].done == []
  }

  lemma StepKeepsCoherent(w: World, e: Event, cidr: string)
    requires Coherent(w)
    ensures Coherent(Step(w, e, cidr))
  {
  }

  /** A call changes the stored policy only by concluding its operation, and then by exactly
      the operation's effect on the policy stored at that instant. */
  lemma StepIsAtomic(w: World, e: Event, cidr: string)
    requires Coherent(w)
    ensures PolicyOf(Step(w, e, cidr).stored) == Sequentially(PolicyOf(w.stored), Committed(w, e, cidr), cidr)
  {
    if Enabled(w, e) && !e.GiveUp? {
      var me := w.workers[e.worker];
      var c := Committed(w, e, cidr);
      if c != [] {
        assert c[..0] == [];
        assert Sequentially(PolicyOf(w.stored), c, cidr) == After(me.todo[0], me.service, PolicyOf(w.stored), cidr);
      }
    }
  }

  lemma {:induction false} SequentiallyExtends(p: Option<Policy>, a: seq<Commit>, b: seq<Commit>, cidr: string)
    ensures Sequentially(p, a + b, cidr) == Sequentially(Sequentially(p, a, cidr), b, cidr)
  {
    if b == [] {
      assert a + b == a;
    } else {
      assert (a + b)[..|a + b| - 1] == a + b[..|b| - 1];
      SequentiallyExtends(p, a, b[..|b| - 1], cidr);
    }
  }

  /** Every run, with its conflicts, retries, lost replies and restarts, leaves the policy that the
      concluded operations leave when carried out one at a time in the order they concluded. */
  lemma {:induction false} RunsAreSequential(w: World, events: seq<Event>, cidr: string)
    requires Coherent(w)
    ensures Coherent(Run(w, events, cidr))
    ensures PolicyOf(Run(w, events, cidr).stored) == Sequentially(PolicyOf(w.stored), Commits(w, events, cidr), cidr)
  {
    if events != [] {
      var before := events[..|events| - 1];
      var e := events[|events| - 1];
      RunsAreSequential(w, before, cidr);
      StepKeepsCoherent(Run(w, before, cidr), e, cidr);
      StepIsAtomic(Run(w, before, cidr), e, cidr);
      SequentiallyExtends(PolicyOf(w.stored), Commits(w, before, cidr), Committed(Run(w, before, cidr), e, cidr), cidr);
    }
  }

  // ---------- no stale port in any run ----------

  lemma {:induction false} SequentiallyKeepsNoStale(p: Option<Policy>, commits: seq<Commit>, cidr: string)
    requires NoStale(p)
    ensures NoStale(Sequentially(p, commits, cidr))
  {
    if commits != [] {
      var n := |commits| - 1;
      SequentiallyKeepsNoStale(p, commits[..n], cidr);
      NoStaleIsKept(commits[n].op, commits[n].service, Sequentially(p, commits[..n], cidr), cidr);
    }
  }

  /** Starting without a policy, or from any policy without stale ports, every port open at any time in
      any run is recorded for some service. */
  lemma NoStaleInAnyRun(w: World, events: seq<Event>, cidr: string)
    requires Coherent(w) && NoStale(PolicyOf(w.stored))
    ensures NoStale(PolicyOf(Run(w, events, cidr).stored))
  {
    RunsAreSequential(w, events, cidr);
    SequentiallyKeepsNoStale(PolicyOf(w.stored), Commits(w, events, cidr), cidr);
  }

  // ---------- exactness in every disciplined run ----------

  function Program(worker: Worker): seq<Op> {
    worker.done + worker.todo
  }

  /** What a run never changes. */
  lemma {:induction false} RunKeepsPrograms(w: World, events: seq<Event>, cidr: string)
    ensures
      var w' := Run(w, events, cidr);
      |w'.workers| == |w.workers| && forall i :: 0 <= i < |w.workers| ==>
        w'.workers[i].service == w.workers[i].service && Program(w'.workers[i]) == Program(w.workers[i])
  {
    if events != [] {
      RunKeepsPrograms(w, events[..|events| - 1], cidr);
      StepKeepsPrograms(Run(w, events[..|events| - 1], cidr), events[|events| - 1], cidr);
    }
  }

  lemma StepKeepsPrograms(w: World, e: Event, cidr: string)
    ensures
      var w' := Step(w, e, cidr);
      |w'.workers| == |w.workers| && forall i :: 0 <= i < |w.workers| ==>
        w'.workers[i].service == w.workers[i].service && Program(w'.workers[i]) == Program(w.workers[i])
  {
    if Enabled(w, e) {
      var me := w.workers[e.worker];
      assert me.todo == [me.todo[0]] + me.todo[1..];
      assert me.done + [me.todo[0]] + me.todo[1..] == me.done + me.todo;
    }
  }

  ghost predicate AllDisciplined(owner: PolicyPort -> string, w: World) {
    forall i, op :: 0 <= i < |w.workers| && op in Program(w.workers[i]) ==> Disciplined(owner, w.workers[i].service, op)
  }

  /** If every port is claimed under one annotation key only and no claim list repeats a port, then from
      no policy or any exact one, at any time in any run, the open ports are the duplicate-free union of
      the recorded claims. */
  lemma {:induction false} ExactInAnyDisciplinedRun(owner: PolicyPort -> string, w: World, events: seq<Event>, cidr: string)
    requires Coherent(w) && AllDisciplined(owner, w)
    requires Exact(PolicyOf(w.stored)) && Owned(owner, PolicyOf(w.stored))
    ensures Exact(PolicyOf(Run(w, events, cidr).stored)) && Owned(owner, PolicyOf(Run(w, events, cidr).stored))
  {
    if events != [] {
      var before := events[..|events| - 1];
      var e := events[|events| - 1];
      var u := Run(w, before, cidr);
      ExactInAnyDisciplinedRun(owner, w, before, cidr);
      RunsAreSequential(w, before, cidr);
      RunKeepsPrograms(w, before, cidr);
      StepIsAtomic(u, e, cidr);
      var c := Committed(u, e, cidr);
      if c != [] {
        assert c[..0] == [];
        assert c[0].op in Program(u.workers[e.worker]);
        DisciplineKeepsExact(owner, c[0].op, c[0].service, PolicyOf(u.stored), cidr);
      }
    }
  }

  // ---------- progress ----------

  /** How many calls of its own a worker is from concluding its operation. */
  function CallsLeft(w: World, i: nat): (calls: nat)
    requires i < |w.workers| && w.workers[i].todo != []
    ensures 1 <= calls <= 4
  {
    var op := w.workers[i].todo[0];
    match w.workers[i].phase
    case Start => if op.Upsert? && w.stored.Some? then 3 else 2
    case Creating => if w.stored.None? && op.Upsert? && op.want != [] then 1 else 4
    case Looping => if w.stored.Some? && !op.Drop? then 2 else 3
    case Holding(_, v) => if w.stored.None? || op.Drop? then 4 else if w.stored.value.version == v then 1 else 3
    case Deleting => if w.stored.Some? && op.Drop? then 1 else 4
  }

  ghost function RecordAt(stored: Option<Policy>, key: string): Option<Record> {
    if stored.Some? then Lookup(stored.value.annotations, key) else None
  }

  ghost predicate ReadableAt(stored: Option<Policy>, key: string) {
    RecordAt(stored, key).Some? ==> RecordAt(stored, key).value.Claims?
  }

  /** The workers can read their own records; what other annotations hold does not matter. */
  ghost predicate Readable(w: World) {
    forall i :: 0 <= i < |w.workers| ==> ReadableAt(PolicyOf(w.stored), AnnotationKey(w.workers[i].service))
  }

  /** A held copy is one the worker has something to write to. */
  ghost predicate HoldsEdits(w: World, cidr: string) {
    forall i :: 0 <= i < |w.workers| && w.workers[i].phase.Holding? ==>
      && w.workers[i].todo != []
      && Perform(w.workers[i].todo[0], w.workers[i].service, Some(w.workers[i].phase.base), cidr).Write?
  }

  ghost predicate Healthy(w: World, cidr: string) {
    Coherent(w) && Readable(w) && HoldsEdits(w, cidr)
  }

  lemma AfterIsReadable(op: Op, service: string, stored: Option<Policy>, cidr: string, key: string)
    requires ReadableAt(stored, key)
    ensures ReadableAt(After(op, service, stored, cidr), key)
  {
  }

  lemma StepKeepsReadable(w: World, e: Event, cidr: string)
    requires Coherent(w) && Readable(w)
    ensures Readable(Step(w, e, cidr))
  {
    var w' := Step(w, e, cidr);
    StepIsAtomic(w, e, cidr);
    StepKeepsPrograms(w, e, cidr);
    var c := Committed(w, e, cidr);
    forall i | 0 <= i < |w.workers|
      ensures ReadableAt(PolicyOf(w'.stored), AnnotationKey(w.workers[i].service))
    {
      if c != [] {
        assert c[..0] == [];
        AfterIsReadable(c[0].op, c[0].service, PolicyOf(w.stored), cidr, AnnotationKey(w.workers[i].service));
      }
    }
  }

  lemma StepKeepsHealthy(w: World, e: Event, cidr: string)
    requires Healthy(w, cidr)
    ensures Healthy(Step(w, e, cidr), cidr)
  {
    StepKeepsCoherent(w, e, cidr);
    StepKeepsReadable(w, e, cidr);
    StepKeepsHolding(w, e, cidr);
  }

  lemma StepKeepsHolding(w: World, e: Event, cidr: string)
    requires HoldsEdits(w, cidr)
    ensures HoldsEdits(Step(w, e, cidr), cidr)
  {
  }

  lemma {:induction false} RunKeepsHealthy(w: World, events: seq<Event>, cidr: string)
    requires Healthy(w, cidr)
    ensures Healthy(Run(w, events, cidr), cidr)
  {
    if events != [] {
      RunKeepsHealthy(w, events[..|events| - 1], cidr);
      StepKeepsHealthy(Run(w, events[..|events| - 1], cidr), events[|events| - 1], cidr);
    }
  }

  /** Undisturbed, each call of a worker concludes its operation or brings it closer. */
  lemma CallsGetCloser(w: World, i: nat, cidr: string)
    requires Healthy(w, cidr) && i < |w.workers| && w.workers[i].todo != []
    ensures
      var w' := Step(w, Act(i), cidr);
      && (forall j :: 0 <= j < |w.workers| && j != i ==> w'.workers[j] == w.workers[j])
      && (|| w'.workers[i].todo == w.workers[i].todo[1..]
          || (w'.workers[i].todo == w.workers[i].todo && CallsLeft(w', i) < CallsLeft(w, i)))
  {
    var me := w.workers[i];
    var r := ReplyTo(w, i, cidr);
    var w' := Step(w, Act(i), cidr);
    assert w'.workers[i] == if r.next.Finish? then Worker(me.service, me.done + [me.todo[0]], me.todo[1..], Start)
                            else me.(phase := r.next.phase);
  }

  /** Run `then` more events. */
  lemma {:induction false} RunExtends(w: World, a: seq<Event>, b: seq<Event>, cidr: string)
    ensures Run(w, a + b, cidr) == Run(Run(w, a, cidr), b, cidr)
  {
    if b == [] {
      assert a + b == a;
    } else {
      assert (a + b)[..|a + b| - 1] == a + b[..|b| - 1];
      RunExtends(w, a, b[..|b| - 1], cidr);
    }
  }

  lemma RunOne(w: World, e: Event, cidr: string)
    ensures Run(w, [e], cidr) == Step(w, e, cidr)
  {
    assert [e][..0] == [];
    assert Run(w, [], cidr) == w;
  }

  /** From any healthy world a worker can do all that is left to it, alone, in four calls an operation. */
  lemma FinishWorker(w: World, i: nat, cidr: string) returns (events: seq<Event>)
    requires Healthy(w, cidr) && i < |w.workers|
    ensures
      var w' := Run(w, events, cidr);
      && |w'.workers| == |w.workers| && w'.workers[i].todo == [] && Healthy(w', cidr)
      && forall j :: 0 <= j < |w.workers| && j != i ==> w'.workers[j] == w.workers[j]
    ensures |events| <= if w.workers[i].todo == [] then 0 else CallsLeft(w, i) + 4 * (|w.workers[i].todo| - 1)
    decreases |w.workers[i].todo|, if w.workers[i].todo == [] then 0 else CallsLeft(w, i)
  {
    if w.workers[i].todo == [] {
      return [];
    }
    var w' := Step(w, Act(i), cidr);
    CallsGetCloser(w, i, cidr);
    StepKeepsHealthy(w, Act(i), cidr);
    StepKeepsPrograms(w, Act(i), cidr);
    var rest := FinishWorker(w', i, cidr);
    events := [Act(i)] + rest;
    RunOne(w, Act(i), cidr);
    RunExtends(w, [Act(i)], rest, cidr);
  }

  lemma {:induction false} FinishFirst(w: World, n: nat, cidr: string) returns (events: seq<Event>)
    requires Healthy(w, cidr) && n <= |w.workers|
    ensures
      var w' := Run(w, events, cidr);
      |w'.workers| == |w.workers| && Healthy(w', cidr) && forall j :: 0 <= j < n ==> w'.workers[j].todo == []
  {
    if n == 0 {
      return [];
    }
    var before := FinishFirst(w, n - 1, cidr);
    var more := FinishWorker(Run(w, before, cidr), n - 1, cidr);
    events := before + more;
    RunExtends(w, before, more, cidr);
  }

  /** No run is ever stuck: whatever happened, with whatever interleaving and failures, it can be
      continued until every operation of every worker is concluded. */
  lemma EveryRunCanFinish(w: World, events: seq<Event>, cidr: string)
    requires Begins(w) && Readable(w)
    ensures exists more :: AllDone(Run(w, events + more, cidr))
  {
    RunKeepsHealthy(w, events, cidr);
    RunKeepsPrograms(w, events, cidr);
    var u := Run(w, events, cidr);
    var more := FinishFirst(u, |u.workers|, cidr);
    RunExtends(w, events, more, cidr);
    assert AllDone(Run(w, events + more, cidr));
  }

  // ---------- confluence ----------

  /** What one service's own history alone leaves in its record. */
  function TrackStep(r: Option<seq<ExposedPort>>, op: Op): Option<seq<ExposedPort>> {
    match op
    case Upsert(want) => if r.None? && want == [] then None else Some(want)
    case _ => None
  }

  function Track(r: Option<seq<ExposedPort>>, ops: seq<Op>): Option<seq<ExposedPort>> {
    if ops == [] then r else TrackStep(Track(r, ops[..|ops| - 1]), ops[|ops| - 1])
  }

  /** An upsert of a service with this record writes, and thereby sets the CIDR. */
  predicate WritesClaim(r: Option<seq<ExposedPort>>, op: Op) {
    op.Upsert? && (r.Some? || op.want != [])
  }

  /** Some upsert of the history writes. */
  predicate Wrote(r: Option<seq<ExposedPort>>, ops: seq<Op>) {
    ops != [] && (Wrote(r, ops[..|ops| - 1]) || WritesClaim(Track(r, ops[..|ops| - 1]), ops[|ops| - 1]))
  }

  lemma {:induction false} WroteEarlier(r: Option<seq<ExposedPort>>, a: seq<Op>, b: seq<Op>)
    requires Wrote(r, a)
    ensures Wrote(r, a + b)
  {
    if b == [] {
      assert a + b == a;
    } else {
      assert (a + b)[..|a + b| - 1] == a + b[..|b| - 1];
      WroteEarlier(r, a, b[..|b| - 1]);
    }
  }

  ghost function ClaimsOf(stored: Option<Policy>, key: string): Option<seq<ExposedPort>> {
    if RecordAt(stored, key).Some? && RecordAt(stored, key).value.Claims? then Some(RecordAt(stored, key).value.ports) else None
  }

  lemma AfterTracks(op: Op, service: string, stored: Option<Policy>, cidr: string, key: string)
    requires ReadableAt(stored, AnnotationKey(service)) && !op.Drop?
    ensures key != AnnotationKey(service) ==> RecordAt(After(op, service, stored, cidr), key) == RecordAt(stored, key)
    ensures key == AnnotationKey(service) ==>
      ClaimsOf(After(op, service, stored, cidr), key) == TrackStep(ClaimsOf(stored, key), op)
  {
  }

  lemma AfterHeader(op: Op, service: string, stored: Option<Policy>, cidr: string)
    requires ReadableAt(stored, AnnotationKey(service)) && !op.Drop?
    ensures
      var p := After(op, service, stored, cidr);
      if WritesClaim(ClaimsOf(stored, AnnotationKey(service)), op) then p.Some? && p.value.cidr == cidr
      else p.Some? == stored.Some? && (p.Some? ==> p.value.cidr == stored.value.cidr)
  {
  }

  lemma AfterKeepsNormal(op: Op, service: string, stored: Option<Policy>, cidr: string)
    requires stored.Some? ==> AllNormal(stored.value.ports)
    ensures
      var p := After(op, service, stored, cidr);
      p.Some? ==> AllNormal(p.value.ports)
  {
    match op
    case Upsert(want) =>
      OpenedOfConverted(want);
      if stored.Some? && Update(stored.value, service, want, cidr).Write? && AnnotationKey(service) in stored.value.annotations {
        var dropped := Difference(stored.value.annotations[AnnotationKey(service)].ports, want);
        WithoutKeepsNormal(stored.value.ports, dropped);
        WithKeepsNormal(Without(stored.value.ports, dropped), want);
      }
    case Remove =>
      if stored.Some? && Release(stored.value, service).Write? {
        WithoutKeepsNormal(stored.value.ports, stored.value.annotations[AnnotationKey(service)].ports);
      }
    case Drop =>
  }

  lemma WithoutKeepsNormal(ports: seq<PolicyPort>, claims: seq<ExposedPort>)
    requires AllNormal(ports)
    ensures AllNormal(Without(ports, claims))
  {
    forall p | p in Without(ports, claims)
      ensures p in ports
    {
      assert p in multiset(Without(ports, claims));
      WithoutFilters(ports, claims, p);
      assert p in multiset(ports);
    }
  }

  ghost predicate KeyOf(w: World, i: int, key: string) {
    0 <= i < |w.workers| && AnnotationKey(w.workers[i].service) == key
  }

  ghost predicate SeparateKeys(w: World) {
    forall i, j, key :: KeyOf(w, i, key) && KeyOf(w, j, key) ==> i == j
  }

  ghost predicate NeverDrops(w: World) {
    forall i :: 0 <= i < |w.workers| ==> Drop !in Program(w.workers[i])
  }

  /** The record a worker's service starts with. */
  ghost function Initially(me: Worker, start: Option<Policy>): Option<seq<ExposedPort>> {
    ClaimsOf(start, AnnotationKey(me.service))
  }

  /** Some worker's history writes. */
  ghost predicate WritesSome(w: World, start: Option<Policy>) {
    exists i :: 0 <= i < |w.workers| && Wrote(Initially(w.workers[i], start), Program(w.workers[i]))
  }

  /** A worker's record is what its concluded operations leave, the one in flight perhaps included. */
  ghost predicate Tracked(me: Worker, r: Option<seq<ExposedPort>>, claims: Option<seq<ExposedPort>>) {
    claims == Track(r, me.done) || (me.todo != [] && claims == TrackStep(Track(r, me.done), me.todo[0]))
  }

  /** Workers' records are tracked and readable; all other annotations are those of the start. */
  ghost predicate RecordsAccounted(w: World, start: Option<Policy>) {
    var p := PolicyOf(w.stored);
    && Readable(w)
    && (forall i :: 0 <= i < |w.workers| ==>
          Tracked(w.workers[i], Initially(w.workers[i], start), ClaimsOf(p, AnnotationKey(w.workers[i].service))))
    && (forall key :: (forall i :: !KeyOf(w, i, key)) ==> RecordAt(p, key) == RecordAt(start, key))
  }

  /** The policy is there with the workers' CIDR once one of them wrote, and as at the start if none ever does. */
  ghost predicate HeaderAccounted(w: World, start: Option<Policy>, cidr: string) {
    var p := PolicyOf(w.stored);
    && (forall i :: 0 <= i < |w.workers| && Wrote(Initially(w.workers[i], start), w.workers[i].done) ==> p.Some? && p.value.cidr == cidr)
    && (!WritesSome(w, start) ==> p.Some? == start.Some? && (p.Some? ==> p.value.cidr == start.value.cidr))
    && (p.Some? ==> AllNormal(p.value.ports))
  }

  ghost predicate Accounted(w: World, start: Option<Policy>, cidr: string) {
    RecordsAccounted(w, start) && HeaderAccounted(w, start, cidr)
  }

  ghost predicate SameHistory(a: Worker, b: Worker) {
    a.service == b.service && a.done == b.done && a.todo == b.todo
  }

  ghost predicate MovesOn(a: Worker, b: Worker) {
    a.service == b.service && a.todo != [] && b.done == a.done + [a.todo[0]] && b.todo == a.todo[1..]
  }

  /** Worker `i` may move on to its next operation; nothing else changes any history. */
  ghost predicate Advances(w: World, w': World, i: nat) {
    && |w'.workers| == |w.workers|
    && forall j :: 0 <= j < |w.workers| ==>
      SameHistory(w.workers[j], w'.workers[j]) || (j == i && MovesOn(w.workers[j], w'.workers[j]))
  }

  lemma StepAdvances(w: World, e: Event, cidr: string)
    ensures Advances(w, Step(w, e, cidr), e.worker)
    ensures Committed(w, e, cidr) == [] ==>
      forall j :: 0 <= j < |w.workers| ==> SameHistory(w.workers[j], Step(w, e, cidr).workers[j])
  {
  }

  /** Worker `i` concludes its operation in the step from `w` to `w'`. */
  ghost predicate Concludes(w: World, w': World, i: nat, cidr: string) {
    && Advances(w, w', i) && i < |w.workers| && w.workers[i].todo != [] && !w.workers[i].todo[0].Drop?
    && PolicyOf(w'.stored) == After(w.workers[i].todo[0], w.workers[i].service, PolicyOf(w.stored), cidr)
  }

  lemma ConclusionKeepsRecords(w: World, w': World, i: nat, start: Option<Policy>, cidr: string)
    requires SeparateKeys(w) && RecordsAccounted(w, start) && Concludes(w, w', i, cidr) && Readable(w')
    ensures RecordsAccounted(w', start)
  {
    var me := w.workers[i];
    var op, own := me.todo[0], AnnotationKey(me.service);
    forall j | 0 <= j < |w.workers|
      ensures Tracked(w'.workers[j], Initially(w'.workers[j], start), ClaimsOf(PolicyOf(w'.stored), AnnotationKey(w'.workers[j].service)))
    {
      AfterTracks(op, me.service, PolicyOf(w.stored), cidr, AnnotationKey(w.workers[j].service));
      assert KeyOf(w, i, own) && KeyOf(w, j, AnnotationKey(w.workers[j].service));
      if j == i {
        assert (me.done + [op])[..|me.done|] == me.done;
      }
    }
    forall key | forall j :: !KeyOf(w', j, key)
      ensures RecordAt(PolicyOf(w'.stored), key) == RecordAt(start, key)
    {
      assert forall j :: KeyOf(w, j, key) ==> KeyOf(w', j, key);
      assert KeyOf(w', i, own);
      AfterTracks(op, me.service, PolicyOf(w.stored), cidr, key);
    }
  }

  /** The operation in flight writes iff it writes on the tracked record, done once already or not. */
  lemma TrackedWrites(me: Worker, r0: Option<seq<ExposedPort>>, r: Option<seq<ExposedPort>>)
    requires me.todo != [] && Tracked(me, r0, r)
    ensures Wrote(r0, me.done + [me.todo[0]]) <==> Wrote(r0, me.done) || WritesClaim(r, me.todo[0])
    ensures WritesClaim(r, me.todo[0]) ==> Wrote(r0, Program(me))
  {
    var op := me.todo[0];
    assert (me.done + [op])[..|me.done|] == me.done;
    assert WritesClaim(r, op) <==> WritesClaim(Track(r0, me.done), op);
    if WritesClaim(r, op) {
      WroteEarlier(r0, me.done + [op], me.todo[1..]);
      assert me.done + [op] + me.todo[1..] == Program(me);
    }
  }

  lemma ConclusionKeepsHeader(w: World, w': World, i: nat, start: Option<Policy>, cidr: string)
    requires Accounted(w, start, cidr) && Concludes(w, w', i, cidr)
    requires WritesSome(w, start) <==> WritesSome(w', start)
    ensures HeaderAccounted(w', start, cidr)
  {
    var me := w.workers[i];
    var op, p := me.todo[0], PolicyOf(w.stored);
    var r := ClaimsOf(p, AnnotationKey(me.service));
    TrackedWrites(me, Initially(me, start), r);
    assert WritesClaim(r, op) ==> WritesSome(w, start);
    AfterHeader(op, me.service, p, cidr);
    AfterKeepsNormal(op, me.service, p, cidr);
    forall j | 0 <= j < |w.workers| && Wrote(Initially(w'.workers[j], start), w'.workers[j].done)
      ensures WritesClaim(r, op) || (p.Some? && p.value.cidr == cidr)
    {
      if SameHistory(w.workers[j], w'.workers[j]) {
        assert Wrote(Initially(w.workers[j], start), w.workers[j].done);
      }
    }
  }

  lemma StutterKeepsAccounted(w: World, w': World, start: Option<Policy>, cidr: string)
    requires Accounted(w, start, cidr) && PolicyOf(w'.stored) == PolicyOf(w.stored)
    requires |w'.workers| == |w.workers|
    requires forall j :: 0 <= j < |w.workers| ==> SameHistory(w.workers[j], w'.workers[j])
    requires WritesSome(w, start) <==> WritesSome(w', start)
    ensures Accounted(w', start, cidr)
  {
    assert forall key, j :: KeyOf(w, j, key) <==> KeyOf(w', j, key);
  }

  lemma WritesSomeByPrograms(w: World, w': World, start: Option<Policy>)
    requires |w'.workers| == |w.workers|
    requires forall j :: 0 <= j < |w.workers| ==>
      w'.workers[j].service == w.workers[j].service && Program(w'.workers[j]) == Program(w.workers[j])
    ensures WritesSome(w, start) <==> WritesSome(w', start)
  {
    assert forall j :: 0 <= j < |w.workers| ==>
      Wrote(Initially(w'.workers[j], start), Program(w'.workers[j])) == Wrote(Initially(w.workers[j], start), Program(w.workers[j]));
  }

  /** One event keeps the account of every worker. */
  lemma StepKeepsAccounted(w: World, e: Event, start: Option<Policy>, cidr: string)
    requires Coherent(w) && SeparateKeys(w) && NeverDrops(w) && Accounted(w, start, cidr)
    ensures Accounted(Step(w, e, cidr), start, cidr)
  {
    var w' := Step(w, e, cidr);
    StepIsAtomic(w, e, cidr);
    StepAdvances(w, e, cidr);
    StepKeepsPrograms(w, e, cidr);
    StepKeepsReadable(w, e, cidr);
    WritesSomeByPrograms(w, w', start);
    var c := Committed(w, e, cidr);
    if c == [] {
      StutterKeepsAccounted(w, w', start, cidr);
    } else {
      assert c[..0] == [];
      assert c[0].op in Program(w.workers[e.worker]);
      ConclusionKeepsRecords(w, w', e.worker, start, cidr);
      ConclusionKeepsHeader(w, w', e.worker, start, cidr);
    }
  }

  /** Runs that confluence is about: any start the API server admits, one worker per annotation key,
      and no deletion of the policy. */
  ghost predicate Tame(w: World) {
    && Begins(w) && Readable(w) && SeparateKeys(w) && NeverDrops(w)
    && (w.stored.Some? ==> AllNormal(w.stored.value.policy.ports))
  }

  lemma {:induction false} RunKeepsAccounted(w: World, events: seq<Event>, cidr: string)
    requires Tame(w)
    ensures Accounted(Run(w, events, cidr), PolicyOf(w.stored), cidr)
  {
    if events != [] {
      var before := events[..|events| - 1];
      var u := Run(w, before, cidr);
      RunKeepsAccounted(w, before, cidr);
      RunsAreSequential(w, before, cidr);
      RunKeepsPrograms(w, before, cidr);
      assert SeparateKeys(u) by {
        assert forall i, key :: KeyOf(u, i, key) ==> KeyOf(w, i, key);
      }
      StepKeepsAccounted(u, events[|events| - 1], PolicyOf(w.stored), cidr);
    }
  }

  ghost predicate AllDone(w: World) {
    forall i :: 0 <= i < |w.workers| ==> w.workers[i].todo == []
  }

  /** Both absent, or the same annotations, the same CIDR and the same ports in some order. */
  ghost predicate SameLedger(a: Option<Policy>, b: Option<Policy>) {
    (a.None? && b.None?) ||
    (a.Some? && b.Some? && a.value.annotations == b.value.annotations && a.value.cidr == b.value.cidr
     && multiset(a.value.ports) == multiset(b.value.ports))
  }

  /** At the end of a run every record is what its service's own history leaves, from its record at the
      start; every other annotation is as at the start. */
  lemma FinalRecords(w: World, events: seq<Event>, cidr: string, key: string)
    requires Tame(w) && AllDone(Run(w, events, cidr))
    ensures
      var start, end := PolicyOf(w.stored), PolicyOf(Run(w, events, cidr).stored);
      && (forall i :: KeyOf(w, i, key) ==>
            ReadableAt(end, key) && ClaimsOf(end, key) == Track(ClaimsOf(start, key), w.workers[i].todo))
      && ((forall i :: !KeyOf(w, i, key)) ==> RecordAt(end, key) == RecordAt(start, key))
  {
    var u := Run(w, events, cidr);
    RunKeepsAccounted(w, events, cidr);
    RunKeepsPrograms(w, events, cidr);
    assert forall i :: KeyOf(u, i, key) <==> KeyOf(w, i, key);
    forall i | KeyOf(w, i, key)
      ensures ReadableAt(PolicyOf(u.stored), key)
      ensures ClaimsOf(PolicyOf(u.stored), key) == Track(ClaimsOf(PolicyOf(w.stored), key), w.workers[i].todo)
    {
      assert Program(u.workers[i]) == u.workers[i].done;
      assert Program(w.workers[i]) == w.workers[i].todo;
    }
  }

  /** At the end of a run the policy exists with the workers' CIDR iff some history wrote; else it is
      there, with its CIDR, as at the start. */
  lemma FinalHeader(w: World, events: seq<Event>, cidr: string)
    requires Tame(w) && AllDone(Run(w, events, cidr))
    ensures
      var start, end := PolicyOf(w.stored), PolicyOf(Run(w, events, cidr).stored);
      if WritesSome(w, start) then end.Some? && end.value.cidr == cidr
      else end.Some? == start.Some? && (end.Some? ==> end.value.cidr == start.value.cidr)
  {
    var u, start := Run(w, events, cidr), PolicyOf(w.stored);
    RunKeepsAccounted(w, events, cidr);
    RunKeepsPrograms(w, events, cidr);
    WritesSomeByPrograms(w, u, start);
    if WritesSome(u, start) {
      var i :| 0 <= i < |u.workers| && Wrote(Initially(u.workers[i], start), Program(u.workers[i]));
      assert Program(u.workers[i]) == u.workers[i].done;
    }
  }

  lemma RecordsAgree(w: World, es: seq<Event>, fs: seq<Event>, cidr: string, key: string)
    requires Tame(w) && AllDone(Run(w, es, cidr)) && AllDone(Run(w, fs, cidr))
    ensures RecordAt(PolicyOf(Run(w, es, cidr).stored), key) == RecordAt(PolicyOf(Run(w, fs, cidr).stored), key)
  {
    FinalRecords(w, es, cidr, key);
    FinalRecords(w, fs, cidr, key);
    if i :| KeyOf(w, i, key) {
      var x, y := PolicyOf(Run(w, es, cidr).stored), PolicyOf(Run(w, fs, cidr).stored);
      assert ClaimsOf(x, key) == ClaimsOf(y, key);
    }
  }

  lemma SameAnnotations(a: Policy, b: Policy)
    requires forall key :: RecordAt(Some(a), key) == RecordAt(Some(b), key)
    ensures a.annotations == b.annotations
  {
    forall key
      ensures key in a.annotations <==> key in b.annotations
      ensures key in a.annotations ==> a.annotations[key] == b.annotations[key]
    {
      assert RecordAt(Some(a), key) == RecordAt(Some(b), key);
    }
  }

  lemma {:induction false} DistinctNormalPorts(a: seq<PolicyPort>, p: PolicyPort)
    requires Distinct(a) && AllNormal(a)
    ensures multiset(a)[p] == if p in Opened(a) then 1 else 0
  {
    if a != [] {
      var n := |a| - 1;
      assert a == a[..n] + [a[n]];
      DistinctNormalPorts(a[..n], p);
      OpenedOfAppend(a[..n], [a[n]]);
      assert Opened([a[n]]) == {a[n]} by {
        assert a[n] in a;
        assert Normal(a[n]) == a[n];
      }
      forall q | q in a[..n]
        ensures Normal(q) != Normal(a[n])
      {
      }
    }
  }

  /** Policies with the same records, each exact and normal, have the same ports up to order. */
  lemma SamePorts(a: Policy, b: Policy)
    requires a.annotations == b.annotations && Exact(Some(a)) && Exact(Some(b))
    requires AllNormal(a.ports) && AllNormal(b.ports)
    ensures multiset(a.ports) == multiset(b.ports)
  {
    assert Recorded(a) == Recorded(b) by {
      assert forall k :: RecordedFor(a, k) == RecordedFor(b, k);
    }
    forall p: PolicyPort
      ensures multiset(a.ports)[p] == multiset(b.ports)[p]
    {
      DistinctNormalPorts(a.ports, p);
      DistinctNormalPorts(b.ports, p);
    }
  }

  /** With globally disjoint claims and no deletion of the policy, any two interleavings of the same
      per-service histories, from no policy or any exact one, end in the same ledger. */
  lemma Confluence(owner: PolicyPort -> string, w: World, es: seq<Event>, fs: seq<Event>, cidr: string)
    requires Tame(w) && AllDisciplined(owner, w)
    requires Exact(PolicyOf(w.stored)) && Owned(owner, PolicyOf(w.stored))
    requires AllDone(Run(w, es, cidr)) && AllDone(Run(w, fs, cidr))
    ensures SameLedger(PolicyOf(Run(w, es, cidr).stored), PolicyOf(Run(w, fs, cidr).stored))
  {
    FinalHeader(w, es, cidr);
    FinalHeader(w, fs, cidr);
    var x, y := PolicyOf(Run(w, es, cidr).stored), PolicyOf(Run(w, fs, cidr).stored);
    if x.Some? {
      var a, b := x.value, y.value;
      forall key
        ensures RecordAt(x, key) == RecordAt(y, key)
      {
        RecordsAgree(w, es, fs, cidr, key);
      }
      SameAnnotations(a, b);
      ExactInAnyDisciplinedRun(owner, w, es, cidr);
      ExactInAnyDisciplinedRun(owner, w, fs, cidr);
      RunKeepsAccounted(w, es, cidr);
      RunKeepsAccounted(w, fs, cidr);
      SamePorts(a, b);
    }
  }
}
