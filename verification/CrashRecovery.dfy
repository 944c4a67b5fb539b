/** A crash loses the cache and the writer's pending view; the change log is then replayed from the start. */
module CrashRecovery {
  import opened Wrappers
  import opened Store
  import opened Engine
  import opened EngineRuns

  // ------------------------------------------------------------------------
  // Logs whose documents outlive the prunes
  // ------------------------------------------------------------------------

  /** Documents of ids that the log upserts do not expire by `until`. */
  predicate Lasting(m: Documents, log: seq<IndexOperation>, until: int) {
    forall op :: op in log && op.kind.Upsert? && op.id in m ==> m[op.id].expiresAt > until
  }

  /** Nothing the log writes, and nothing it writes onto, expires by `until`. */
  predicate Outlives(index: Documents, log: seq<IndexOperation>, until: int) {
    Lasting(index, log, until) &&
    forall op :: op in log && op.kind.Upsert? ==> ExpiresAt(op.writetime, op.ttl) > until
  }

  lemma ApplyUnexpired(m: Documents, op: IndexOperation, log: seq<IndexOperation>, until: int)
    requires Outlives(m, log, until) && op in log
    ensures Outlives(Apply(m, op), log, until)
    ensures Unexpired(Apply(m, op), until) == Apply(Unexpired(m, until), op)
  {
    assert Unexpired(Apply(m, op), until).Keys == Apply(Unexpired(m, until), op).Keys;
  }

  lemma {:induction false} ApplyAllUnexpired(
      m: Documents, ops: seq<IndexOperation>, log: seq<IndexOperation>, until: int)
    requires Outlives(m, log, until) && forall op :: op in ops ==> op in log
    ensures Outlives(ApplyAll(m, ops), log, until)
    ensures Unexpired(ApplyAll(m, ops), until) == ApplyAll(Unexpired(m, until), ops)
    decreases |ops|
  {
    if ops != [] {
      assert ops[0] in ops;
      ApplyUnexpired(m, ops[0], log, until);
      ApplyAllUnexpired(Apply(m, ops[0]), ops[1..], log, until);
    }
  }

  // ------------------------------------------------------------------------
  // What is published
  // ------------------------------------------------------------------------

  /** Batches that end normally, commits with either outcome, and prunes with any outcome no later than `until`. */
  predicate Calm(steps: seq<Step>, until: int) {
    forall i :: 0 <= i < |steps| ==>
      match steps[i]
      case BatchStep(_, fault) => fault.None?
      case CommitStep(_) => true
      case PruneStep(now, _) => now <= until
      case RestartStep => false
  }

  /** Of what does not expire by `until`, the documents hold the first `n` operations of the log. */
  predicate HoldsPrefix(m: Documents, index: Documents, log: seq<IndexOperation>, n: nat, until: int)
    requires n <= |log|
  {
    Outlives(m, log, until) && Unexpired(m, until) == ApplyAll(Unexpired(index, until), log[..n])
  }

  lemma PruneHoldsPrefix(m: Documents, index: Documents, log: seq<IndexOperation>, n: nat, until: int, now: int)
    requires n <= |log| && HoldsPrefix(m, index, log, n, until) && now <= until
    ensures HoldsPrefix(Unexpired(m, now), index, log, n, until)
  {
    assert Unexpired(Unexpired(m, now), until) == Unexpired(m, until);
  }

  lemma BatchHoldsPrefix(
      m: Documents, index: Documents, log: seq<IndexOperation>, n: nat, until: int, ops: seq<IndexOperation>)
    requires n + |ops| <= |log| && log[n..n + |ops|] == ops && HoldsPrefix(m, index, log, n, until)
    ensures HoldsPrefix(ApplyAll(m, ops), index, log, n + |ops|, until)
  {
    assert log[..n] + ops == log[..n + |ops|];
    ApplyAllAppend(Unexpired(index, until), log[..n], ops);
    ApplyAllUnexpired(m, ops, log, until);
  }

  /** The current documents hold `done` operations, the published ones `cut`. */
  predicate SpecHoldsPrefixes(
      r: Spec, index: Documents, log: seq<IndexOperation>, cut: nat, done: nat, until: int)
  {
    cut <= done <= |log| &&
    HoldsPrefix(r.current, index, log, done, until) && HoldsPrefix(r.published, index, log, cut, until)
  }

  lemma StepHoldsPrefixes(
      r: Spec, step: Step, index: Documents, log: seq<IndexOperation>, cut: nat, done: nat, m: nat, until: int)
      returns (end: nat)
    requires Calm([step], until) && SpecHoldsPrefixes(r, index, log, cut, done, until) && done <= m <= |log|
    requires log[done..m] == if step.BatchStep? then step.ops else []
    ensures SpecHoldsPrefixes(SpecAfter(r, step), index, log, end, m, until)
  {
    assert [step][0] == step;
    end := cut;
    match step
    case BatchStep(ops, _) => BatchHoldsPrefix(r.current, index, log, done, until, ops);
    case CommitStep(ok) => end := if ok then done else cut;
    case PruneStep(now, outcome) =>
      PruneHoldsPrefix(r.current, index, log, done, until, now);
      end := if outcome.Pruned? then done else cut;
  }

  lemma TailOfLog(log: seq<IndexOperation>, n: nat, ops: seq<IndexOperation>, rest: seq<IndexOperation>)
    requires n <= |log| && ops + rest <= log[n..]
    ensures n + |ops| <= |log| && log[n..n + |ops|] == ops && rest <= log[n + |ops|..]
  {
    assert log[n..][..|ops|] == ops && log[n..][|ops|..] == log[n + |ops|..];
    assert log[n..][..|ops + rest|] == ops + rest && log[n..][|ops|..|ops + rest|] == rest;
  }

  lemma {:induction false} PublishedIsPrefix(
      index: Documents, log: seq<IndexOperation>, done: nat, cut: nat, steps: seq<Step>, until: int, r: Spec)
      returns (end: nat)
    requires Calm(steps, until) && SpecHoldsPrefixes(r, index, log, cut, done, until) && OpsOf(steps) <= log[done..]
    ensures SpecHoldsPrefixes(SpecRun(r, steps), index, log, end, done + |OpsOf(steps)|, until)
    decreases |steps|
  {
    if steps == [] {
      end := cut;
    } else {
      var ops := if steps[0].BatchStep? then steps[0].ops else [];
      TailOfLog(log, done, ops, OpsOf(steps[1..]));
      end := StepHoldsPrefixes(r, steps[0], index, log, cut, done, done + |ops|, until);
      end := PublishedIsPrefix(index, log, done + |ops|, end, steps[1..], until, SpecAfter(r, steps[0]));
    }
  }

  /**
   * While a process works through the log from its beginning, the index holds a prefix of the operations
   * done and the writer's view all of them, apart from what expires by the last prune.
   */
  lemma IndexIsPrefix(
      index: Documents, steps: seq<Step>, log: seq<IndexOperation>, until: int, schema: Schema) returns (end: nat)
    requires Calm(steps, until) && OpsOf(steps) <= log && Outlives(index, log, until)
    requires CoherentRun(Opened(index), steps, schema)
    ensures end <= |OpsOf(steps)|
    ensures HoldsPrefix(Run(Opened(index), steps, schema).committed, index, log, end, until)
    ensures HoldsPrefix(Run(Opened(index), steps, schema).pending, index, log, |OpsOf(steps)|, until)
  {
    OpenedAgrees(index, schema);
    RunRefinesSpec(Opened(index), steps, schema);
    assert log[..0] == [] && log[0..] == log;
    end := PublishedIsPrefix(index, log, 0, 0, steps, until, Spec(index, index));
  }

  // ------------------------------------------------------------------------
  // Crash and replay
  // ------------------------------------------------------------------------

  /** What a process that dies after these steps finds when it comes back. */
  function Survived(index: Documents, steps: seq<Step>, schema: Schema): Documents {
    Run(Opened(index), steps, schema).committed
  }

  /**
   * A crash at any point between steps, followed by a replay of every operation in whatever batches and
   * between whatever commits and prunes, leaves what an uninterrupted node would hold, apart from what
   * expires by the last prune.
   */
  lemma CrashAndReplay(
      index: Documents, steps: seq<Step>, replay: seq<Step>, until: int, schema: Schema, partition: string -> string)
    requires Calm(steps, until) && Calm(replay, until) && OpsOf(replay) == OpsOf(steps)
    requires Outlives(index, OpsOf(steps), until)
    requires WellKeyed(OpsOf(steps), partition) && KeyedDocs(index, partition)
    requires CoherentRun(Opened(index), steps, schema)
    requires CoherentRun(Opened(Survived(index, steps, schema)), replay, schema)
    ensures var replayed := Run(Opened(Survived(index, steps, schema)), replay, schema).pending;
            Unexpired(replayed, until) == ApplyAll(Unexpired(index, until), OpsOf(steps)) &&
            Unexpired(replayed, until) == Unexpired(Run(Opened(index), steps, schema).pending, until)
  {
    var log := OpsOf(steps);
    var end := IndexIsPrefix(index, steps, log, until, schema);
    var _ := IndexIsPrefix(Survived(index, steps, schema), replay, log, until, schema);
    assert log[..|log|] == log;
    PrefixThenBatch(Unexpired(index, until), log, end, partition);
  }

  /** Without prunes nothing is set apart. */
  lemma CrashAndReplayWithoutPrunes(
      index: Documents, steps: seq<Step>, replay: seq<Step>, schema: Schema, partition: string -> string)
    requires Calm(steps, NEVER_PRUNED) && Calm(replay, NEVER_PRUNED) && OpsOf(replay) == OpsOf(steps)
    requires WellKeyed(OpsOf(steps), partition) && KeyedDocs(index, partition)
    requires CoherentRun(Opened(index), steps, schema)
    requires CoherentRun(Opened(Survived(index, steps, schema)), replay, schema)
    ensures Run(Opened(Survived(index, steps, schema)), replay, schema).pending == ApplyAll(index, OpsOf(steps))
  {
    CrashAndReplay(index, steps, replay, NEVER_PRUNED, schema, partition);
    NothingExpired(index);
    NothingExpired(Run(Opened(Survived(index, steps, schema)), replay, schema).pending);
  }

  lemma {:induction false} CurrentIsApplied(r: Spec, steps: seq<Step>)
    requires Calm(steps, NEVER_PRUNED)
    ensures SpecRun(r, steps).current == ApplyAll(r.current, OpsOf(steps))
    decreases |steps|
  {
    if steps != [] {
      CurrentIsApplied(SpecAfter(r, steps[0]), steps[1..]);
      if steps[0].BatchStep? {
        ApplyAllAppend(r.current, steps[0].ops, OpsOf(steps[1..]));
      } else {
        assert [] + OpsOf(steps[1..]) == OpsOf(steps[1..]);
      }
    }
  }

  lemma NothingExpired(m: Documents)
    ensures Unexpired(m, NEVER_PRUNED) == m
  {
  }

  // ------------------------------------------------------------------------
  // Logs that never reuse a removed id
  // ------------------------------------------------------------------------

  /** The operation can remove the document of the id. */
  predicate Removes(op: IndexOperation, id: string, partition: string -> string) {
    (op.kind.Delete? && op.id == id) || (op.kind.PartitionDelete? && PartitionOf(op) == partition(id))
  }

  /** No upsert comes after an operation that can remove its id. */
  predicate NeverReuses(log: seq<IndexOperation>, partition: string -> string) {
    forall i, j :: 0 <= i < j < |log| && log[j].kind.Upsert? ==> !Removes(log[i], log[j].id, partition)
  }

  /**
   * After the first `n` operations of the log: whatever counts as deleted was removed by one of them, no
   * document was lost, and no prune has come late enough to find expired what the log writes onto.
   */
  ghost predicate Clean(
      s: State, log: seq<IndexOperation>, n: nat, until: int, partition: string -> string) {
    n <= |log| && KeyedState(s, partition) &&
    s.unwritten == {} && s.prunedTo <= until && Outlives(s.committed, log, until) &&
    (forall op :: op in log && op.kind.Upsert? && op.id in s.cache ==> s.cache[op.id].doc.expiresAt > until) &&
    (forall id :: id in s.deleted ==> exists i :: 0 <= i < n && Removes(log[i], id, partition))
  }

  lemma WriteStaysClean(
      s: State, log: seq<IndexOperation>, n: nat, until: int, schema: Schema, partition: string -> string)
    requires n < |log| && Clean(s, log, n, until, partition) && WellKeyed(log, partition)
    ensures Clean(Write(s, log[n], schema), log, n + 1, until, partition)
  {
    var s' := Write(s, log[n], schema);
    assert log[n] in log;
    forall id | id in s'.deleted
      ensures exists i :: 0 <= i < n + 1 && Removes(log[i], id, partition)
    {
      if id in s.deleted {
        var i :| 0 <= i < n && Removes(log[i], id, partition);
        assert 0 <= i < n + 1;
      } else {
        assert Removes(log[n], id, partition);
      }
    }
  }

  lemma {:induction false} CleanBatchAvoidsRemains(
      s: State, ops: seq<IndexOperation>, log: seq<IndexOperation>, n: nat, until: int, schema: Schema,
      partition: string -> string)
    requires Clean(s, log, n, until, partition) && WellKeyed(log, partition) && NeverReuses(log, partition)
    requires n + |ops| <= |log| && log[n..n + |ops|] == ops
    ensures AvoidsRemainsBatch(s, ops, schema)
    ensures Clean(WriteAll(s, ops, schema), log, n + |ops|, until, partition)
    decreases |ops|
  {
    if ops != [] {
      assert ops[0] == log[n] && log[n] in log;
      assert ops[1..] == log[n + 1..n + 1 + |ops[1..]|];
      WriteStaysClean(s, log, n, until, schema, partition);
      CleanBatchAvoidsRemains(Write(s, ops[0], schema), ops[1..], log, n + 1, until, schema, partition);
    }
  }

  lemma CommitStaysClean(
      s: State, ok: bool, log: seq<IndexOperation>, n: nat, until: int, partition: string -> string)
    requires Clean(s, log, n, until, partition) && Outlives(s.pending, log, until)
    ensures Clean(Commit(s, ok), log, n, until, partition) && Outlives(Commit(s, ok).pending, log, until)
  {
  }

  lemma PruneStaysClean(
      s: State, now: I64, outcome: PruneOutcome, log: seq<IndexOperation>, n: nat, until: int,
      partition: string -> string)
    requires Clean(s, log, n, until, partition) && Outlives(s.pending, log, until) && now <= until
    ensures var s' := Prune(s, now, outcome);
            Clean(s', log, n, until, partition) && Outlives(s'.pending, log, until)
  {
  }

  /** A step that gets to `m` operations of the log. */
  lemma StepStaysClean(
      s: State, step: Step, log: seq<IndexOperation>, n: nat, m: nat, until: int, schema: Schema,
      partition: string -> string)
    requires Clean(s, log, n, until, partition) && WellKeyed(log, partition) && NeverReuses(log, partition)
    requires Outlives(s.pending, log, until) && Calm([step], until) && n <= m <= |log|
    requires log[n..m] == if step.BatchStep? then step.ops else []
    ensures step.BatchStep? ==> AvoidsRemainsBatch(s, step.ops, schema)
    ensures Clean(After(s, step, schema), log, m, until, partition)
    ensures Outlives(After(s, step, schema).pending, log, until)
  {
    assert Calm([step], until) ==> [step][0] == step;
    match step
    case BatchStep(ops, _) =>
      assert forall op :: op in ops ==> op in log[n..m];
      CleanBatchAvoidsRemains(s, ops, log, n, until, schema, partition);
      WritesOutlive(s, ops, log, until, schema);
    case CommitStep(ok) => CommitStaysClean(s, ok, log, n, until, partition);
    case PruneStep(now, outcome) => PruneStaysClean(s, now, outcome, log, n, until, partition);
  }

  lemma {:induction false} CleanRunAvoidsRemains(
      s: State, steps: seq<Step>, log: seq<IndexOperation>, n: nat, until: int, schema: Schema,
      partition: string -> string)
    requires Clean(s, log, n, until, partition) && WellKeyed(log, partition) && NeverReuses(log, partition)
    requires Outlives(s.pending, log, until) && Calm(steps, until) && OpsOf(steps) <= log[n..]
    ensures AvoidsRemains(s, steps, schema)
    decreases |steps|
  {
    if steps != [] {
      var ops := if steps[0].BatchStep? then steps[0].ops else [];
      TailOfLog(log, n, ops, OpsOf(steps[1..]));
      StepStaysClean(s, steps[0], log, n, n + |ops|, until, schema, partition);
      CleanRunAvoidsRemains(
        After(s, steps[0], schema), steps[1..], log, n + |ops|, until, schema, partition);
    }
  }

  lemma {:induction false} WritesOutlive(
      s: State, ops: seq<IndexOperation>, log: seq<IndexOperation>, until: int, schema: Schema)
    requires Outlives(s.pending, log, until) && forall op :: op in ops ==> op in log
    ensures Outlives(WriteAll(s, ops, schema).pending, log, until)
    decreases |ops|
  {
    if ops != [] {
      assert ops[0] in ops;
      WritesOutlive(Write(s, ops[0], schema), ops[1..], log, until, schema);
    }
  }

  /** A log that never reuses a removed id is run coherently, however far, however batched, committed and pruned. */
  lemma CleanRunsAreCoherent(
      index: Documents, steps: seq<Step>, log: seq<IndexOperation>, until: int, schema: Schema,
      partition: string -> string)
    requires Calm(steps, until) && OpsOf(steps) <= log && Outlives(index, log, until) && until >= NEVER_PRUNED
    requires NeverReuses(log, partition) && (forall doc :: schema(doc))
    requires WellKeyed(log, partition) && KeyedDocs(index, partition)
    ensures CoherentRun(Opened(index), steps, schema)
  {
    assert log[0..] == log;
    OpenedAgrees(index, schema);
    CleanRunAvoidsRemains(Opened(index), steps, log, 0, until, schema, partition);
    AvoidingRunsAreCoherent(Opened(index), steps, schema);
  }

  /** For such a log, crash and replay need no condition on the engine's states. */
  lemma CrashAndReplayOfCleanLogs(
      index: Documents, steps: seq<Step>, replay: seq<Step>, until: int, schema: Schema, partition: string -> string)
    requires Calm(steps, until) && Calm(replay, until) && OpsOf(replay) == OpsOf(steps)
    requires Outlives(index, OpsOf(steps), until) && until >= NEVER_PRUNED
    requires NeverReuses(OpsOf(steps), partition) && (forall doc :: schema(doc))
    requires WellKeyed(OpsOf(steps), partition) && KeyedDocs(index, partition)
    ensures var replayed := Run(Opened(Survived(index, steps, schema)), replay, schema).pending;
            Unexpired(replayed, until) == ApplyAll(Unexpired(index, until), OpsOf(steps)) &&
            Unexpired(replayed, until) == Unexpired(Run(Opened(index), steps, schema).pending, until)
  {
    var log := OpsOf(steps);
    CleanRunsAreCoherent(index, steps, log, until, schema, partition);
    RunKeepsKeyedState(Opened(index), steps, schema, partition);
    var _ := IndexIsPrefix(index, steps, log, until, schema);
    CleanRunsAreCoherent(Survived(index, steps, schema), replay, log, until, schema, partition);
    CrashAndReplay(index, steps, replay, until, schema, partition);
  }

  // ------------------------------------------------------------------------
  // Any number of crashes
  // ------------------------------------------------------------------------

  /**
   * One process life: it works through some of the log from its beginning, and after its last successful
   * commit or prune anything may happen, failing adds included, until it dies.
   */
  datatype Life = Life(steps: seq<Step>, lost: seq<Step>)

  /** None of the steps publishes anything. */
  predicate Unpublished(steps: seq<Step>) {
    forall i :: 0 <= i < |steps| ==>
      match steps[i]
      case BatchStep(_, _) => true
      case CommitStep(ok) => !ok
      case PruneStep(_, outcome) => !outcome.Pruned?
      case RestartStep => true
  }

  lemma {:induction false} UnpublishedKeepsIndex(s: State, steps: seq<Step>, schema: Schema)
    requires Unpublished(steps)
    ensures Run(s, steps, schema).committed == s.committed
    decreases |steps|
  {
    if steps != [] {
      if steps[0].BatchStep? {
        BatchKeepsIndex(s, steps[0].ops, steps[0].fault, schema);
      }
      UnpublishedKeepsIndex(After(s, steps[0], schema), steps[1..], schema);
    }
  }

  lemma BatchKeepsIndex(s: State, ops: seq<IndexOperation>, fault: Option<nat>, schema: Schema)
    ensures Batch(s, ops, fault, schema).committed == s.committed
  {
    WritesKeepIndex(s, ops, schema);
    if Fails(s, ops, fault, schema) {
      WritesKeepIndex(s, ops[..fault.value], schema);
    }
  }

  lemma {:induction false} WritesKeepIndex(s: State, ops: seq<IndexOperation>, schema: Schema)
    ensures WriteAll(s, ops, schema).committed == s.committed
    decreases |ops|
  {
    if ops != [] {
      WritesKeepIndex(Write(s, ops[0], schema), ops[1..], schema);
    }
  }

  /** The index after these lives. */
  function AfterLives(index: Documents, lives: seq<Life>, schema: Schema): Documents {
    if lives == [] then index
    else
      var last := lives[|lives| - 1];
      var s := Run(Opened(AfterLives(index, lives[..|lives| - 1], schema)), last.steps, schema);
      Run(s, last.lost, schema).committed
  }

  ghost predicate Lived(index: Documents, lives: seq<Life>, log: seq<IndexOperation>, until: int, schema: Schema) {
    lives == [] ||
    var before, last := lives[..|lives| - 1], lives[|lives| - 1];
    Lived(index, before, log, until, schema) &&
    Calm(last.steps, until) && OpsOf(last.steps) <= log && Unpublished(last.lost) &&
    CoherentRun(Opened(AfterLives(index, before, schema)), last.steps, schema)
  }

  /** Whatever the lives before, the whole log applied to what they left gives what it gives from the start. */
  lemma {:induction false} LivesLeaveReplayable(
      index: Documents, lives: seq<Life>, log: seq<IndexOperation>, until: int, schema: Schema,
      partition: string -> string)
    requires Outlives(index, log, until) && WellKeyed(log, partition) && KeyedDocs(index, partition)
    requires Lived(index, lives, log, until, schema)
    ensures var left := AfterLives(index, lives, schema);
            Outlives(left, log, until) && KeyedDocs(left, partition) &&
            ApplyAll(Unexpired(left, until), log) == ApplyAll(Unexpired(index, until), log)
  {
    if lives != [] {
      var n := |lives| - 1;
      var before := AfterLives(index, lives[..n], schema);
      LivesLeaveReplayable(index, lives[..n], log, until, schema, partition);
      LifeLeavesReplayable(before, lives[n], log, until, schema, partition);
    }
  }

  lemma LifeLeavesReplayable(
      before: Documents, life: Life, log: seq<IndexOperation>, until: int, schema: Schema,
      partition: string -> string)
    requires Outlives(before, log, until) && WellKeyed(log, partition) && KeyedDocs(before, partition)
    requires Calm(life.steps, until) && OpsOf(life.steps) <= log && Unpublished(life.lost)
    requires CoherentRun(Opened(before), life.steps, schema)
    ensures var left := Run(Run(Opened(before), life.steps, schema), life.lost, schema).committed;
            Outlives(left, log, until) && KeyedDocs(left, partition) &&
            ApplyAll(Unexpired(left, until), log) == ApplyAll(Unexpired(before, until), log)
  {
    assert forall op :: op in OpsOf(life.steps) ==> op in log;
    UnpublishedKeepsIndex(Run(Opened(before), life.steps, schema), life.lost, schema);
    var end := IndexIsPrefix(before, life.steps, log, until, schema);
    RunKeepsKeyedState(Opened(before), life.steps, schema, partition);
    PrefixThenBatch(Unexpired(before, until), log, end, partition);
  }

  /**
   * Any number of crashes, each in the middle of a replay of its own, are forgotten by a replay that gets
   * through the log: the node holds what an uninterrupted one would, apart from what expires by the last prune.
   */
  lemma ReplayAfterCrashes(
      index: Documents, lives: seq<Life>, replay: seq<Step>, until: int, schema: Schema, partition: string -> string)
    requires Outlives(index, OpsOf(replay), until)
    requires WellKeyed(OpsOf(replay), partition) && KeyedDocs(index, partition)
    requires Lived(index, lives, OpsOf(replay), until, schema) && Calm(replay, until)
    requires CoherentRun(Opened(AfterLives(index, lives, schema)), replay, schema)
    ensures Unexpired(Run(Opened(AfterLives(index, lives, schema)), replay, schema).pending, until) ==
            ApplyAll(Unexpired(index, until), OpsOf(replay))
  {
    var log := OpsOf(replay);
    LivesLeaveReplayable(index, lives, log, until, schema, partition);
    var _ := IndexIsPrefix(AfterLives(index, lives, schema), replay, log, until, schema);
    assert log[..|log|] == log;
  }

  /** The lives alone, for a log that never reuses a removed id. */
  predicate CleanLives(lives: seq<Life>, log: seq<IndexOperation>, until: int) {
    forall i :: 0 <= i < |lives| ==>
      Calm(lives[i].steps, until) && OpsOf(lives[i].steps) <= log && Unpublished(lives[i].lost)
  }

  lemma {:induction false} CleanLivesAreLived(
      index: Documents, lives: seq<Life>, log: seq<IndexOperation>, until: int, schema: Schema,
      partition: string -> string)
    requires Outlives(index, log, until) && WellKeyed(log, partition) && KeyedDocs(index, partition)
    requires CleanLives(lives, log, until) && until >= NEVER_PRUNED
    requires NeverReuses(log, partition) && (forall doc :: schema(doc))
    ensures Lived(index, lives, log, until, schema)
    decreases |lives|
  {
    if lives != [] {
      var n := |lives| - 1;
      assert forall i :: 0 <= i < n ==> lives[..n][i] == lives[i];
      CleanLivesAreLived(index, lives[..n], log, until, schema, partition);
      LivesLeaveReplayable(index, lives[..n], log, until, schema, partition);
      CleanRunsAreCoherent(AfterLives(index, lives[..n], schema), lives[n].steps, log, until, schema, partition);
    }
  }

  /** For such a log any number of crashes is forgotten, whatever the engine's states. */
  lemma ReplayAfterCrashesOfCleanLogs(
      index: Documents, lives: seq<Life>, replay: seq<Step>, until: int, schema: Schema, partition: string -> string)
    requires Outlives(index, OpsOf(replay), until) && until >= NEVER_PRUNED
    requires WellKeyed(OpsOf(replay), partition) && KeyedDocs(index, partition)
    requires CleanLives(lives, OpsOf(replay), until) && Calm(replay, until)
    requires NeverReuses(OpsOf(replay), partition) && (forall doc :: schema(doc))
    ensures Unexpired(Run(Opened(AfterLives(index, lives, schema)), replay, schema).pending, until) ==
            ApplyAll(Unexpired(index, until), OpsOf(replay))
  {
    var log := OpsOf(replay);
    CleanLivesAreLived(index, lives, log, until, schema, partition);
    LivesLeaveReplayable(index, lives, log, until, schema, partition);
    CleanRunsAreCoherent(AfterLives(index, lives, schema), replay, log, until, schema, partition);
    ReplayAfterCrashes(index, lives, replay, until, schema, partition);
  }
}
