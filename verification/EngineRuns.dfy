/** Whole runs of the write engine against the plain map of documents. */
module EngineRuns {
  import opened Wrappers
  import opened JsonMerge
  import opened Store
  import opened Engine

  /** A restart loses the cache and whatever the writer had not committed. */
  datatype Step =
    | BatchStep(ops: seq<IndexOperation>, fault: Option<nat>) | CommitStep(ok: bool)
    | PruneStep(now: I64, outcome: PruneOutcome) | RestartStep

  function After(s: State, step: Step, schema: Schema): State {
    match step
    case BatchStep(ops, fault) => Batch(s, ops, fault, schema)
    case CommitStep(ok) => Commit(s, ok)
    case PruneStep(now, outcome) => Prune(s, now, outcome)
    case RestartStep => Opened(s.committed)
  }

  function Run(s: State, steps: seq<Step>, schema: Schema): State
    decreases |steps|
  {
    if steps == [] then s else Run(After(s, steps[0], schema), steps[1..], schema)
  }

  lemma StepKeepsAgreement(s: State, step: Step, schema: Schema)
    requires Agreement(s, schema)
    ensures Agreement(After(s, step, schema), schema)
  {
    match step
    case BatchStep(ops, fault) => FaultyBatchKeepsAgreement(s, ops, fault, schema);
    case CommitStep(ok) => CommitKeepsAgreement(s, ok, schema);
    case PruneStep(now, outcome) => PruneKeepsAgreement(s, now, outcome, schema);
    case RestartStep => OpenedAgrees(s.committed, schema);
  }

  /** Every state of every run keeps the agreement between cache, pending view and index. */
  lemma {:induction false} RunKeepsAgreement(s: State, steps: seq<Step>, schema: Schema)
    requires Agreement(s, schema)
    ensures Agreement(Run(s, steps, schema), schema)
    decreases |steps|
  {
    if steps != [] {
      StepKeepsAgreement(s, steps[0], schema);
      RunKeepsAgreement(After(s, steps[0], schema), steps[1..], schema);
    }
  }

  lemma OpenedAgrees(index: Documents, schema: Schema)
    ensures Agreement(Opened(index), schema)
  {
    forall id
      ensures AgreesAt(Opened(index), id, schema)
    {
    }
  }

  // ------------------------------------------------------------------------
  // Refinement
  // ------------------------------------------------------------------------

  /** The documents as they are, and as the last successful commit published them. */
  datatype Spec = Spec(current: Documents, published: Documents)

  /** A newer upsert whose document cannot be added loses the id and ends the batch. */
  function ApplyBatch(m: Documents, ops: seq<IndexOperation>, fault: Option<nat>): Documents {
    if fault.Some? && fault.value < |ops| && AddsTo(ApplyAll(m, ops[..fault.value]), ops[fault.value])
    then ApplyAll(m, ops[..fault.value]) - {ops[fault.value].id}
    else ApplyAll(m, ops)
  }

  predicate AddsTo(m: Documents, op: IndexOperation) {
    op.kind.Upsert? && !Outdated(Get(m, op.id), op)
  }

  function SpecAfter(r: Spec, step: Step): Spec {
    match step
    case BatchStep(ops, fault) => r.(current := ApplyBatch(r.current, ops, fault))
    case CommitStep(ok) => if ok then Spec(r.current, r.current) else r
    case PruneStep(now, outcome) =>
      var left := Unexpired(r.current, now);
      match outcome {
        case QueryFailed => r
        case CommitFailed => Spec(left, r.published)
        case Pruned => Spec(left, left)
      }
    case RestartStep => Spec(r.published, r.published)
  }

  function SpecRun(r: Spec, steps: seq<Step>): Spec
    decreases |steps|
  {
    if steps == [] then r else SpecRun(SpecAfter(r, steps[0]), steps[1..])
  }

  /** A lookup would find a document that is no longer there. */
  predicate FindsRemains(s: State, id: string) {
    id in s.vanished && Find(s, id).Some?
  }

  /** An upsert that does not land on remains and whose document the schema takes (or that is outdated). */
  predicate Coherent(s: State, op: IndexOperation, schema: Schema) {
    op.kind.Upsert? ==>
      !FindsRemains(s, op.id) && (Outdated(Find(s, op.id), op) || schema(NewDoc(Find(s, op.id), op)))
  }

  lemma WriteRefines(s: State, op: IndexOperation, schema: Schema)
    requires Agreement(s, schema) && Coherent(s, op, schema)
    ensures Write(s, op, schema).pending == Apply(s.pending, op)
  {
    assert AgreesAt(s, op.id, schema);
  }

  /**
   * When exactly the writer's view follows the plain map: deletions always do, an upsert does unless the
   * schema refuses its document or it lands on remains that hold it back or that it does not forget.
   */
  lemma WriteRefinesIff(s: State, op: IndexOperation, schema: Schema)
    requires Agreement(s, schema)
    ensures Write(s, op, schema).pending == Apply(s.pending, op) <==>
            Coherent(s, op, schema) ||
            (FindsRemains(s, op.id) && !Outdated(Find(s, op.id), op) &&
             schema(NewDoc(Find(s, op.id), op)) && Forgets(Find(s, op.id).value.body, op.payload, op.deltas))
  {
    assert AgreesAt(s, op.id, schema);
    if FindsRemains(s, op.id) {
      BodyForgetsIff(Find(s, op.id).value, op);
    }
    if op.kind.Upsert? {
      var l, r := Write(s, op, schema).pending, Apply(s.pending, op);
      if l == r {
        assert Get(l, op.id) == Get(r, op.id);
      }
    }
  }

  predicate CoherentBatch(s: State, ops: seq<IndexOperation>, schema: Schema)
    decreases |ops|
  {
    ops == [] || (Coherent(s, ops[0], schema) && CoherentBatch(Write(s, ops[0], schema), ops[1..], schema))
  }

  predicate CoherentRun(s: State, steps: seq<Step>, schema: Schema)
    decreases |steps|
  {
    steps == [] ||
    ((steps[0].BatchStep? ==> CoherentBatch(s, Tried(s, steps[0].ops, steps[0].fault, schema), schema)) &&
     CoherentRun(After(s, steps[0], schema), steps[1..], schema))
  }

  /** The operations a batch gets to. */
  function Tried(s: State, ops: seq<IndexOperation>, fault: Option<nat>, schema: Schema): seq<IndexOperation> {
    if Fails(s, ops, fault, schema) then ops[..fault.value + 1] else ops
  }

  lemma {:induction false} BatchRefines(s: State, ops: seq<IndexOperation>, schema: Schema)
    requires Agreement(s, schema) && CoherentBatch(s, ops, schema)
    ensures WriteAll(s, ops, schema).pending == ApplyAll(s.pending, ops)
    ensures WriteAll(s, ops, schema).committed == s.committed
    decreases |ops|
  {
    if ops != [] {
      WriteRefines(s, ops[0], schema);
      WriteKeepsAgreement(s, ops[0], schema);
      BatchRefines(Write(s, ops[0], schema), ops[1..], schema);
    }
  }

  lemma {:induction false} CoherentAt(s: State, ops: seq<IndexOperation>, i: nat, schema: Schema)
    requires CoherentBatch(s, ops, schema) && i < |ops|
    ensures CoherentBatch(s, ops[..i], schema) && Coherent(WriteAll(s, ops[..i], schema), ops[i], schema)
    decreases |ops|
  {
    if i > 0 {
      CoherentAt(Write(s, ops[0], schema), ops[1..], i - 1, schema);
      assert ops[..i][1..] == ops[1..][..i - 1];
    }
  }

  lemma AddsToIff(s: State, op: IndexOperation, schema: Schema)
    requires Agreement(s, schema) && Coherent(s, op, schema)
    ensures AddsDocument(s, op, schema) <==> AddsTo(s.pending, op)
  {
    assert AgreesAt(s, op.id, schema);
  }

  lemma FaultyBatchRefines(s: State, ops: seq<IndexOperation>, fault: Option<nat>, schema: Schema)
    requires Agreement(s, schema) && CoherentBatch(s, Tried(s, ops, fault, schema), schema)
    ensures Batch(s, ops, fault, schema).pending == ApplyBatch(s.pending, ops, fault)
    ensures Batch(s, ops, fault, schema).committed == s.committed
  {
    if fault.Some? && fault.value < |ops| {
      var tried, i := Tried(s, ops, fault, schema), fault.value;
      assert tried[..i] == ops[..i] && tried[i] == ops[i];
      CoherentAt(s, tried, i, schema);
      BatchRefines(s, ops[..i], schema);
      BatchKeepsAgreement(s, ops[..i], schema);
      AddsToIff(WriteAll(s, ops[..i], schema), ops[i], schema);
    }
    if !Fails(s, ops, fault, schema) {
      BatchRefines(s, ops, schema);
    }
  }

  /**
   * The engine refines the plain map: commits, evictions, failed commits, generation wrap-around and
   * restarts are invisible except for what was last published.
   */
  lemma {:induction false} RunRefinesSpec(s: State, steps: seq<Step>, schema: Schema)
    requires Agreement(s, schema) && CoherentRun(s, steps, schema)
    ensures Spec(Run(s, steps, schema).pending, Run(s, steps, schema).committed)
            == SpecRun(Spec(s.pending, s.committed), steps)
    decreases |steps|
  {
    if steps != [] {
      var s' := After(s, steps[0], schema);
      if steps[0].BatchStep? {
        FaultyBatchRefines(s, steps[0].ops, steps[0].fault, schema);
      }
      StepKeepsAgreement(s, steps[0], schema);
      RunRefinesSpec(s', steps[1..], schema);
    }
  }

  /** Along such runs lookups see the current documents, except where something that is gone left remains. */
  lemma LookupsAreCurrent(s: State, steps: seq<Step>, schema: Schema, id: string)
    requires Agreement(s, schema) && CoherentRun(s, steps, schema)
    ensures var end := Run(s, steps, schema);
            var current := SpecRun(Spec(s.pending, s.committed), steps).current;
            if FindsRemains(end, id) then id !in current else Find(end, id) == Get(current, id)
  {
    RunRefinesSpec(s, steps, schema);
    RunKeepsAgreement(s, steps, schema);
    assert AgreesAt(Run(s, steps, schema), id, schema);
  }

  // ------------------------------------------------------------------------
  // When upserts meet no remains
  // ------------------------------------------------------------------------

  /** The id was not deleted since the last successful commit nor lost by the writer, nor has its document expired. */
  predicate MeetsNoRemains(s: State, op: IndexOperation) {
    op.kind.Upsert? ==>
      op.id !in s.deleted && op.id !in s.unwritten &&
      (Find(s, op.id).Some? ==> Find(s, op.id).value.expiresAt > s.prunedTo)
  }

  predicate AvoidsRemainsBatch(s: State, ops: seq<IndexOperation>, schema: Schema)
    decreases |ops|
  {
    ops == [] ||
    (MeetsNoRemains(s, ops[0]) && AvoidsRemainsBatch(Write(s, ops[0], schema), ops[1..], schema))
  }

  predicate AvoidsRemains(s: State, steps: seq<Step>, schema: Schema)
    decreases |steps|
  {
    steps == [] ||
    ((steps[0].BatchStep? ==> AvoidsRemainsBatch(s, Tried(s, steps[0].ops, steps[0].fault, schema), schema)) &&
     AvoidsRemains(After(s, steps[0], schema), steps[1..], schema))
  }

  lemma {:induction false} AvoidingBatchIsCoherent(s: State, ops: seq<IndexOperation>, schema: Schema)
    requires Agreement(s, schema) && (forall doc :: schema(doc)) && AvoidsRemainsBatch(s, ops, schema)
    ensures CoherentBatch(s, ops, schema)
    decreases |ops|
  {
    if ops != [] {
      assert AgreesAt(s, ops[0].id, schema);
      WriteKeepsAgreement(s, ops[0], schema);
      AvoidingBatchIsCoherent(Write(s, ops[0], schema), ops[1..], schema);
    }
  }

  /**
   * If upserts avoid ids deleted since the last commit, ids whose last document could not be added and
   * documents that a prune has found expired, a run is the plain map's, prunes and faults included.
   */
  lemma {:induction false} AvoidingRunsAreCoherent(s: State, steps: seq<Step>, schema: Schema)
    requires Agreement(s, schema) && (forall doc :: schema(doc)) && AvoidsRemains(s, steps, schema)
    ensures CoherentRun(s, steps, schema)
    decreases |steps|
  {
    if steps != [] {
      if steps[0].BatchStep? {
        AvoidingBatchIsCoherent(s, Tried(s, steps[0].ops, steps[0].fault, schema), schema);
      }
      StepKeepsAgreement(s, steps[0], schema);
      AvoidingRunsAreCoherent(After(s, steps[0], schema), steps[1..], schema);
    }
  }

  function Put(id: string, column: string, writetime: U64): IndexOperation {
    IndexOperation(Upsert, id, None, writetime, None, Object(map[column := Null]), [])
  }

  function Drop(id: string, writetime: U64): IndexOperation {
    IndexOperation(Delete, id, None, writetime, None, Null, [])
  }

  lemma PutAdds(existing: Option<Doc>, id: string, column: string, writetime: U64)
    requires existing.Some? ==> existing.value.body.Object?
    ensures var fields := if existing.Some? then existing.value.body.fields else map[];
            NewDoc(existing, Put(id, column, writetime)).body == Object(fields[column := Null])
  {
    var fields := if existing.Some? then existing.value.body.fields else map[];
    var b := NewDoc(existing, Put(id, column, writetime)).body;
    assert b == Merge(Object(fields), Object(map[column := Null]));
    forall k
      ensures Get(b.fields, k) == Get(fields[column := Null], k)
    {
    }
    SameGets(b.fields, fields[column := Null]);
  }

  /** A row deleted and written again between two commits gets its old column back. */
  lemma UpsertAfterDeleteRevivesOldColumns(id: string, schema: Schema)
    requires forall doc :: schema(doc)
    ensures var index := map[id := NewDoc(None, Put(id, "a", 1))];
            var ops := [Drop(id, 2), Put(id, "b", 3)];
            var left := WriteAll(Opened(index), ops, schema).pending;
            id in left && left[id].body == Object(map["a" := Null, "b" := Null]) &&
            ApplyAll(index, ops) == map[id := NewDoc(None, Put(id, "b", 3))] &&
            NewDoc(None, Put(id, "b", 3)).body == Object(map["b" := Null])
  {
    var index := map[id := NewDoc(None, Put(id, "a", 1))];
    var drop, put := Drop(id, 2), Put(id, "b", 3);
    assert [drop, put][1..] == [put] && [put][1..] == [];
    var s1 := Write(Opened(index), drop, schema);
    var s2 := Write(s1, put, schema);
    assert WriteAll(Opened(index), [drop, put], schema) == WriteAll(s1, [put], schema) == WriteAll(s2, [], schema);
    assert Find(s1, id) == Some(index[id]);
    PutAdds(None, id, "a", 1);
    PutAdds(Some(index[id]), id, "b", 3);
    PutAdds(None, id, "b", 3);
    var m1 := Apply(index, drop);
    assert m1 == map[];
    assert ApplyAll(index, [drop, put]) == ApplyAll(m1, [put]) == ApplyAll(Apply(m1, put), []);
  }

  // ------------------------------------------------------------------------
  // Partitions along a run
  // ------------------------------------------------------------------------

  function OpsOf(steps: seq<Step>): seq<IndexOperation>
    decreases |steps|
  {
    if steps == [] then []
    else (if steps[0].BatchStep? then steps[0].ops else []) + OpsOf(steps[1..])
  }

  /** Every document of every view sits in the partition its id determines. */
  ghost predicate KeyedState(s: State, partition: string -> string) {
    KeyedDocs(s.pending, partition) && KeyedDocs(s.committed, partition) &&
    forall id :: id in s.cache ==> s.cache[id].doc.partition == partition(id)
  }

  lemma {:induction false} BatchKeepsKeyedState(
      s: State, ops: seq<IndexOperation>, schema: Schema, partition: string -> string)
    requires KeyedState(s, partition) && WellKeyed(ops, partition)
    ensures KeyedState(WriteAll(s, ops, schema), partition)
    decreases |ops|
  {
    if ops != [] {
      assert ops[0] in ops;
      BatchKeepsKeyedState(Write(s, ops[0], schema), ops[1..], schema, partition);
    }
  }

  lemma FaultyBatchKeepsKeyedState(
      s: State, ops: seq<IndexOperation>, fault: Option<nat>, schema: Schema, partition: string -> string)
    requires KeyedState(s, partition) && WellKeyed(ops, partition)
    ensures KeyedState(Batch(s, ops, fault, schema), partition)
  {
    BatchKeepsKeyedState(s, ops, schema, partition);
    if Fails(s, ops, fault, schema) {
      BatchKeepsKeyedState(s, ops[..fault.value], schema, partition);
      assert ops[fault.value] in ops;
    }
  }

  /** Operations whose partition their id determines keep it so, as do commits, prunes, faults and restarts. */
  lemma {:induction false} RunKeepsKeyedState(
      s: State, steps: seq<Step>, schema: Schema, partition: string -> string)
    requires KeyedState(s, partition) && WellKeyed(OpsOf(steps), partition)
    ensures KeyedState(Run(s, steps, schema), partition)
    decreases |steps|
  {
    if steps != [] {
      if steps[0].BatchStep? {
        assert forall op :: op in steps[0].ops ==> op in OpsOf(steps);
        FaultyBatchKeepsKeyedState(s, steps[0].ops, steps[0].fault, schema, partition);
      }
      assert forall op :: op in OpsOf(steps[1..]) ==> op in OpsOf(steps);
      RunKeepsKeyedState(After(s, steps[0], schema), steps[1..], schema, partition);
    }
  }

  // ------------------------------------------------------------------------
  // Eviction
  // ------------------------------------------------------------------------

  /** Successful minus failed committer ticks. */
  function NetCommits(steps: seq<Step>): int
    decreases |steps|
  {
    if steps == [] then 0
    else (if steps[0].CommitStep? then (if steps[0].ok then 1 else -1) else 0) + NetCommits(steps[1..])
  }

  lemma {:induction false} BatchKeepsGeneration(
      s: State, ops: seq<IndexOperation>, fault: Option<nat>, schema: Schema)
    ensures Batch(s, ops, fault, schema).generation == s.generation
  {
    WritesKeepGeneration(s, ops, schema);
    if Fails(s, ops, fault, schema) {
      WritesKeepGeneration(s, ops[..fault.value], schema);
    }
  }

  lemma StepGeneration(s: State, step: Step, schema: Schema)
    requires !step.RestartStep?
    ensures After(s, step, schema).generation == (s.generation + NetCommits([step])) % (U64_MAX + 1)
  {
    assert NetCommits([step][1..]) == 0;
    if step.BatchStep? {
      BatchKeepsGeneration(s, step.ops, step.fault, schema);
    }
  }

  lemma Wrap(a: int, b: int)
    ensures (a % (U64_MAX + 1) + b) % (U64_MAX + 1) == (a + b) % (U64_MAX + 1)
  {
  }

  /** The generation counts successful minus failed committer ticks in 64 bits. */
  lemma {:induction false} GenerationCountsCommits(s: State, steps: seq<Step>, schema: Schema)
    requires forall i :: 0 <= i < |steps| ==> !steps[i].RestartStep?
    ensures Run(s, steps, schema).generation == (s.generation + NetCommits(steps)) % (U64_MAX + 1)
    decreases |steps|
  {
    if steps != [] {
      StepGeneration(s, steps[0], schema);
      GenerationCountsCommits(After(s, steps[0], schema), steps[1..], schema);
      assert NetCommits([steps[0]]) + NetCommits(steps[1..]) == NetCommits(steps) by {
        assert NetCommits([steps[0]][1..]) == 0;
      }
      Wrap(s.generation + NetCommits([steps[0]]), NetCommits(steps[1..]));
    }
  }

  /** The same cache entry is there in every state of the run. */
  predicate Stays(s: State, steps: seq<Step>, schema: Schema, id: string, entry: Cached)
    decreases |steps|
  {
    id in s.cache && s.cache[id] == entry &&
    (steps == [] || Stays(After(s, steps[0], schema), steps[1..], schema, id, entry))
  }

  /**
   * An entry written under the current generation is evicted as soon as more commits have succeeded than
   * failed since, and the wrapping counter never lets one linger.
   */
  lemma {:induction false} CacheEntriesAgeOut(
      s: State, steps: seq<Step>, schema: Schema, id: string, entry: Cached, net: int)
    requires Stays(s, steps, schema, id, entry)
    requires net <= 0 && s.generation == (entry.generation + net) % (U64_MAX + 1)
    ensures net + NetCommits(steps) <= 0
    decreases |steps|
  {
    if steps != [] {
      var s' := After(s, steps[0], schema);
      match steps[0]
      case BatchStep(ops, fault) =>
        WritesKeepGeneration(s, ops, schema);
        if Fails(s, ops, fault, schema) {
          WritesKeepGeneration(s, ops[..fault.value], schema);
        }
        CacheEntriesAgeOut(s', steps[1..], schema, id, entry, net);
      case CommitStep(ok) =>
        CacheEntriesAgeOut(s', steps[1..], schema, id, entry, if ok then net + 1 else net - 1);
      case PruneStep(_, _) =>
        CacheEntriesAgeOut(s', steps[1..], schema, id, entry, net);
      case RestartStep =>
        assert false;
    }
  }

  lemma {:induction false} WritesKeepGeneration(s: State, ops: seq<IndexOperation>, schema: Schema)
    ensures WriteAll(s, ops, schema).generation == s.generation
    decreases |ops|
  {
    if ops != [] {
      WritesKeepGeneration(Write(s, ops[0], schema), ops[1..], schema);
    }
  }

  /** A failed add, operations that cannot touch the entry it left, and a committer tick. */
  function AfterFault(s: State, op: IndexOperation, others: seq<IndexOperation>, ok: bool, schema: Schema): State {
    Commit(WriteAll(WriteFault(s, op), others, schema), ok)
  }

  /** The tick evicts the entry if it succeeds: then, and only then, a retry lands, as on an id without a document. */
  lemma RetryLandsIff(s: State, op: IndexOperation, others: seq<IndexOperation>, ok: bool, schema: Schema)
    requires AddsDocument(s, op, schema) && schema(NewDoc(None, op))
    requires forall other :: other in others ==> other == op || NoNewer(WriteFault(s, op), op.id, other)
    ensures op.id in Write(AfterFault(s, op, others, ok, schema), op, schema).pending <==> ok
    ensures ok ==>
              Write(AfterFault(s, op, others, ok, schema), op, schema).pending ==
              AfterFault(s, op, others, ok, schema).pending[op.id := NewDoc(None, op)]
  {
    LostUntilNewer(WriteFault(s, op), op.id, others, schema);
    WritesKeepGeneration(WriteFault(s, op), others, schema);
  }

  // ------------------------------------------------------------------------
  // Searches and prunes
  // ------------------------------------------------------------------------

  /** Documents a search that starts at `now` can match. */
  function Visible(s: State, now: int): Documents {
    Unexpired(s.committed, now)
  }

  /** Removing what has expired at `at` is noticed exactly by a search that could still see some of it. */
  lemma PruneNoticedIff(m: Documents, at: int, now: int)
    ensures Unexpired(Unexpired(m, at), now) == Unexpired(m, now) <==>
            !exists id :: id in m && now < m[id].expiresAt <= at
  {
    var l, r := Unexpired(Unexpired(m, at), now), Unexpired(m, now);
    if exists id :: id in m && now < m[id].expiresAt <= at {
      var id :| id in m && now < m[id].expiresAt <= at;
      assert id in r && id !in l;
    }
  }

  /** To a search that starts no earlier, a prune is a commit; with nothing pending it is nothing at all. */
  lemma PruneIsInvisible(s: State, at: I64, now: int)
    requires now >= at
    ensures Visible(Prune(s, at, Pruned), now) == Visible(Commit(s, true), now)
    ensures Visible(Prune(s, at, CommitFailed), now) == Visible(s, now)
    ensures s.pending == s.committed ==> Visible(Prune(s, at, Pruned), now) == Visible(s, now)
  {
    PruneNoticedIff(s.pending, at, now);
  }
}
