/** Replaying a log onto an index from which a prune has removed what the log writes onto. */
module PrunedReplay {
  import opened Wrappers
  import opened JsonMerge
  import opened Store
  import opened Engine
  import opened EngineRuns
  import opened CrashRecovery
  import opened Reordering

  // ------------------------------------------------------------------------
  // The operations on one id
  // ------------------------------------------------------------------------

  /** The operations that can change the document of the id, in order. */
  function OnId(ops: seq<IndexOperation>, id: string, partition: string -> string): seq<IndexOperation>
    decreases |ops|
  {
    if ops == [] then []
    else (if Touches(ops[0], id, partition) then [ops[0]] else []) + OnId(ops[1..], id, partition)
  }

  lemma {:induction false} RunOnId(
      s: Option<Doc>, id: string, ops: seq<IndexOperation>, partition: string -> string)
    requires KeyedAt(s, id, partition) && WellKeyed(ops, partition)
    ensures RunAt(s, id, ops) == RunAt(s, id, OnId(ops, id, partition))
    decreases |ops|
  {
    if ops != [] {
      var rest := OnId(ops[1..], id, partition);
      assert ops[0] in ops;
      RunOnId(StepAt(s, id, ops[0]), id, ops[1..], partition);
      if Touches(ops[0], id, partition) {
        assert ([ops[0]] + rest)[1..] == rest;
      } else {
        assert [] + rest == rest;
      }
    }
  }

  lemma {:induction false} OnIdMembers(ops: seq<IndexOperation>, id: string, partition: string -> string)
    ensures forall op :: op in OnId(ops, id, partition) ==> op in ops && Touches(op, id, partition)
    decreases |ops|
  {
    if ops != [] {
      OnIdMembers(ops[1..], id, partition);
    }
  }

  predicate HasRemoval(ops: seq<IndexOperation>) {
    exists i :: 0 <= i < |ops| && !ops[i].kind.Upsert?
  }

  function Payloads(ops: seq<IndexOperation>): seq<Value> {
    if ops == [] then [] else [ops[0].payload] + Payloads(ops[1..])
  }

  /** Operations on one id in the order of their writetimes, all later than `after`, the upserts without deltas. */
  predicate InOrder(ops: seq<IndexOperation>, after: int)
    decreases |ops|
  {
    ops == [] ||
    (ops[0].writetime > after && (ops[0].kind.Upsert? ==> ops[0].deltas == []) && InOrder(ops[1..], ops[0].writetime))
  }

  /** A removal leaves nothing of either document. */
  lemma {:induction false} RemovalMeets(
      s: Option<Doc>, t: Option<Doc>, id: string, ops: seq<IndexOperation>, after: int, partition: string -> string)
    requires KeyedAt(s, id, partition) && KeyedAt(t, id, partition) && WellKeyed(ops, partition)
    requires InOrder(ops, after) && Writetime(s) <= after && Writetime(t) <= after
    requires (forall op :: op in ops ==> Touches(op, id, partition)) && HasRemoval(ops)
    ensures RunAt(s, id, ops) == RunAt(t, id, ops)
    decreases |ops|
  {
    assert ops[0] in ops;
    var s', t' := StepAt(s, id, ops[0]), StepAt(t, id, ops[0]);
    if ops[0].kind.Upsert? {
      var i :| 0 <= i < |ops| && !ops[i].kind.Upsert?;
      assert ops[1..][i - 1] == ops[i];
      RemovalMeets(s', t', id, ops[1..], ops[0].writetime, partition);
    } else {
      assert s' == None && t' == None;
    }
  }

  function BodyOf(s: Option<Doc>): Value {
    if s.Some? then s.value.body else EMPTY_OBJECT
  }

  /** Upserts in order leave the merge of their payloads, with the last one's times and partition. */
  lemma {:induction false} UpsertsMerge(
      s: Option<Doc>, id: string, ops: seq<IndexOperation>, after: int, partition: string -> string)
    requires InOrder(ops, after) && Writetime(s) <= after && ops != []
    requires (forall op :: op in ops ==> Touches(op, id, partition)) && !HasRemoval(ops)
    ensures var last := ops[|ops| - 1];
            RunAt(s, id, ops) ==
            Some(Doc(PartitionOf(last), MergeAll(BodyOf(s), Payloads(ops)), ExpiresAt(last.writetime, last.ttl),
                     last.writetime))
    decreases |ops|
  {
    assert ops[0] in ops && ops[0].kind.Upsert?;
    var s' := StepAt(s, id, ops[0]);
    var rest := Payloads(ops[1..]);
    assert s' == Some(NewDoc(s, ops[0])) && BodyOf(s') == Merge(BodyOf(s), ops[0].payload);
    MergeAllFromFirst(BodyOf(s), Payloads(ops));
    assert ([ops[0].payload] + rest)[1..] == rest;
    if ops[1..] != [] {
      assert forall i :: 0 <= i < |ops[1..]| ==> ops[1..][i] == ops[i + 1];
      UpsertsMerge(s', id, ops[1..], ops[0].writetime, partition);
    }
  }

  lemma {:induction false} PayloadsLength(ops: seq<IndexOperation>)
    ensures |Payloads(ops)| == |ops|
  {
    if ops != [] {
      PayloadsLength(ops[1..]);
    }
  }

  /**
   * Operations in order leave on a document what they leave on nothing exactly when one of them removes it or
   * the payloads wash it.
   */
  lemma RunsMeetIff(d: Doc, id: string, ops: seq<IndexOperation>, partition: string -> string)
    requires d.partition == partition(id) && WellKeyed(ops, partition) && InOrder(ops, d.writetime)
    requires forall op :: op in ops ==> Touches(op, id, partition)
    ensures RunAt(Some(d), id, ops) == RunAt(None, id, ops) <==> HasRemoval(ops) || Washed(d.body, Payloads(ops))
  {
    PayloadsLength(ops);
    if HasRemoval(ops) {
      RemovalMeets(Some(d), None, id, ops, d.writetime, partition);
    } else if ops != [] {
      UpsertsMerge(Some(d), id, ops, d.writetime, partition);
      UpsertsMerge(None, id, ops, d.writetime, partition);
      MergeAllForgetsIff(d.body, Payloads(ops));
    }
  }

  // ------------------------------------------------------------------------
  // Whole logs
  // ------------------------------------------------------------------------

  /** The first part of the log leaves the document expired, and makes one again where there is none. */
  predicate Reappears(index: Documents, first: seq<IndexOperation>, now: int, id: string) {
    var m := ApplyAll(index, first);
    id in m && m[id].expiresAt <= now && RunAt(None, id, first).Some?
  }

  /** On those ids the second part is in order and later than the first. */
  ghost predicate InOrderAfter(
      index: Documents, first: seq<IndexOperation>, now: int, second: seq<IndexOperation>,
      partition: string -> string)
  {
    forall id :: Reappears(index, first, now, id) ==>
      InOrder(OnId(second, id, partition), RunAt(None, id, first).value.writetime)
  }

  /** What the first part makes again is removed or washed by the second. */
  ghost predicate GoneAfter(
      index: Documents, first: seq<IndexOperation>, now: int, second: seq<IndexOperation>,
      partition: string -> string)
  {
    forall id :: Reappears(index, first, now, id) ==>
      HasRemoval(OnId(second, id, partition)) ||
      Washed(RunAt(None, id, first).value.body, Payloads(OnId(second, id, partition)))
  }

  lemma ReplayOntoPrunedAt(
      index: Documents, first: seq<IndexOperation>, now: int, second: seq<IndexOperation>, id: string,
      partition: string -> string)
    requires KeyedDocs(index, partition) && WellKeyed(first, partition) && WellKeyed(second, partition)
    requires InOrderAfter(index, first, now, second, partition)
    ensures var p := Unexpired(ApplyAll(index, first), now);
            Get(ApplyAll(ApplyAll(p, first), second), id) == Get(ApplyAll(p, second), id) <==>
            (Reappears(index, first, now, id) ==>
               HasRemoval(OnId(second, id, partition)) ||
               Washed(RunAt(None, id, first).value.body, Payloads(OnId(second, id, partition))))
  {
    var m := ApplyAll(index, first);
    var p := Unexpired(m, now);
    ApplyAllAt(index, first, id);
    ApplyAllAt(p, first, id);
    ApplyAllAt(p, second, id);
    ApplyAllAt(ApplyAll(p, first), second, id);
    if id in p || id !in m {
      assert Get(p, id) == RunAt(Get(index, id), id, first);
      RerunAt(Get(index, id), id, first, partition);
    } else {
      assert Get(p, id) == None;
      var again := RunAt(None, id, first);
      if again.Some? {
        RunAtKeyed(None, id, first, partition);
        RunOnId(again, id, second, partition);
        RunOnId(None, id, second, partition);
        OnIdMembers(second, id, partition);
        RunsMeetIff(again.value, id, OnId(second, id, partition), partition);
      }
    }
  }

  /**
   * A prune takes what the first part of a log has left expired, and the second part follows. Applying the
   * whole log again to what the prune left gives the same documents if and only if, of every id that had
   * expired and that the first part makes again, the second part removes or washes what it makes.
   */
  lemma ReplayOntoPrunedIff(
      index: Documents, first: seq<IndexOperation>, now: int, second: seq<IndexOperation>,
      partition: string -> string)
    requires KeyedDocs(index, partition) && WellKeyed(first, partition) && WellKeyed(second, partition)
    requires InOrderAfter(index, first, now, second, partition)
    ensures var p := Unexpired(ApplyAll(index, first), now);
            ApplyAll(p, first + second) == ApplyAll(p, second) <==>
            GoneAfter(index, first, now, second, partition)
  {
    var p := Unexpired(ApplyAll(index, first), now);
    var l, r := ApplyAll(ApplyAll(p, first), second), ApplyAll(p, second);
    ApplyAllAppend(p, first, second);
    forall id
      ensures Get(l, id) == Get(r, id) <==>
              (Reappears(index, first, now, id) ==>
                 HasRemoval(OnId(second, id, partition)) ||
                 Washed(RunAt(None, id, first).value.body, Payloads(OnId(second, id, partition))))
    {
      ReplayOntoPrunedAt(index, first, now, second, id, partition);
    }
    if forall id :: Get(l, id) == Get(r, id) {
      SameGets(l, r);
    }
  }

  lemma {:induction false} SpecRunAppend(r: Spec, xs: seq<Step>, ys: seq<Step>)
    ensures SpecRun(r, xs + ys) == SpecRun(SpecRun(r, xs), ys)
    decreases |xs|
  {
    if xs == [] {
      assert xs + ys == ys;
    } else {
      assert (xs + ys)[1..] == xs[1..] + ys;
      SpecRunAppend(SpecAfter(r, xs[0]), xs[1..], ys);
    }
  }

  lemma {:induction false} UnpublishedSpec(r: Spec, steps: seq<Step>)
    requires Unpublished(steps) && Calm(steps, NEVER_PRUNED)
    ensures SpecRun(r, steps).published == r.published
    decreases |steps|
  {
    if steps != [] {
      UnpublishedSpec(SpecAfter(r, steps[0]), steps[1..]);
    }
  }

  /**
   * The same on the engine: a node runs the first part in any batches and commits, prunes, runs the second
   * part, and dies before it has published any of it. A replay of the whole log leaves what the node held
   * exactly under that condition.
   */
  lemma PrunedReplayIff(
      index: Documents, first: seq<Step>, now: I64, second: seq<Step>, replay: seq<Step>, schema: Schema,
      partition: string -> string)
    requires Calm(first, NEVER_PRUNED) && Calm(second, NEVER_PRUNED) && Calm(replay, NEVER_PRUNED)
    requires Unpublished(second) && OpsOf(replay) == OpsOf(first) + OpsOf(second)
    requires KeyedDocs(index, partition) && WellKeyed(OpsOf(first), partition) && WellKeyed(OpsOf(second), partition)
    requires InOrderAfter(index, OpsOf(first), now, OpsOf(second), partition)
    requires var steps := first + ([PruneStep(now, Pruned)] + second);
             CoherentRun(Opened(index), steps, schema) &&
             CoherentRun(Opened(Survived(index, steps, schema)), replay, schema)
    ensures var steps := first + ([PruneStep(now, Pruned)] + second);
            Run(Opened(Survived(index, steps, schema)), replay, schema).pending ==
            Run(Opened(index), steps, schema).pending <==>
            GoneAfter(index, OpsOf(first), now, OpsOf(second), partition)
  {
    var rest := [PruneStep(now, Pruned)] + second;
    var steps := first + rest;
    OpenedAgrees(index, schema);
    RunRefinesSpec(Opened(index), steps, schema);
    var r := Spec(index, index);
    SpecRunAppend(r, first, rest);
    CurrentIsApplied(r, first);
    assert rest[0] == PruneStep(now, Pruned) && rest[1..] == second;
    var p := Unexpired(ApplyAll(index, OpsOf(first)), now);
    assert SpecRun(r, steps) == SpecRun(Spec(p, p), second);
    CurrentIsApplied(Spec(p, p), second);
    UnpublishedSpec(Spec(p, p), second);
    OpenedAgrees(p, schema);
    RunRefinesSpec(Opened(p), replay, schema);
    CurrentIsApplied(Spec(p, p), replay);
    ReplayOntoPrunedIff(index, OpsOf(first), now, OpsOf(second), partition);
  }

  // ------------------------------------------------------------------------
  // Two upserts of one id
  // ------------------------------------------------------------------------

  /** One upsert, a commit, a prune and another upsert. */
  function UpsertPruneUpsert(u: IndexOperation, now: I64, v: IndexOperation): seq<Step> {
    [BatchStep([u], None), CommitStep(true), PruneStep(now, Pruned), BatchStep([v], None)]
  }

  lemma WrittenAndPruned(u: IndexOperation, now: I64, schema: Schema)
    requires u.kind.Upsert? && schema(NewDoc(None, u)) && ExpiresAt(u.writetime, u.ttl) <= now
    ensures var s := Prune(Commit(Write(Opened(map[]), u, schema), true), now, Pruned);
            s.pending == s.committed == map[] && s.cache == map[]
  {
    var s := Write(Opened(map[]), u, schema);
    assert s.cache == map[u.id := Cached(NewDoc(None, u), 0)] && s.pending == map[u.id := NewDoc(None, u)];
  }

  lemma OneWrite(s: State, op: IndexOperation, schema: Schema)
    ensures WriteAll(s, [op], schema) == Write(s, op, schema)
    ensures After(s, BatchStep([op], None), schema) == Write(s, op, schema)
  {
    assert [op][1..] == [];
    assert WriteAll(s, [op], schema) == WriteAll(Write(s, op, schema), [], schema);
  }

  lemma PrunedBetween(u: IndexOperation, now: I64, v: IndexOperation, schema: Schema)
    requires u.kind.Upsert? && v.kind.Upsert? && (forall doc :: schema(doc)) && ExpiresAt(u.writetime, u.ttl) <= now
    ensures var end := Run(Opened(map[]), UpsertPruneUpsert(u, now, v), schema);
            end.pending == map[v.id := NewDoc(None, v)] && end.committed == map[]
    ensures OpsOf(UpsertPruneUpsert(u, now, v)) == [u, v]
  {
    var steps := UpsertPruneUpsert(u, now, v);
    var s0 := Opened(map[]);
    var s1 := Write(s0, u, schema);
    var s2 := Commit(s1, true);
    var s3 := Prune(s2, now, Pruned);
    OneWrite(s0, u, schema);
    WrittenAndPruned(u, now, schema);
    OneWrite(s3, v, schema);
    assert steps[1..] == [steps[1], steps[2], steps[3]] && steps[2..] == [steps[2], steps[3]];
    assert steps[3..] == [steps[3]];
    assert Run(s0, steps, schema) == Run(s1, steps[1..], schema) == Run(s2, steps[2..], schema)
        == Run(s3, steps[3..], schema) == Run(Write(s3, v, schema), [], schema);
    assert OpsOf(steps[3..]) == [v] + OpsOf([]);
    assert OpsOf(steps[2..]) == [] + OpsOf(steps[3..]) && OpsOf(steps[1..]) == [] + OpsOf(steps[2..]);
    assert OpsOf(steps) == [u] + OpsOf(steps[1..]);
  }

  lemma BothAtOnce(u: IndexOperation, v: IndexOperation, schema: Schema)
    requires u.kind.Upsert? && v.kind.Upsert? && (forall doc :: schema(doc))
    requires u.id == v.id && u.writetime < v.writetime
    ensures Run(Opened(map[]), [BatchStep([u, v], None)], schema).pending
            == map[v.id := NewDoc(Some(NewDoc(None, u)), v)]
  {
    var s0, replay := Opened(map[]), [BatchStep([u, v], None)];
    var s1 := Write(s0, u, schema);
    assert [u, v][1..] == [v];
    OneWrite(s1, v, schema);
    assert Run(s0, replay, schema) == Run(Write(s1, v, schema), [], schema);
    assert Find(s1, v.id) == Some(NewDoc(None, u));
  }

  /**
   * When a row has expired and been pruned before it is written again, a replay of both upserts leaves the
   * row as it was exactly when the second owes nothing to the first, deltas included.
   */
  lemma PrunedPairReplayIff(u: IndexOperation, now: I64, v: IndexOperation, schema: Schema)
    requires u.kind.Upsert? && v.kind.Upsert? && u.id == v.id && u.writetime < v.writetime
    requires (forall doc :: schema(doc)) && ExpiresAt(u.writetime, u.ttl) <= now
    ensures var steps, replay := UpsertPruneUpsert(u, now, v), [BatchStep([u, v], None)];
            OpsOf(replay) == OpsOf(steps) &&
            (Run(Opened(Survived(map[], steps, schema)), replay, schema).pending ==
             Run(Opened(map[]), steps, schema).pending <==>
             Forgets(NewDoc(None, u).body, v.payload, v.deltas))
  {
    PrunedBetween(u, now, v, schema);
    BothAtOnce(u, v, schema);
    BodyForgetsIff(NewDoc(None, u), v);
    assert OpsOf([BatchStep([u, v], None)]) == [u, v] + OpsOf([]);
    var l, r := map[v.id := NewDoc(Some(NewDoc(None, u)), v)], map[v.id := NewDoc(None, v)];
    assert l == r <==> l[v.id] == r[v.id];
  }

  function Short(id: string): IndexOperation {
    Put(id, "a", 1).(ttl := Some(0))
  }

  lemma ShortThenPut(id: string)
    ensures NewDoc(Some(NewDoc(None, Short(id))), Put(id, "b", 2)).body == Object(map["a" := Null, "b" := Null])
  {
    PutAdds(None, id, "a", 1);
    PutAdds(Some(NewDoc(None, Put(id, "a", 1))), id, "b", 2);
  }

  /** For instance, a replay brings back the column of a row that had expired, been pruned and been written again. */
  lemma ReplayRevivesExpiredColumn(id: string, schema: Schema)
    requires forall doc :: schema(doc)
    ensures var steps, replay :=
              UpsertPruneUpsert(Short(id), 1, Put(id, "b", 2)), [BatchStep([Short(id), Put(id, "b", 2)], None)];
            var run := Run(Opened(map[]), steps, schema).pending;
            var again := Run(Opened(Survived(map[], steps, schema)), replay, schema).pending;
            OpsOf(replay) == OpsOf(steps) &&
            id in run && run[id].body == Object(map["b" := Null]) &&
            id in again && again[id].body == Object(map["a" := Null, "b" := Null]) &&
            run[id].expiresAt == again[id].expiresAt == I64_MAX
  {
    var u, v := Short(id), Put(id, "b", 2);
    PrunedBetween(u, 1, v, schema);
    BothAtOnce(u, v, schema);
    PutAdds(None, id, "b", 2);
    ShortThenPut(id);
    assert OpsOf([BatchStep([u, v], None)]) == [u, v] + OpsOf([]);
  }
}
