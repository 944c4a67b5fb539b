/**
 * A node's write engine: an uncommitted cache in front of a committed index, with a writer whose
 * pending view becomes the index at the next commit.
 */
module Engine {
  import opened Wrappers
  import opened Store

  datatype Cached = Cached(doc: Doc, generation: U64)

  /**
   * `pending` is what a commit would publish, `committed` what searches and lookups see. The last four
   * fields are history: ids deleted since the last successful commit, the latest prune time, ids that left
   * `pending` without coming back while some lookup may still find them, and ids whose cached document the
   * writer failed to add.
   */
  datatype State = NodeState(
    cache: map<string, Cached>, pending: Documents, committed: Documents, generation: U64,
    deleted: set<string>, prunedTo: int, vanished: set<string>, unwritten: set<string>)

  const NEVER_PRUNED := I64_MIN - 1

  /** A process that has just opened an index. */
  function Opened(index: Documents): State {
    NodeState(map[], index, index, 0, {}, NEVER_PRUNED, {}, {})
  }

  /** Whether the index schema takes the document; everything else about the index is given. */
  type Schema = Doc -> bool

  // ------------------------------------------------------------------------
  // Steps
  // ------------------------------------------------------------------------

  /** `find_cached_or_indexed`: the cache first, then the committed snapshot. */
  function Find(s: State, id: string): Option<Doc> {
    if id in s.cache then Some(s.cache[id].doc) else Get(s.committed, id)
  }

  function InPartition(s: State, partition: string): set<string> {
    (set id | id in s.cache && s.cache[id].doc.partition == partition) +
    (set id | id in s.pending && s.pending[id].partition == partition)
  }

  function Write(s: State, op: IndexOperation, schema: Schema): State {
    match op.kind
    case Upsert =>
      var existing := Find(s, op.id);
      var doc := NewDoc(existing, op);
      if Outdated(existing, op) then s
      else s.(
        cache := s.cache[op.id := Cached(doc, s.generation)],
        pending := if schema(doc) then s.pending[op.id := doc] else s.pending - {op.id},
        vanished := if schema(doc) then s.vanished - {op.id} else s.vanished + {op.id},
        unwritten := s.unwritten - {op.id})
    case Delete =>
      if Outdated(Find(s, op.id), op) then s
      else s.(
        cache := s.cache - {op.id}, pending := s.pending - {op.id},
        deleted := s.deleted + {op.id}, vanished := s.vanished + {op.id}, unwritten := s.unwritten - {op.id})
    case PartitionDelete =>
      var gone := InPartition(s, PartitionOf(op));
      s.(cache := map id | id in s.cache && s.cache[id].doc.partition != PartitionOf(op) :: s.cache[id],
         pending := Without(s.pending, PartitionOf(op)),
         deleted := s.deleted + gone, vanished := s.vanished + gone, unwritten := s.unwritten - gone)
    case Unspecified => s
  }

  function WriteAll(s: State, ops: seq<IndexOperation>, schema: Schema): State
    decreases |ops|
  {
    if ops == [] then s else WriteAll(Write(s, ops[0], schema), ops[1..], schema)
  }

  /** Where a stream of operations is cut into batches does not matter. */
  lemma {:induction false} WriteAllAppend(
      s: State, xs: seq<IndexOperation>, ys: seq<IndexOperation>, schema: Schema)
    ensures WriteAll(s, xs + ys, schema) == WriteAll(WriteAll(s, xs, schema), ys, schema)
    decreases |xs|
  {
    if xs == [] {
      assert xs + ys == ys;
    } else {
      assert (xs + ys)[1..] == xs[1..] + ys;
      WriteAllAppend(Write(s, xs[0], schema), xs[1..], ys, schema);
    }
  }

  /** The operation reaches `add_document`. */
  predicate AddsDocument(s: State, op: IndexOperation, schema: Schema) {
    op.kind.Upsert? && !Outdated(Find(s, op.id), op) && schema(NewDoc(Find(s, op.id), op))
  }

  /** An upsert whose `add_document` fails: the cache has the document, the writer has lost it. */
  function WriteFault(s: State, op: IndexOperation): State {
    s.(cache := s.cache[op.id := Cached(NewDoc(Find(s, op.id), op), s.generation)],
       pending := s.pending - {op.id}, vanished := s.vanished + {op.id}, unwritten := s.unwritten + {op.id})
  }

  /** The batch ends at the operation of index `fault`, whose `add_document` fails. */
  predicate Fails(s: State, ops: seq<IndexOperation>, fault: Option<nat>, schema: Schema) {
    fault.Some? && fault.value < |ops| &&
    AddsDocument(WriteAll(s, ops[..fault.value], schema), ops[fault.value], schema)
  }

  /** `process_batch`, with the operations before a failing one applied and those after it not tried. */
  function Batch(s: State, ops: seq<IndexOperation>, fault: Option<nat>, schema: Schema): State {
    if Fails(s, ops, fault, schema)
    then WriteFault(WriteAll(s, ops[..fault.value], schema), ops[fault.value])
    else WriteAll(s, ops, schema)
  }

  lemma {:induction false} WriteAllSnoc(s: State, ops: seq<IndexOperation>, i: nat, schema: Schema)
    requires i < |ops|
    ensures WriteAll(s, ops[..i + 1], schema) == Write(WriteAll(s, ops[..i], schema), ops[i], schema)
  {
    assert ops[..i + 1] == ops[..i] + [ops[i]];
    WriteAllAppend(s, ops[..i], [ops[i]], schema);
    assert [ops[i]][1..] == [];
    var s' := WriteAll(s, ops[..i], schema);
    assert WriteAll(s', [ops[i]], schema) == WriteAll(Write(s', ops[i], schema), [], schema);
  }

  /** The operation is counted as skipped rather than processed. */
  predicate Skipped(s: State, op: IndexOperation, schema: Schema) {
    match op.kind
    case Upsert => Outdated(Find(s, op.id), op) || !schema(NewDoc(Find(s, op.id), op))
    case Delete => Outdated(Find(s, op.id), op)
    case PartitionDelete => false
    case Unspecified => true
  }

  function SkippedCount(s: State, ops: seq<IndexOperation>, schema: Schema): nat
    decreases |ops|
  {
    if ops == [] then 0
    else
      var before := ops[..|ops| - 1];
      SkippedCount(s, before, schema) +
      if Skipped(WriteAll(s, before, schema), ops[|ops| - 1], schema) then 1 else 0
  }

  /**
   * An upsert is counted as processed exactly when it is newer than what a lookup finds and the writer has
   * its document afterwards, a delete exactly when it is newer, a partition delete always.
   */
  lemma ProcessedIff(s: State, op: IndexOperation, schema: Schema)
    ensures !Skipped(s, op, schema) <==>
            match op.kind
            case Upsert => Writetime(Find(s, op.id)) < op.writetime && op.id in Write(s, op, schema).pending
            case Delete => Writetime(Find(s, op.id)) < op.writetime
            case PartitionDelete => true
            case Unspecified => false
  {
  }

  /** The operations of a batch that are skipped, by position. */
  function SkippedAt(s: State, ops: seq<IndexOperation>, schema: Schema): set<nat> {
    set i: nat | i < |ops| && Skipped(WriteAll(s, ops[..i], schema), ops[i], schema)
  }

  /** The positions below a bound at which something holds. */
  function Below(n: nat, p: nat -> bool): set<nat> {
    set i: nat | i < n && p(i)
  }

  lemma BelowNext(n: nat, p: nat -> bool)
    ensures |Below(n + 1, p)| == |Below(n, p)| + if p(n) then 1 else 0
  {
    assert Below(n + 1, p) == if p(n) then Below(n, p) + {n} else Below(n, p);
  }

  lemma {:induction false} SkippedCountBelow(s: State, ops: seq<IndexOperation>, n: nat, schema: Schema, p: nat -> bool)
    requires n <= |ops|
    requires forall i: nat :: i < |ops| ==> (p(i) <==> Skipped(WriteAll(s, ops[..i], schema), ops[i], schema))
    ensures SkippedCount(s, ops[..n], schema) == |Below(n, p)|
    decreases n
  {
    if n == 0 {
      assert Below(0, p) == {};
    } else {
      assert ops[..n][..n - 1] == ops[..n - 1];
      SkippedCountBelow(s, ops, n - 1, schema, p);
      BelowNext(n - 1, p);
    }
  }

  /** The count of a batch is the number of those operations. */
  lemma SkippedCountIs(s: State, ops: seq<IndexOperation>, schema: Schema)
    ensures SkippedCount(s, ops, schema) == |SkippedAt(s, ops, schema)|
  {
    var p := (i: nat) => i < |ops| && Skipped(WriteAll(s, ops[..i], schema), ops[i], schema);
    SkippedCountBelow(s, ops, |ops|, schema, p);
    assert ops[..|ops|] == ops && Below(|ops|, p) == SkippedAt(s, ops, schema);
  }

  /** `fetch_add(1)` and `fetch_sub(1)` on an AtomicU64 wrap. */
  function Next(generation: U64): U64 {
    if generation == U64_MAX then 0 else generation + 1
  }

  function Previous(generation: U64): U64 {
    if generation == 0 then U64_MAX else generation - 1
  }

  /** A committer tick that holds the writer. */
  function Commit(s: State, ok: bool): State {
    if !ok then s.(generation := Previous(s.generation))
    else
      var kept := map id | id in s.cache && s.cache[id].generation > s.generation :: s.cache[id];
      s.(cache := kept, committed := s.pending, generation := Next(s.generation),
         deleted := {}, vanished := s.vanished * kept.Keys, unwritten := s.unwritten * kept.Keys)
  }

  function Unexpired(m: Documents, now: int): Documents {
    map id | id in m && m[id].expiresAt > now :: m[id]
  }

  datatype PruneOutcome = QueryFailed | CommitFailed | Pruned

  /** A pruner tick that holds the writer: delete what has expired, then commit; the cache is not consulted. */
  function Prune(s: State, now: I64, outcome: PruneOutcome): State {
    if outcome.QueryFailed? then s
    else
      var ok := outcome.Pruned?;
      var left := Unexpired(s.pending, now);
      var gone := s.vanished + (s.pending.Keys - left.Keys);
      s.(pending := left,
         committed := if ok then left else s.committed,
         deleted := if ok then {} else s.deleted,
         prunedTo := if now > s.prunedTo then now else s.prunedTo,
         vanished := if ok then gone * s.cache.Keys else gone)
  }

  datatype UpsertOutcome = Indexed | Passed | AddFailed

  datatype Counts = Counts(processed: nat, skipped: nat)

  // ------------------------------------------------------------------------
  // The engine
  // ------------------------------------------------------------------------

  class Engine {
    const schema: Schema
    var cache: map<string, Cached>
    var pending: Documents
    var committed: Documents
    var generation: U64
    ghost var deleted: set<string>
    ghost var prunedTo: int
    ghost var vanished: set<string>
    ghost var unwritten: set<string>

    ghost function View(): State
      reads this
    {
      NodeState(cache, pending, committed, generation, deleted, prunedTo, vanished, unwritten)
    }

    constructor (schema: Schema, index: Documents)
      ensures View() == Opened(index) && this.schema == schema
    {
      this.schema := schema;
      cache, pending, committed, generation := map[], index, index, 0;
      deleted, prunedTo, vanished, unwritten := {}, NEVER_PRUNED, {}, {};
    }

    method FindCachedOrIndexed(id: string) returns (found: Option<Doc>)
      ensures found == Find(View(), id)
    {
      if id in cache {
        found := Some(cache[id].doc);
      } else {
        found := Get(committed, id);
      }
    }

    /** The upsert arm of `process_batch`; `failing` is what `add_document` would answer. */
    method ProcessUpsert(op: IndexOperation, failing: bool) returns (outcome: UpsertOutcome)
      requires op.kind.Upsert?
      modifies this
      ensures outcome.AddFailed? <==> failing && AddsDocument(old(View()), op, schema)
      ensures outcome.AddFailed? ==> View() == WriteFault(old(View()), op)
      ensures !outcome.AddFailed? ==>
                View() == Write(old(View()), op, schema) && (outcome.Passed? <==> Skipped(old(View()), op, schema))
    {
      var existing := FindCachedOrIndexed(op.id);
      if existing.Some? && existing.value.writetime >= op.writetime {
        return Passed;
      }
      var doc := NewDoc(existing, op);
      cache := cache[op.id := Cached(doc, generation)];
      pending := pending - {op.id};
      if !schema(doc) {
        vanished, unwritten := vanished + {op.id}, unwritten - {op.id};
        return Passed;
      }
      if failing {
        vanished, unwritten := vanished + {op.id}, unwritten + {op.id};
        return AddFailed;
      }
      pending := pending[op.id := doc];
      vanished, unwritten := vanished - {op.id}, unwritten - {op.id};
      assert pending == old(pending)[op.id := doc];
      return Indexed;
    }

    /** The delete arm. */
    method ProcessDelete(op: IndexOperation) returns (done: bool)
      requires op.kind.Delete?
      modifies this
      ensures View() == Write(old(View()), op, schema) && done == !Skipped(old(View()), op, schema)
    {
      var existing := FindCachedOrIndexed(op.id);
      if existing.Some? && existing.value.writetime >= op.writetime {
        return false;
      }
      pending := pending - {op.id};
      cache := cache - {op.id};
      deleted, vanished, unwritten := deleted + {op.id}, vanished + {op.id}, unwritten - {op.id};
      done := true;
    }

    /** The partition-delete arm, which looks at no writetime. */
    method ProcessPartitionDelete(op: IndexOperation)
      requires op.kind.PartitionDelete?
      modifies this
      ensures View() == Write(old(View()), op, schema)
    {
      var pk := PartitionOf(op);
      ghost var gone := InPartition(View(), pk);
      pending := Without(pending, pk);
      cache := map id | id in cache && cache[id].doc.partition != pk :: cache[id];
      deleted, vanished, unwritten := deleted + gone, vanished + gone, unwritten - gone;
    }

    /**
     * `process_batch`: every operation is accounted for, as processed or as skipped, unless the
     * `add_document` of the operation of index `fault` is reached and fails.
     */
    method ProcessBatch(ops: seq<IndexOperation>, fault: Option<nat>) returns (counts: Option<Counts>)
      modifies this
      ensures View() == Batch(old(View()), ops, fault, schema)
      ensures counts.None? <==> Fails(old(View()), ops, fault, schema)
      ensures counts.Some? ==>
                counts.value.skipped == SkippedCount(old(View()), ops, schema) &&
                counts.value.processed + counts.value.skipped == |ops|
    {
      var processed, skipped := 0, 0;
      for i := 0 to |ops|
        invariant View() == WriteAll(old(View()), ops[..i], schema)
        invariant skipped == SkippedCount(old(View()), ops[..i], schema)
        invariant processed + skipped == i
        invariant fault.Some? && fault.value < i ==> !Fails(old(View()), ops, fault, schema)
      {
        assert ops[..i + 1][..i] == ops[..i];
        WriteAllSnoc(old(View()), ops, i, schema);
        var done := false;
        match ops[i].kind {
          case Upsert =>
            var outcome := ProcessUpsert(ops[i], fault == Some(i));
            if outcome.AddFailed? {
              return None;
            }
            done := outcome.Indexed?;
          case Delete => done := ProcessDelete(ops[i]);
          case PartitionDelete => ProcessPartitionDelete(ops[i]); done := true;
          case Unspecified =>
        }
        if done {
          processed := processed + 1;
        } else {
          skipped := skipped + 1;
        }
      }
      assert ops[..|ops|] == ops;
      return Some(Counts(processed, skipped));
    }

    /** One iteration of the committer; `ok` is the outcome of the index commit. */
    method CommitTick(ok: bool)
      modifies this
      ensures View() == Commit(old(View()), ok)
    {
      if ok {
        committed := pending;
        var committedGeneration := generation;
        generation := Next(generation);
        cache := map id | id in cache && cache[id].generation > committedGeneration :: cache[id];
        deleted, vanished, unwritten := {}, vanished * cache.Keys, unwritten * cache.Keys;
      } else {
        generation := Previous(generation);
      }
    }

    /** One iteration of the pruner. */
    method PruneTick(now: I64, outcome: PruneOutcome)
      modifies this
      ensures View() == Prune(old(View()), now, outcome)
    {
      if outcome.QueryFailed? {
        return;
      }
      ghost var before := pending.Keys;
      pending := Unexpired(pending, now);
      vanished := vanished + (before - pending.Keys);
      prunedTo := if now > prunedTo then now else prunedTo;
      if outcome.Pruned? {
        committed := pending;
        deleted, vanished := {}, vanished * cache.Keys;
      }
    }

    /** `list_document_ids_by_partition_key`: cached ids first, then indexed ones not already listed. */
    method ListDocumentIds(partition: string) returns (ids: seq<string>)
      ensures forall id :: id in ids <==> id in Listed(View(), partition)
      ensures forall i, j :: 0 <= i < j < |ids| ==> ids[i] != ids[j]
    {
      ids := [];
      var todo := cache.Keys;
      while todo != {}
        invariant todo <= cache.Keys
        invariant forall id :: id in ids <==>
                    id in cache && id !in todo && cache[id].doc.partition == partition
        invariant forall i, j :: 0 <= i < j < |ids| ==> ids[i] != ids[j]
        decreases todo
      {
        var id :| id in todo;
        todo := todo - {id};
        if cache[id].doc.partition == partition {
          ids := ids + [id];
        }
      }
      var seenFromCache := ids;
      todo := committed.Keys;
      while todo != {}
        invariant todo <= committed.Keys
        invariant forall id :: id in ids <==>
                    (id in seenFromCache || (id in committed && id !in todo && committed[id].partition == partition))
        invariant forall i, j :: 0 <= i < j < |ids| ==> ids[i] != ids[j]
        decreases todo
      {
        var id :| id in todo;
        todo := todo - {id};
        if committed[id].partition == partition && id !in seenFromCache {
          ids := ids + [id];
        }
      }
    }
  }

  function Listed(s: State, partition: string): set<string> {
    (set id | id in s.cache && s.cache[id].doc.partition == partition) +
    (set id | id in s.committed && s.committed[id].partition == partition)
  }

  // ------------------------------------------------------------------------
  // What every step keeps
  // ------------------------------------------------------------------------

  /**
   * Cache, pending view and index agree on every id that has not vanished; and an id that has vanished
   * is found by a lookup only because it expired, was refused by the schema, was deleted since the last
   * successful commit, or could not be added.
   */
  ghost predicate AgreesAt(s: State, id: string, schema: Schema) {
    if id in s.vanished then
      && id !in s.pending
      && (id in s.cache ==>
            s.cache[id].doc.expiresAt <= s.prunedTo || !schema(s.cache[id].doc) || id in s.unwritten)
      && (id !in s.cache && id in s.committed ==> s.committed[id].expiresAt <= s.prunedTo || id in s.deleted)
    else
      Find(s, id) == Get(s.pending, id)
  }

  ghost predicate Agreement(s: State, schema: Schema) {
    forall id :: AgreesAt(s, id, schema)
  }

  lemma WriteKeepsAgreementAt(s: State, op: IndexOperation, schema: Schema, id: string)
    requires AgreesAt(s, id, schema)
    ensures AgreesAt(Write(s, op, schema), id, schema)
  {
    match op.kind
    case Upsert =>
    case Delete =>
    case PartitionDelete =>
    case Unspecified =>
  }

  lemma WriteKeepsAgreement(s: State, op: IndexOperation, schema: Schema)
    requires Agreement(s, schema)
    ensures Agreement(Write(s, op, schema), schema)
  {
    forall id
      ensures AgreesAt(Write(s, op, schema), id, schema)
    {
      assert AgreesAt(s, id, schema);
      WriteKeepsAgreementAt(s, op, schema, id);
    }
  }

  lemma {:induction false} BatchKeepsAgreement(s: State, ops: seq<IndexOperation>, schema: Schema)
    requires Agreement(s, schema)
    ensures Agreement(WriteAll(s, ops, schema), schema)
    decreases |ops|
  {
    if ops != [] {
      WriteKeepsAgreement(s, ops[0], schema);
      BatchKeepsAgreement(Write(s, ops[0], schema), ops[1..], schema);
    }
  }

  lemma FaultyBatchKeepsAgreement(s: State, ops: seq<IndexOperation>, fault: Option<nat>, schema: Schema)
    requires Agreement(s, schema)
    ensures Agreement(Batch(s, ops, fault, schema), schema)
  {
    BatchKeepsAgreement(s, ops, schema);
    if Fails(s, ops, fault, schema) {
      BatchKeepsAgreement(s, ops[..fault.value], schema);
      FaultKeepsAgreement(WriteAll(s, ops[..fault.value], schema), ops[fault.value], schema);
    }
  }

  lemma FaultKeepsAgreement(s: State, op: IndexOperation, schema: Schema)
    requires Agreement(s, schema)
    ensures Agreement(WriteFault(s, op), schema)
  {
    forall id
      ensures AgreesAt(WriteFault(s, op), id, schema)
    {
      assert AgreesAt(s, id, schema);
    }
  }

  lemma CommitKeepsAgreement(s: State, ok: bool, schema: Schema)
    requires Agreement(s, schema)
    ensures Agreement(Commit(s, ok), schema)
  {
    forall id
      ensures AgreesAt(Commit(s, ok), id, schema)
    {
      assert AgreesAt(s, id, schema);
    }
  }

  lemma PruneKeepsAgreement(s: State, now: I64, outcome: PruneOutcome, schema: Schema)
    requires Agreement(s, schema)
    ensures Agreement(Prune(s, now, outcome), schema)
  {
    forall id
      ensures AgreesAt(Prune(s, now, outcome), id, schema)
    {
      assert AgreesAt(s, id, schema);
    }
  }

  // ------------------------------------------------------------------------
  // Retrying after a failed add
  // ------------------------------------------------------------------------

  /** The operation cannot touch the cached document of the id. */
  predicate NoNewer(s: State, id: string, op: IndexOperation) {
    id in s.cache &&
    match op.kind
    case Upsert => op.id == id ==> op.writetime <= s.cache[id].doc.writetime
    case Delete => op.id == id ==> op.writetime <= s.cache[id].doc.writetime
    case PartitionDelete => PartitionOf(op) != s.cache[id].doc.partition
    case Unspecified => true
  }

  /**
   * A retry does not repair a failed add: until the cache entry goes, whatever is no newer is skipped as
   * outdated and the document stays missing, though it was there before.
   */
  lemma {:induction false} LostUntilNewer(s: State, id: string, ops: seq<IndexOperation>, schema: Schema)
    requires id in s.cache && id !in s.pending
    requires forall op :: op in ops ==> NoNewer(s, id, op)
    ensures var end := WriteAll(s, ops, schema);
            id !in end.pending && id in end.cache && end.cache[id] == s.cache[id]
    decreases |ops|
  {
    if ops != [] {
      assert NoNewer(s, id, ops[0]);
      var s' := Write(s, ops[0], schema);
      assert s'.cache[id] == s.cache[id];
      forall op | op in ops[1..]
        ensures NoNewer(s', id, op)
      {
        assert NoNewer(s, id, op);
      }
      LostUntilNewer(s', id, ops[1..], schema);
    }
  }

  /** So the next commit publishes an index without the document, however often the operation is retried. */
  lemma FailedAddLosesDocument(s: State, op: IndexOperation, retries: seq<IndexOperation>, schema: Schema)
    requires AddsDocument(s, op, schema)
    requires forall r :: r in retries ==> r == op || NoNewer(WriteFault(s, op), op.id, r)
    ensures op.id !in Commit(WriteAll(WriteFault(s, op), retries, schema), true).committed
  {
    LostUntilNewer(WriteFault(s, op), op.id, retries, schema);
  }

  /** A newer upsert of the id does: it leaves the writer what it would have left had the add not failed. */
  lemma NewerUpsertRepairs(s: State, op: IndexOperation, newer: IndexOperation, schema: Schema)
    requires AddsDocument(s, op, schema) && newer.kind.Upsert? && newer.id == op.id && newer.writetime > op.writetime
    requires schema(NewDoc(Some(NewDoc(Find(s, op.id), op)), newer))
    ensures Write(WriteFault(s, op), newer, schema).pending == Write(Write(s, op, schema), newer, schema).pending
    ensures Write(WriteFault(s, op), newer, schema).cache == Write(Write(s, op, schema), newer, schema).cache
  {
  }
}
