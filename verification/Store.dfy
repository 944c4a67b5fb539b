/**
 * What a node's documents should be: a map from ids to documents and one update per operation.
 * The write engine is measured against this map.
 */
module Store {
  import opened Wrappers
  import opened JsonMerge
  import opened CollectionDeltas

  const U64_MAX := 0xFFFF_FFFF_FFFF_FFFF
  const I64_MAX := 0x7FFF_FFFF_FFFF_FFFF
  const I64_MIN := -0x8000_0000_0000_0000

  type U64 = n: int | 0 <= n <= U64_MAX
  type I64 = n: int | I64_MIN <= n <= I64_MAX

  datatype Doc = Doc(partition: string, body: Value, expiresAt: I64, writetime: U64)

  datatype OpType = Unspecified | Upsert | Delete | PartitionDelete

  /** `IndexOperation`; `payload` is the parsed text, `Null` when it does not parse. */
  datatype IndexOperation = IndexOperation(
    kind: OpType, id: string, partition: Option<string>, writetime: U64,
    ttl: Option<I64>, payload: Value, deltas: seq<Delta>)

  type Documents = map<string, Doc>

  // ------------------------------------------------------------------------
  // One operation
  // ------------------------------------------------------------------------

  /** The partition key falls back to the id. */
  function PartitionOf(op: IndexOperation): string {
    match op.partition
    case Some(pk) => pk
    case None => op.id
  }

  /** `i64::saturating_mul`. */
  function SaturatingMul(a: I64, b: I64): I64 {
    if a * b > I64_MAX then I64_MAX else if a * b < I64_MIN then I64_MIN else a * b
  }

  /** `u64::saturating_add`. */
  function SaturatingAdd(a: U64, b: U64): U64 {
    if a + b > U64_MAX then U64_MAX else a + b
  }

  function ExpiresAt(writetime: U64, ttl: Option<I64>): I64 {
    match ttl
    case None => I64_MAX
    case Some(seconds) =>
      var product := SaturatingMul(seconds, 1_000_000);
      var micros: U64 := if product > 0 then product else 0;
      var at := SaturatingAdd(writetime, micros);
      if at <= I64_MAX then at else I64_MAX
  }

  function Body(existing: Option<Doc>, op: IndexOperation): Value {
    var current := if existing.Some? then existing.value.body else EMPTY_OBJECT;
    var merged := Merge(current, op.payload);
    if op.deltas == [] then merged else ApplyDeltas(merged, op.deltas)
  }

  function NewDoc(existing: Option<Doc>, op: IndexOperation): Doc {
    Doc(PartitionOf(op), Body(existing, op), ExpiresAt(op.writetime, op.ttl), op.writetime)
  }

  /** The stored document is at least as new as the operation. */
  predicate Outdated(existing: Option<Doc>, op: IndexOperation) {
    existing.Some? && existing.value.writetime >= op.writetime
  }

  function Without(m: Documents, partition: string): Documents {
    map id | id in m && m[id].partition != partition :: m[id]
  }

  function Apply(m: Documents, op: IndexOperation): Documents {
    match op.kind
    case Upsert => if Outdated(Get(m, op.id), op) then m else m[op.id := NewDoc(Get(m, op.id), op)]
    case Delete => if Outdated(Get(m, op.id), op) then m else m - {op.id}
    case PartitionDelete => Without(m, PartitionOf(op))
    case Unspecified => m
  }

  function ApplyAll(m: Documents, ops: seq<IndexOperation>): Documents
    decreases |ops|
  {
    if ops == [] then m else ApplyAll(Apply(m, ops[0]), ops[1..])
  }

  /** The saturating computation is exact up to the ceiling of i64. */
  lemma ExpiryIsExact(writetime: U64, ttl: I64)
    ensures var exact := writetime + (if ttl > 0 then ttl else 0) * 1_000_000;
            ExpiresAt(writetime, Some(ttl)) == if exact < I64_MAX then exact else I64_MAX
  {
    var product := SaturatingMul(ttl, 1_000_000);
    if ttl > 0 {
      assert product == if ttl * 1_000_000 > I64_MAX then I64_MAX else ttl * 1_000_000;
    } else {
      assert product <= 0;
    }
  }

  /** A newer upsert changes one id, and that id's new document carries the operation's own times and partition. */
  lemma UpsertStores(m: Documents, op: IndexOperation)
    requires op.kind.Upsert?
    ensures op.id in m && m[op.id].writetime >= op.writetime ==> Apply(m, op) == m
    ensures !(op.id in m && m[op.id].writetime >= op.writetime) ==>
              var r := Apply(m, op);
              r.Keys == m.Keys + {op.id} && (forall id :: id in m && id != op.id ==> r[id] == m[id]) &&
              r[op.id].writetime == op.writetime &&
              r[op.id].partition == (if op.partition.Some? then op.partition.value else op.id) &&
              (op.ttl.None? ==> r[op.id].expiresAt == I64_MAX) &&
              (op.ttl.Some? ==>
                 var exact := op.writetime + (if op.ttl.value > 0 then op.ttl.value else 0) * 1_000_000;
                 r[op.id].expiresAt == if exact < I64_MAX then exact else I64_MAX)
  {
    if op.ttl.Some? {
      ExpiryIsExact(op.writetime, op.ttl.value);
    }
  }

  /** Scalars of the payload are readable in the stored document, and what the payload omits is kept. */
  lemma UpsertMerges(m: Documents, op: IndexOperation, path: Path)
    requires op.kind.Upsert? && op.deltas == [] && !Outdated(Get(m, op.id), op) && op.payload.Object?
    requires op.id in m ==> m[op.id].body.Object?
    ensures var before := if op.id in m then m[op.id].body else EMPTY_OBJECT;
            var after := Apply(m, op)[op.id].body;
            (Lookup(op.payload, path).Some? && !Lookup(op.payload, path).value.Object? ==>
               Lookup(after, path) == Lookup(op.payload, path)) &&
            (Lookup(op.payload, path).None? && !Blocked(op.payload, path) ==>
               Lookup(after, path) == Lookup(before, path))
  {
    MergeReadLeafAndGap(if op.id in m then m[op.id].body else EMPTY_OBJECT, op.payload, path);
  }

  /** Collection signals act on the merged document: the last signal about an element decides it. */
  lemma UpsertAppliesDeltas(m: Documents, op: IndexOperation, column: string, v: Value)
    requires op.kind.Upsert? && !Outdated(Get(m, op.id), op) && op.payload.Object?
    requires op.id in m ==> m[op.id].body.Object?
    ensures var merged := Merge(if op.id in m then m[op.id].body else EMPTY_OBJECT, op.payload);
            var after := Apply(m, op)[op.id].body;
            after.Object? &&
            (v in ElementsAt(after.fields, column) <==>
               LastVerdict(op.deltas, column, v).Insert? ||
               (LastVerdict(op.deltas, column, v).Keep? && v in ElementsAt(merged.fields, column))) &&
            ((forall d :: d in op.deltas ==> d.column != column) ==>
               Get(after.fields, column) == Get(merged.fields, column))
  {
    var merged := Merge(if op.id in m then m[op.id].body else EMPTY_OBJECT, op.payload);
    DeltasMembers(merged.fields, op.deltas, column, v);
    DeltasTouchOnlyTheirColumns(merged.fields, op.deltas, column);
  }

  /**
   * The new body owes nothing to the old one: each old column the deltas do not touch is overwritten by the
   * payload, and of each one they touch either the payload sets it or whatever elements are never removed
   * are what the deltas build first anyway.
   */
  predicate Forgets(earlier: Value, payload: Value, deltas: seq<Delta>) {
    earlier.Object? && payload.Object? ==>
      forall c :: c in earlier.fields ==>
        if Touched(deltas, c)
        then c in payload.fields || Survivors(ElementsAt(earlier.fields, c), deltas, c) <= Built(deltas, c)
        else c in payload.fields && Covers(payload.fields[c], earlier.fields[c])
  }

  lemma ForgetsColumnIff(earlier: Value, op: IndexOperation, c: string)
    requires earlier.Object? && op.payload.Object?
    ensures var f, g := Merge(earlier, op.payload).fields, op.payload.fields;
            Get(ApplyToFields(f, op.deltas), c) == Get(ApplyToFields(g, op.deltas), c) <==>
            (c in earlier.fields ==>
               if Touched(op.deltas, c)
               then c in g || Survivors(ElementsAt(earlier.fields, c), op.deltas, c) <= Built(op.deltas, c)
               else c in g && Covers(g[c], earlier.fields[c]))
  {
    var f, g := Merge(earlier, op.payload).fields, op.payload.fields;
    DeltasJoinIff(f, g, op.deltas, c);
    if c in g {
      MergeIsPatchIffCovers(FieldOrNull(earlier.fields, c), g[c]);
      ElementsDecide(f, g, op.deltas, c);
    } else {
      ElementsDecide(f, earlier.fields, op.deltas, c);
      ElementsDecide(g, map[], op.deltas, c);
      OldElementsForgottenIff(earlier.fields, op.deltas, c);
      if c !in earlier.fields {
        ElementsDecide(f, g, op.deltas, c);
      }
    }
  }

  /** An upsert over an old document equals one over nothing exactly when it forgets the old one. */
  lemma BodyForgetsIff(remains: Doc, op: IndexOperation)
    ensures Body(Some(remains), op) == Body(None, op) <==> Forgets(remains.body, op.payload, op.deltas)
    ensures op.deltas == [] ==> (Forgets(remains.body, op.payload, op.deltas) <==> Covers(op.payload, remains.body))
  {
    var earlier := remains.body;
    MergeIsPatchIffCovers(EMPTY_OBJECT, op.payload);
    if earlier.Object? && op.payload.Object? {
      var f := ApplyToFields(Merge(earlier, op.payload).fields, op.deltas);
      var g := ApplyToFields(op.payload.fields, op.deltas);
      forall c
        ensures Get(f, c) == Get(g, c) <==>
                (c in earlier.fields ==>
                   if Touched(op.deltas, c)
                   then c in op.payload.fields ||
                        Survivors(ElementsAt(earlier.fields, c), op.deltas, c) <= Built(op.deltas, c)
                   else c in op.payload.fields && Covers(op.payload.fields[c], earlier.fields[c]))
      {
        ForgetsColumnIff(earlier, op, c);
      }
      if Forgets(earlier, op.payload, op.deltas) {
        SameGets(f, g);
      }
    } else {
      MergeIsPatchIffCovers(earlier, op.payload);
    }
  }

  // ------------------------------------------------------------------------
  // One id at a time
  // ------------------------------------------------------------------------

  /** What an operation does to the document of `id`. */
  function StepAt(s: Option<Doc>, id: string, op: IndexOperation): Option<Doc> {
    match op.kind
    case Upsert => if op.id == id && !Outdated(s, op) then Some(NewDoc(s, op)) else s
    case Delete => if op.id == id && !Outdated(s, op) then None else s
    case PartitionDelete => if s.Some? && s.value.partition == PartitionOf(op) then None else s
    case Unspecified => s
  }

  function RunAt(s: Option<Doc>, id: string, ops: seq<IndexOperation>): Option<Doc>
    decreases |ops|
  {
    if ops == [] then s else RunAt(StepAt(s, id, ops[0]), id, ops[1..])
  }

  lemma {:induction false} ApplyAllAt(m: Documents, ops: seq<IndexOperation>, id: string)
    ensures Get(ApplyAll(m, ops), id) == RunAt(Get(m, id), id, ops)
    decreases |ops|
  {
    if ops != [] {
      assert Get(Apply(m, ops[0]), id) == StepAt(Get(m, id), id, ops[0]);
      ApplyAllAt(Apply(m, ops[0]), ops[1..], id);
    }
  }

  lemma {:induction false} ApplyAllAppend(m: Documents, xs: seq<IndexOperation>, ys: seq<IndexOperation>)
    ensures ApplyAll(m, xs + ys) == ApplyAll(ApplyAll(m, xs), ys)
    decreases |xs|
  {
    if xs == [] {
      assert xs + ys == ys;
    } else {
      assert (xs + ys)[1..] == xs[1..] + ys;
      ApplyAllAppend(Apply(m, xs[0]), xs[1..], ys);
    }
  }

  // ------------------------------------------------------------------------
  // Retry and crash safety
  // ------------------------------------------------------------------------

  /** The ingestor derives an id's partition from the id's own leading columns. */
  ghost predicate WellKeyed(ops: seq<IndexOperation>, partition: string -> string) {
    forall op :: op in ops && op.kind.Upsert? ==> PartitionOf(op) == partition(op.id)
  }

  ghost predicate KeyedDocs(m: Documents, partition: string -> string) {
    forall id :: id in m ==> m[id].partition == partition(id)
  }

  ghost predicate KeyedAt(s: Option<Doc>, id: string, partition: string -> string) {
    s.Some? ==> s.value.partition == partition(id)
  }

  function Writetime(s: Option<Doc>): int {
    if s.Some? then s.value.writetime else -1
  }

  /**
   * A run that ends older than it began was reset by a deletion on the way, and a run from a document
   * that is no newer is reset by the same deletion.
   */
  lemma {:induction false} OlderRunsMeet(
      s: Option<Doc>, t: Option<Doc>, id: string, ops: seq<IndexOperation>, partition: string -> string)
    requires WellKeyed(ops, partition) && KeyedAt(s, id, partition) && KeyedAt(t, id, partition)
    requires Writetime(t) <= Writetime(s)
    requires Writetime(RunAt(s, id, ops)) < Writetime(s)
    ensures RunAt(t, id, ops) == RunAt(s, id, ops)
    decreases |ops|
  {
    var s', t' := StepAt(s, id, ops[0]), StepAt(t, id, ops[0]);
    if s' != t' {
      OlderRunsMeet(s', t', id, ops[1..], partition);
    }
  }

  /** Running the same operations again from where they ended ends there again. */
  lemma {:induction false} RerunAt(
      s: Option<Doc>, id: string, ops: seq<IndexOperation>, partition: string -> string)
    requires WellKeyed(ops, partition) && KeyedAt(s, id, partition)
    ensures RunAt(RunAt(s, id, ops), id, ops) == RunAt(s, id, ops)
    decreases |ops|
  {
    RunAtKeyed(s, id, ops, partition);
    if ops != [] {
      var end := RunAt(s, id, ops);
      var s', t' := StepAt(s, id, ops[0]), StepAt(end, id, ops[0]);
      if t' == end {
        RerunAt(s', id, ops[1..], partition);
      } else if t' != s' {
        OlderRunsMeet(s', t', id, ops[1..], partition);
      }
    }
  }

  lemma {:induction false} RunAtKeyed(
      s: Option<Doc>, id: string, ops: seq<IndexOperation>, partition: string -> string)
    requires WellKeyed(ops, partition) && KeyedAt(s, id, partition)
    ensures KeyedAt(RunAt(s, id, ops), id, partition)
    decreases |ops|
  {
    if ops != [] {
      RunAtKeyed(StepAt(s, id, ops[0]), id, ops[1..], partition);
    }
  }

  lemma ApplyAllKeyed(m: Documents, ops: seq<IndexOperation>, partition: string -> string)
    requires WellKeyed(ops, partition) && KeyedDocs(m, partition)
    ensures KeyedDocs(ApplyAll(m, ops), partition)
  {
    var r := ApplyAll(m, ops);
    forall id | id in r
      ensures r[id].partition == partition(id)
    {
      ApplyAllAt(m, ops, id);
      RunAtKeyed(Get(m, id), id, ops, partition);
      assert Get(r, id) == Some(r[id]);
    }
  }

  /** Every list of operations is idempotent, whatever mix of upserts and deletions it holds. */
  lemma BatchIdempotent(m: Documents, ops: seq<IndexOperation>, partition: string -> string)
    requires WellKeyed(ops, partition) && KeyedDocs(m, partition)
    ensures ApplyAll(ApplyAll(m, ops), ops) == ApplyAll(m, ops)
  {
    forall id
      ensures Get(ApplyAll(ApplyAll(m, ops), ops), id) == Get(ApplyAll(m, ops), id)
    {
      ApplyAllAt(m, ops, id);
      ApplyAllAt(ApplyAll(m, ops), ops, id);
      RerunAt(Get(m, id), id, ops, partition);
    }
    SameGets(ApplyAll(ApplyAll(m, ops), ops), ApplyAll(m, ops));
  }

  /** A crash after `cut` operations followed by the whole batch. */
  lemma PrefixThenBatch(m: Documents, ops: seq<IndexOperation>, cut: nat, partition: string -> string)
    requires WellKeyed(ops, partition) && KeyedDocs(m, partition)
    requires cut <= |ops|
    ensures ApplyAll(ApplyAll(m, ops[..cut]), ops) == ApplyAll(m, ops)
  {
    var half := ApplyAll(m, ops[..cut]);
    assert ops == ops[..cut] + ops[cut..];
    ApplyAllAppend(half, ops[..cut], ops[cut..]);
    ApplyAllAppend(m, ops[..cut], ops[cut..]);
    BatchIdempotent(m, ops[..cut], partition);
  }

  /** Attempts that stopped after the given numbers of operations. */
  function Attempts(m: Documents, ops: seq<IndexOperation>, cuts: seq<nat>): Documents
    requires forall i :: 0 <= i < |cuts| ==> cuts[i] <= |ops|
    decreases |cuts|
  {
    if cuts == [] then m else Attempts(ApplyAll(m, ops[..cuts[0]]), ops, cuts[1..])
  }

  /** Any number of partial attempts before a complete one leave what the complete one alone leaves. */
  lemma {:induction false} RetriesAreInvisible(
      m: Documents, ops: seq<IndexOperation>, cuts: seq<nat>, partition: string -> string)
    requires WellKeyed(ops, partition) && KeyedDocs(m, partition)
    requires forall i :: 0 <= i < |cuts| ==> cuts[i] <= |ops|
    ensures ApplyAll(Attempts(m, ops, cuts), ops) == ApplyAll(m, ops)
    decreases |cuts|
  {
    if cuts != [] {
      var half := ApplyAll(m, ops[..cuts[0]]);
      PrefixThenBatch(m, ops, cuts[0], partition);
      ApplyAllKeyed(m, ops[..cuts[0]], partition);
      RetriesAreInvisible(half, ops, cuts[1..], partition);
    }
  }

  lemma RunThree(s: Option<Doc>, id: string, x: IndexOperation, y: IndexOperation, z: IndexOperation)
    ensures RunAt(s, id, [x, y, z]) == StepAt(StepAt(StepAt(s, id, x), id, y), id, z)
  {
    assert [x, y, z][1..] == [y, z] && [y, z][1..] == [z] && [z][1..] == [];
    assert RunAt(StepAt(StepAt(s, id, x), id, y), id, [z]) == StepAt(StepAt(StepAt(s, id, x), id, y), id, z);
  }

  function MovingUpsert(partition: string, writetime: U64, value: int): IndexOperation {
    IndexOperation(Upsert, "x", Some(partition), writetime, None, Object(map["k" := Number(value)]), [])
  }

  /** Without it a retry is visible: an id that moves between partitions escapes a partition delete. */
  lemma RetryNeedsKeyedIds()
    ensures var dropB := IndexOperation(PartitionDelete, "B", None, 6, None, Null, []);
            var ops := [MovingUpsert("A", 5, 1), dropB, MovingUpsert("A", 3, 2)];
            var m: Documents := map["x" := Doc("B", EMPTY_OBJECT, I64_MAX, 9)];
            "x" in ApplyAll(m, ops) && ApplyAll(m, ops)["x"].writetime == 3 &&
            "x" in ApplyAll(ApplyAll(m, ops), ops) && ApplyAll(ApplyAll(m, ops), ops)["x"].writetime == 5
  {
    var upA, late := MovingUpsert("A", 5, 1), MovingUpsert("A", 3, 2);
    var dropB := IndexOperation(PartitionDelete, "B", None, 6, None, Null, []);
    var m: Documents := map["x" := Doc("B", EMPTY_OBJECT, I64_MAX, 9)];
    var ops := [upA, dropB, late];
    RunThree(Get(m, "x"), "x", upA, dropB, late);
    RunThree(Some(NewDoc(None, late)), "x", upA, dropB, late);
    ApplyAllAt(m, ops, "x");
    ApplyAllAt(ApplyAll(m, ops), ops, "x");
  }
}
