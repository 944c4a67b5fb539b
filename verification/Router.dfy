/** From change-log rows to index operations: routing intents, keys, targets and clustering ranges. */
module Router {
  import opened Wrappers
  import opened JsonMerge
  import opened CollectionDeltas
  import opened Store
  import opened Keys
  import Sharding

  datatype OperationType =
    | PreImage | RowUpdate | RowInsert | RowDelete | WholePartitionDelete | PostImage
    | RangeInclLeft | RangeExclLeft | RangeInclRight | RangeExclRight

  /**
   * One change-log row. Key values are already key strings; a missing clustering value is `None`. The
   * converted payload and collection deltas are given.
   */
  datatype CdcRow = CdcRow(
    operation: OperationType, pkValues: seq<string>, ckValues: seq<Option<string>>,
    writetime: U64, ttl: Option<I64>, payload: Value, deltas: seq<Delta>)

  datatype RoutingAction = Skip | RangeDeleteStart | RangeDeleteEnd | Forward(kind: OpType)

  /** `RoutingAction::determine`. */
  function Determine(operation: OperationType): RoutingAction {
    match operation
    case PreImage => Skip
    case RangeInclLeft | RangeExclLeft => RangeDeleteStart
    case RangeInclRight | RangeExclRight => RangeDeleteEnd
    case RowInsert | RowUpdate | PostImage => Forward(Upsert)
    case RowDelete => Forward(Delete)
    case WholePartitionDelete => Forward(PartitionDelete)
  }

  datatype PendingRangeStart = PendingRangeStart(
    partitionKey: string, targetNode: nat, ckValues: seq<Option<string>>, startInclusive: bool, writetime: U64)

  datatype Table = Table(pkColumns: nat, ckTypes: seq<ColumnType>)

  /** A row of the table: one value for each key column, and at least one partition-key column. */
  predicate RowOf(table: Table, row: CdcRow) {
    |row.pkValues| == table.pkColumns > 0 && |row.ckValues| == |table.ckTypes|
  }

  function PartitionKey(row: CdcRow): string {
    Join(row.pkValues)
  }

  function OrNull(v: Option<string>): string {
    match v
    case Some(s) => s
    case None => "null"
  }

  function KeyStrings(vs: seq<Option<string>>): seq<string> {
    if vs == [] then [] else [OrNull(vs[0])] + KeyStrings(vs[1..])
  }

  function RowId(row: CdcRow): string {
    Join(row.pkValues + KeyStrings(row.ckValues))
  }

  /** The batch item of a forwarded row: the target node and the operation. */
  datatype BatchItem = BatchItem(targetNode: nat, operation: IndexOperation)

  /** `route_forward`, up to handing the item to the batch service. */
  function ItemFor(row: CdcRow, kind: OpType, hash: seq<string> -> nat, nodes: nat): BatchItem
    requires nodes > 0
  {
    BatchItem(
      Sharding.TargetNode(hash, row.pkValues, nodes),
      IndexOperation(
        kind, RowId(row), Some(PartitionKey(row)), row.writetime, row.ttl,
        if kind.Upsert? then row.payload else Null,
        if kind.Upsert? && !row.operation.PostImage? then row.deltas else []))
  }

  /** `extract_range_delete_start`. */
  function StartOf(row: CdcRow, hash: seq<string> -> nat, nodes: nat): PendingRangeStart
    requires nodes > 0
  {
    PendingRangeStart(
      PartitionKey(row), Sharding.TargetNode(hash, row.pkValues, nodes), row.ckValues,
      row.operation.RangeInclLeft?, row.writetime)
  }

  // ------------------------------------------------------------------------
  // Ids determine partitions
  // ------------------------------------------------------------------------

  /** The partition key is the id's leading components. */
  function PartitionOfId(pkColumns: nat): string -> string {
    id => var parts := Split(id); if pkColumns <= |parts| then Join(parts[..pkColumns]) else id
  }

  ghost predicate ColonFreeRow(row: CdcRow) {
    ColonFree(row.pkValues) && ColonFree(KeyStrings(row.ckValues))
  }

  lemma RowIdDeterminesPartition(table: Table, row: CdcRow)
    requires RowOf(table, row) && ColonFreeRow(row)
    ensures PartitionOfId(table.pkColumns)(RowId(row)) == PartitionKey(row)
  {
    SplitOfTwo(row.pkValues, KeyStrings(row.ckValues));
    LeadingParts(RowId(row), row.pkValues);
  }

  lemma LeadingParts(id: string, pkValues: seq<string>)
    requires |pkValues| <= |Split(id)| && Split(id)[..|pkValues|] == pkValues
    ensures PartitionOfId(|pkValues|)(id) == Join(pkValues)
  {
  }

  lemma {:induction false} KeyStringsInjective(xs: seq<Option<string>>, ys: seq<Option<string>>)
    requires |xs| == |ys| && (forall i :: 0 <= i < |xs| ==> xs[i].Some? && ys[i].Some?)
    ensures KeyStrings(xs) == KeyStrings(ys) <==> xs == ys
  {
    if xs != [] {
      KeyStringsInjective(xs[1..], ys[1..]);
      var u, v := KeyStrings(xs), KeyStrings(ys);
      assert u[0] == xs[0].value && u[1..] == KeyStrings(xs[1..]);
      assert v[0] == ys[0].value && v[1..] == KeyStrings(ys[1..]);
      assert xs == [xs[0]] + xs[1..] && ys == [ys[0]] + ys[1..];
    }
  }

  /** Rows with different keys get different ids. */
  lemma RowIdsAreInjective(table: Table, x: CdcRow, y: CdcRow)
    requires RowOf(table, x) && RowOf(table, y) && ColonFreeRow(x) && ColonFreeRow(y)
    requires forall i :: 0 <= i < |table.ckTypes| ==> x.ckValues[i].Some? && y.ckValues[i].Some?
    ensures RowId(x) == RowId(y) <==> x.pkValues == y.pkValues && x.ckValues == y.ckValues
  {
    SplitOfTwo(x.pkValues, KeyStrings(x.ckValues));
    SplitOfTwo(y.pkValues, KeyStrings(y.ckValues));
    KeyStringsInjective(x.ckValues, y.ckValues);
  }

  /** An id's components are the row's key values, missing clustering values reading `null`. */
  lemma RowIdParts(row: CdcRow)
    requires row.pkValues != [] && ColonFreeRow(row)
    ensures var parts, n := Split(RowId(row)), |row.pkValues|;
            |parts| == n + |row.ckValues| && parts[..n] == row.pkValues &&
            forall i :: 0 <= i < |row.ckValues| ==>
              parts[n + i] == if row.ckValues[i].Some? then row.ckValues[i].value else "null"
  {
    SplitOfTwo(row.pkValues, KeyStrings(row.ckValues));
    KeyStringsAt(row.ckValues);
    var parts, n := Split(RowId(row)), |row.pkValues|;
    assert forall i :: 0 <= i < |row.ckValues| ==> parts[n + i] == parts[n..][i];
  }

  lemma {:induction false} KeyStringsAt(vs: seq<Option<string>>)
    ensures |KeyStrings(vs)| == |vs|
    ensures forall i :: 0 <= i < |vs| ==> KeyStrings(vs)[i] == if vs[i].Some? then vs[i].value else "null"
  {
    if vs != [] {
      KeyStringsAt(vs[1..]);
    }
  }

  /** A start bound is kept with the row's own values and goes to the node that owns the row's partition. */
  lemma StartBoundIsOwned(row: CdcRow, hash: seq<string> -> nat, nodes: nat)
    requires nodes > 0 && row.pkValues != [] && ColonFree(row.pkValues)
    ensures var start := StartOf(row, hash, nodes);
            start.partitionKey == Join(row.pkValues) &&
            start.targetNode == Sharding.Owner(hash, start.partitionKey, nodes) &&
            start.ckValues == row.ckValues && start.writetime == row.writetime &&
            (row.operation.RangeInclLeft? ==> start.startInclusive) &&
            (row.operation.RangeExclLeft? ==> !start.startInclusive)
  {
    Sharding.TargetIsOwner(hash, row.pkValues, nodes);
  }

  /** Forwarded operations carry the partition their id determines and go to the node that owns it. */
  lemma ForwardedItemsAreKeyed(
      table: Table, row: CdcRow, kind: OpType, hash: seq<string> -> nat, nodes: nat)
    requires nodes > 0 && RowOf(table, row) && ColonFreeRow(row)
    ensures var item := ItemFor(row, kind, hash, nodes);
            PartitionOf(item.operation) == PartitionOfId(table.pkColumns)(item.operation.id) &&
            item.targetNode == Sharding.Owner(hash, PartitionOf(item.operation), nodes)
  {
    RowIdDeterminesPartition(table, row);
    Sharding.TargetIsOwner(hash, row.pkValues, nodes);
  }

  /** When a row's document expires: never, or its time to live after the write, as far as 64 bits go. */
  function RowExpiry(row: CdcRow): int {
    match row.ttl
    case None => I64_MAX
    case Some(ttl) =>
      var exact := row.writetime + (if ttl > 0 then ttl else 0) * 1_000_000;
      if exact < I64_MAX then exact else I64_MAX
  }

  /**
   * What a row does to the documents once its item is applied: images and range bounds are not forwarded,
   * a newer write makes the row's document, a newer row delete removes just that one, and a partition
   * delete removes the partition whatever its age.
   */
  lemma ForwardedRowEffect(row: CdcRow, hash: seq<string> -> nat, nodes: nat, m: Documents)
    requires nodes > 0
    ensures var action, id := Determine(row.operation), RowId(row);
            match row.operation
            case PreImage => action == Skip
            case RangeInclLeft | RangeExclLeft => action == RangeDeleteStart
            case RangeInclRight | RangeExclRight => action == RangeDeleteEnd
            case RowInsert | RowUpdate | PostImage =>
              action.Forward? &&
              (Writetime(Get(m, id)) < row.writetime ==>
                 var r := Apply(m, ItemFor(row, action.kind, hash, nodes).operation);
                 r.Keys == m.Keys + {id} && r - {id} == m - {id} && r[id].writetime == row.writetime &&
                 r[id].partition == PartitionKey(row) &&
                 r[id].expiresAt == RowExpiry(row) &&
                 (id !in m && row.payload.Object? && (row.operation.PostImage? || row.deltas == []) ==>
                    r[id].body == row.payload))
            case RowDelete =>
              action.Forward? &&
              Apply(m, ItemFor(row, action.kind, hash, nodes).operation) ==
              if Writetime(Get(m, id)) < row.writetime then m - {id} else m
            case WholePartitionDelete =>
              action.Forward? &&
              Apply(m, ItemFor(row, action.kind, hash, nodes).operation) == Without(m, PartitionKey(row))
  {
    if row.operation.RowInsert? || row.operation.RowUpdate? || row.operation.PostImage? {
      UpsertStores(m, ItemFor(row, Upsert, hash, nodes).operation);
      MergeIsPatchIffCovers(EMPTY_OBJECT, row.payload);
    }
  }

  /**
   * What a newer write leaves in a collection column, on whatever document there was: the row's last signal
   * about an element decides, and without one the element is there if it was after the payload was merged.
   * A postimage is merged whole and signals nothing.
   */
  lemma ForwardedCollections(
      row: CdcRow, hash: seq<string> -> nat, nodes: nat, m: Documents, column: string, v: Value)
    requires nodes > 0 && (row.operation.RowInsert? || row.operation.RowUpdate? || row.operation.PostImage?)
    requires Writetime(Get(m, RowId(row))) < row.writetime
    ensures var id := RowId(row);
            var merged := Merge(if id in m then m[id].body else EMPTY_OBJECT, row.payload);
            var r := Apply(m, ItemFor(row, Determine(row.operation).kind, hash, nodes).operation);
            id in r &&
            if row.operation.PostImage? || !merged.Object? then r[id].body == merged
            else
              var after := r[id].body;
              after.Object? &&
              (v in ElementsAt(after.fields, column) <==>
                 LastVerdict(row.deltas, column, v).Insert? ||
                 (LastVerdict(row.deltas, column, v).Keep? && v in ElementsAt(merged.fields, column))) &&
              ((forall d :: d in row.deltas ==> d.column != column) ==>
                 Get(after.fields, column) == Get(merged.fields, column))
  {
    var id := RowId(row);
    var merged := Merge(if id in m then m[id].body else EMPTY_OBJECT, row.payload);
    if merged.Object? {
      DeltasMembers(merged.fields, row.deltas, column, v);
      DeltasTouchOnlyTheirColumns(merged.fields, row.deltas, column);
    }
  }

  // ------------------------------------------------------------------------
  // Clustering ranges
  // ------------------------------------------------------------------------

  /** An optional bound and whether it includes its own value. */
  datatype Bound = Bound(value: Option<string>, inclusive: bool)

  predicate AboveStart(v: string, start: Bound, ty: ColumnType) {
    match start.value
    case None => true
    case Some(s) =>
      var cmp := CompareCql(v, s, ty);
      if start.inclusive then cmp != Less else cmp == Greater
  }

  predicate BelowEnd(v: string, end: Bound, ty: ColumnType) {
    match end.value
    case None => true
    case Some(e) =>
      var cmp := CompareCql(v, e, ty);
      if end.inclusive then cmp != Greater else cmp == Less
  }

  /** The two bounds of a range delete, one value for each clustering column. */
  datatype Range = Range(start: seq<Option<string>>, startInclusive: bool, end: seq<Option<string>>, endInclusive: bool)

  /** Bounds are checked column by column. */
  predicate InRange(ckParts: seq<string>, range: Range, types: seq<ColumnType>)
    requires |ckParts| == |range.start| == |range.end| == |types|
  {
    forall i :: 0 <= i < |types| ==>
      AboveStart(ckParts[i], Bound(range.start[i], range.startInclusive), types[i]) &&
      BelowEnd(ckParts[i], Bound(range.end[i], range.endInclusive), types[i])
  }

  predicate Covered(id: string, range: Range, table: Table)
    requires |range.start| == |range.end| == |table.ckTypes|
  {
    var parts := Split(id);
    |parts| == table.pkColumns + |table.ckTypes| && InRange(parts[table.pkColumns..], range, table.ckTypes)
  }

  function CoveredIds(ids: seq<string>, range: Range, table: Table): seq<string>
    requires |range.start| == |range.end| == |table.ckTypes|
  {
    if ids == [] then []
    else
      var last := ids[|ids| - 1];
      CoveredIds(ids[..|ids| - 1], range, table) + if Covered(last, range, table) then [last] else []
  }

  /** The closure `filter_doc_ids_by_ck_range` applies to each id. */
  method IsCovered(id: string, range: Range, table: Table) returns (covered: bool)
    requires |range.start| == |range.end| == |table.ckTypes|
    ensures covered == Covered(id, range, table)
  {
    var parts := Split(id);
    if |parts| != table.pkColumns + |table.ckTypes| {
      return false;
    }
    var ckParts := parts[table.pkColumns..];
    for i := 0 to |table.ckTypes|
      invariant forall j :: 0 <= j < i ==>
                  AboveStart(ckParts[j], Bound(range.start[j], range.startInclusive), table.ckTypes[j]) &&
                  BelowEnd(ckParts[j], Bound(range.end[j], range.endInclusive), table.ckTypes[j])
    {
      if range.start[i].Some? {
        var cmp := CompareCql(ckParts[i], range.start[i].value, table.ckTypes[i]);
        if range.startInclusive {
          if cmp == Less {
            return false;
          }
        } else if cmp != Greater {
          return false;
        }
      }
      if range.end[i].Some? {
        var cmp := CompareCql(ckParts[i], range.end[i].value, table.ckTypes[i]);
        if range.endInclusive {
          if cmp == Greater {
            return false;
          }
        } else if cmp != Less {
          return false;
        }
      }
    }
    return true;
  }

  lemma CoveredIdsSnoc(ids: seq<string>, i: nat, range: Range, table: Table)
    requires |range.start| == |range.end| == |table.ckTypes| && i < |ids|
    ensures CoveredIds(ids[..i + 1], range, table) ==
            CoveredIds(ids[..i], range, table) + if Covered(ids[i], range, table) then [ids[i]] else []
  {
    assert ids[..i + 1][..i] == ids[..i];
  }

  /** `filter_doc_ids_by_ck_range`: the covered ids, in order. */
  method FilterDocIds(ids: seq<string>, range: Range, table: Table) returns (kept: seq<string>)
    requires |range.start| == |range.end| == |table.ckTypes|
    ensures kept == CoveredIds(ids, range, table)
  {
    kept := [];
    for i := 0 to |ids|
      invariant kept == CoveredIds(ids[..i], range, table)
    {
      CoveredIdsSnoc(ids, i, range, table);
      var covered := IsCovered(ids[i], range, table);
      if covered {
        kept := kept + [ids[i]];
      }
    }
    assert ids[..|ids|] == ids;
  }

  lemma {:induction false} CoveredIdsMembers(ids: seq<string>, range: Range, table: Table, id: string)
    requires |range.start| == |range.end| == |table.ckTypes|
    ensures id in CoveredIds(ids, range, table) <==> id in ids && Covered(id, range, table)
  {
    if ids != [] {
      CoveredIdsMembers(ids[..|ids| - 1], range, table, id);
      assert ids == ids[..|ids| - 1] + [ids[|ids| - 1]];
    }
  }

  /** With one clustering column, a row is covered exactly when its clustering value lies between the bounds. */
  lemma CoveredByOneColumn(pkValues: seq<string>, ck: string, range: Range, ty: ColumnType)
    requires |range.start| == |range.end| == 1
    requires ColonFree(pkValues) && ':' !in ck
    ensures Covered(Join(pkValues + [ck]), range, Table(|pkValues|, [ty])) <==>
            AboveStart(ck, Bound(range.start[0], range.startInclusive), ty) &&
            BelowEnd(ck, Bound(range.end[0], range.endInclusive), ty)
  {
    SplitOfTwo(pkValues, [ck]);
    CoveredById(Join(pkValues + [ck]), |pkValues|, ck, range, ty);
  }

  lemma CoveredById(id: string, pkColumns: nat, ck: string, range: Range, ty: ColumnType)
    requires |range.start| == |range.end| == 1
    requires |Split(id)| == pkColumns + 1 && Split(id)[pkColumns..] == [ck]
    ensures Covered(id, range, Table(pkColumns, [ty])) <==>
            AboveStart(ck, Bound(range.start[0], range.startInclusive), ty) &&
            BelowEnd(ck, Bound(range.end[0], range.endInclusive), ty)
  {
    assert Covered(id, range, Table(pkColumns, [ty])) <==> InRange([ck], range, [ty]);
  }

  /** On an `int` or `bigint` column the bounds are the integer bounds. */
  lemma IntegerBounds(v: I64, bound: I64, inclusive: bool, ty: ColumnType)
    requires ty.IntType? || ty.BigIntType?
    ensures AboveStart(PrintInt(v), Bound(Some(PrintInt(bound)), inclusive), ty) <==>
            (if inclusive then bound <= v else bound < v)
    ensures BelowEnd(PrintInt(v), Bound(Some(PrintInt(bound)), inclusive), ty) <==>
            (if inclusive then v <= bound else v < bound)
  {
    ComparePrintedIntegers(v, bound, ty);
  }

  /** On a text column the bounds are those of the dictionary order. */
  lemma TextBounds(v: string, bound: string, inclusive: bool)
    ensures AboveStart(v, Bound(Some(bound), inclusive), TextType) <==>
            if inclusive then !Before(v, bound) else Before(bound, v)
    ensures BelowEnd(v, Bound(Some(bound), inclusive), TextType) <==>
            if inclusive then !Before(bound, v) else Before(v, bound)
  {
    TextOrderIsDictionary(v, bound);
    TextOrderIsDictionary(bound, v);
    TextOrderIsTotal(v, bound, v);
    TextOrderIsTotal(bound, v, bound);
  }

  /** Two adjacent ranges, one excluding the value the other includes, split the range they form together. */
  lemma AdjacentRangesPartition(v: string, low: Bound, middle: string, high: Bound, upToMiddle: bool, ty: ColumnType)
    requires Printable(v, ty) && Printable(middle, ty)
    requires low.value.Some? ==>
               Printable(low.value.value, ty) && CompareCql(low.value.value, middle, ty) == Less
    requires high.value.Some? ==>
               Printable(high.value.value, ty) && CompareCql(middle, high.value.value, ty) == Less
    ensures var left := AboveStart(v, low, ty) && BelowEnd(v, Bound(Some(middle), upToMiddle), ty);
            var right := AboveStart(v, Bound(Some(middle), !upToMiddle), ty) && BelowEnd(v, high, ty);
            (left || right <==> AboveStart(v, low, ty) && BelowEnd(v, high, ty)) && !(left && right)
  {
    CqlOrderIsTotal(v, middle, v, ty);
    CqlOrderIsTotal(middle, v, middle, ty);
    if low.value.Some? {
      CqlOrderIsTotal(low.value.value, middle, v, ty);
      CqlOrderIsTotal(v, low.value.value, middle, ty);
      CqlOrderIsTotal(middle, v, low.value.value, ty);
      CqlOrderIsTotal(v, low.value.value, v, ty);
    }
    if high.value.Some? {
      CqlOrderIsTotal(v, middle, high.value.value, ty);
      CqlOrderIsTotal(high.value.value, v, middle, ty);
      CqlOrderIsTotal(middle, high.value.value, v, ty);
      CqlOrderIsTotal(v, high.value.value, v, ty);
    }
  }
}
