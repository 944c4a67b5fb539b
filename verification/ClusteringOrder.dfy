/** The column-wise test of a range delete against the clustering order. */
module ClusteringOrder {
  import opened Wrappers
  import opened Keys
  import opened Router

  datatype Direction = Ascending | Descending

  /** A clustering column as the table declares it; the test knows its type alone. */
  datatype Column = Column(ty: ColumnType, direction: Direction)

  function Types(columns: seq<Column>): (types: seq<ColumnType>)
    ensures |types| == |columns| && forall i :: 0 <= i < |columns| ==> types[i] == columns[i].ty
    ensures columns != [] ==> types[1..] == Types(columns[1..])
  {
    if columns == [] then [] else [columns[0].ty] + Types(columns[1..])
  }

  function Reverse(order: Ordering): Ordering {
    match order
    case Less => Greater
    case Equal => Equal
    case Greater => Less
  }

  /** The order of a column's values in the table. */
  function Compare(a: string, b: string, column: Column): Ordering {
    var order := CompareCql(a, b, column.ty);
    if column.direction.Ascending? then order else Reverse(order)
  }

  /** Row and bounds have a component for each column. */
  predicate Shaped(ck: seq<string>, range: Range, columns: seq<Column>) {
    |ck| == |range.start| == |range.end| == |columns|
  }

  /** The clustering order of a row against a bound that names only leading columns: `Equal` means "starts with". */
  function ComparePrefix(ck: seq<string>, bound: seq<Option<string>>, columns: seq<Column>): Ordering
    requires |ck| == |bound| == |columns|
  {
    if bound == [] || bound[0].None? then Equal
    else
      match Compare(ck[0], bound[0].value, columns[0])
      case Equal => ComparePrefix(ck[1..], bound[1..], columns[1..])
      case order => order
  }

  predicate Unbounded(bound: seq<Option<string>>) {
    bound == [] || bound[0].None?
  }

  predicate AbovePrefix(ck: seq<string>, start: seq<Option<string>>, inclusive: bool, columns: seq<Column>)
    requires |ck| == |start| == |columns|
  {
    var order := ComparePrefix(ck, start, columns);
    order == Greater || (inclusive && order == Equal)
  }

  predicate BelowPrefix(ck: seq<string>, end: seq<Option<string>>, inclusive: bool, columns: seq<Column>)
    requires |ck| == |end| == |columns|
  {
    var order := ComparePrefix(ck, end, columns);
    order == Less || (inclusive && order == Equal)
  }

  /** The rows a range tombstone covers: those between its bounds in clustering order. */
  predicate Between(ck: seq<string>, range: Range, columns: seq<Column>)
    requires Shaped(ck, range, columns)
  {
    (Unbounded(range.start) || AbovePrefix(ck, range.start, range.startInclusive, columns)) &&
    (Unbounded(range.end) || BelowPrefix(ck, range.end, range.endInclusive, columns))
  }

  // ------------------------------------------------------------------------
  // Rows and bounds a table can hold
  // ------------------------------------------------------------------------

  ghost predicate RealRow(ck: seq<string>, columns: seq<Column>) {
    |ck| == |columns| && forall i :: 0 <= i < |ck| ==> Printable(ck[i], columns[i].ty)
  }

  ghost predicate RealBound(bound: seq<Option<string>>, columns: seq<Column>) {
    |bound| == |columns| &&
    forall i :: 0 <= i < |bound| && bound[i].Some? ==> Printable(bound[i].value, columns[i].ty)
  }

  ghost predicate RealRange(range: Range, columns: seq<Column>) {
    RealBound(range.start, columns) && RealBound(range.end, columns)
  }

  /** Of the rows the table can hold, the delete covers exactly those between its bounds. */
  ghost predicate Exact(range: Range, columns: seq<Column>)
    requires |range.start| == |range.end| == |columns|
  {
    forall ck | RealRow(ck, columns) :: InRange(ck, range, Types(columns)) <==> Between(ck, range, columns)
  }

  lemma RealCons(v: string, rest: seq<string>, columns: seq<Column>)
    requires columns != [] && Printable(v, columns[0].ty) && RealRow(rest, columns[1..])
    ensures RealRow([v] + rest, columns) && ([v] + rest)[1..] == rest
  {
  }

  lemma RealTail(ck: seq<string>, columns: seq<Column>)
    requires columns != [] && RealRow(ck, columns)
    ensures Printable(ck[0], columns[0].ty) && RealRow(ck[1..], columns[1..])
  {
  }

  lemma RealTails(range: Range, columns: seq<Column>)
    requires columns != [] && RealRange(range, columns)
    ensures RealRange(Tail(range), columns[1..])
  {
  }

  /** Every column has a value. */
  lemma SomeValue(ty: ColumnType) returns (v: string)
    ensures Printable(v, ty)
  {
    var value :=
      match ty
      case IntType => Integer(0)
      case BigIntType => Integer(0)
      case VarintType => Debugged("Varint", "CqlVarint([" + BytesText([0]) + "])")
      case TextType => Plain("")
      case UuidType => Plain(seq(36, i => if i == 8 || i == 13 || i == 18 || i == 23 then '-' else '0'))
      case BooleanType => Plain("true")
      case _ => DebuggedInteger(0, ty);
    v := KeyString(value);
    assert HasType(value, ty);
  }

  lemma {:induction false} SomeRow(columns: seq<Column>) returns (ck: seq<string>)
    ensures RealRow(ck, columns)
  {
    if columns == [] {
      ck := [];
    } else {
      var v := SomeValue(columns[0].ty);
      var rest := SomeRow(columns[1..]);
      RealCons(v, rest, columns);
      ck := [v] + rest;
    }
  }

  lemma CompareSelf(v: string, ty: ColumnType)
    ensures CompareCql(v, v, ty) == Equal
  {
    TextOrderIsTotal(v, v, v);
  }

  // ------------------------------------------------------------------------
  // Column by column
  // ------------------------------------------------------------------------

  function Tail(range: Range): Range
    requires |range.start| > 0 && |range.end| > 0
  {
    range.(start := range.start[1..], end := range.end[1..])
  }

  predicate FirstInRange(v: string, range: Range, ty: ColumnType)
    requires |range.start| > 0 && |range.end| > 0
  {
    AboveStart(v, Bound(range.start[0], range.startInclusive), ty) &&
    BelowEnd(v, Bound(range.end[0], range.endInclusive), ty)
  }

  lemma InRangeByColumn(ck: seq<string>, range: Range, types: seq<ColumnType>)
    requires 0 < |ck| == |range.start| == |range.end| == |types|
    ensures InRange(ck, range, types) <==>
            FirstInRange(ck[0], range, types[0]) && InRange(ck[1..], Tail(range), types[1..])
  {
    if FirstInRange(ck[0], range, types[0]) && InRange(ck[1..], Tail(range), types[1..]) {
      forall i | 0 <= i < |types|
        ensures AboveStart(ck[i], Bound(range.start[i], range.startInclusive), types[i]) &&
                BelowEnd(ck[i], Bound(range.end[i], range.endInclusive), types[i])
      {
        if i > 0 {
          assert ck[i] == ck[1..][i - 1] && types[i] == types[1..][i - 1];
          assert range.start[i] == range.start[1..][i - 1] && range.end[i] == range.end[1..][i - 1];
        }
      }
    }
  }

  /** The test, first column first. */
  predicate Covers(ck: seq<string>, range: Range, columns: seq<Column>)
    requires Shaped(ck, range, columns)
    decreases |ck|
  {
    ck == [] ||
    (FirstInRange(ck[0], range, columns[0].ty) && Covers(ck[1..], Tail(range), columns[1..]))
  }

  lemma {:induction false} CoversIsInRange(ck: seq<string>, range: Range, columns: seq<Column>)
    requires Shaped(ck, range, columns)
    ensures Covers(ck, range, columns) <==> InRange(ck, range, Types(columns))
    decreases |ck|
  {
    if ck != [] {
      InRangeByColumn(ck, range, Types(columns));
      CoversIsInRange(ck[1..], Tail(range), columns[1..]);
    }
  }

  lemma OpenBound(ck: seq<string>, bound: seq<Option<string>>, columns: seq<Column>)
    requires |ck| == |bound| == |columns|
    ensures Unbounded(bound) ==> ComparePrefix(ck, bound, columns) == Equal
  {
  }

  lemma OpenBounds(ck: seq<string>, range: Range, columns: seq<Column>)
    requires Shaped(ck, range, columns)
    ensures Unbounded(range.start) ==> ComparePrefix(ck, range.start, columns) == Equal
    ensures Unbounded(range.end) ==> ComparePrefix(ck, range.end, columns) == Equal
  {
    OpenBound(ck, range.start, columns);
    OpenBound(ck, range.end, columns);
  }

  /** Every column on which the bounds differ is ascending. */
  predicate AscendingWhereBounded(range: Range, columns: seq<Column>)
    requires |range.start| == |range.end| == |columns|
  {
    forall i :: 0 <= i < |columns| && range.start[i] != range.end[i] ==> columns[i].direction.Ascending?
  }

  lemma {:induction false} CoveredIsBetween(ck: seq<string>, range: Range, columns: seq<Column>)
    requires Shaped(ck, range, columns) && AscendingWhereBounded(range, columns)
    ensures Covers(ck, range, columns) ==> Between(ck, range, columns)
    decreases |ck|
  {
    if ck != [] {
      assert AscendingWhereBounded(Tail(range), columns[1..]) by {
        assert forall i :: 0 <= i < |columns[1..]| ==> columns[1..][i] == columns[i + 1];
      }
      CoveredIsBetween(ck[1..], Tail(range), columns[1..]);
      OpenBounds(ck[1..], Tail(range), columns[1..]);
    }
  }

  /** There the test never covers a row outside the range. */
  lemma InRangeIsBetween(ck: seq<string>, range: Range, columns: seq<Column>)
    requires Shaped(ck, range, columns) && AscendingWhereBounded(range, columns)
    ensures InRange(ck, range, Types(columns)) ==> Between(ck, range, columns)
  {
    CoversIsInRange(ck, range, columns);
    CoveredIsBetween(ck, range, columns);
  }

  /** Where the bounds agree on a column and one of them is exclusive, no row is covered at all. */
  lemma ExclusivePrefixCoversNothing(ck: seq<string>, range: Range, i: nat, types: seq<ColumnType>)
    requires |ck| == |range.start| == |range.end| == |types|
    requires i < |types| && range.start[i] == range.end[i] && range.start[i].Some? && !Inclusive(range)
    ensures !InRange(ck, range, types)
  {
    assert !(AboveStart(ck[i], Bound(range.start[i], range.startInclusive), types[i]) &&
             BelowEnd(ck[i], Bound(range.end[i], range.endInclusive), types[i]));
  }

  // ------------------------------------------------------------------------
  // Slices: equal leading values, then one bounded column
  // ------------------------------------------------------------------------

  /**
   * The range of `c1 = v1 AND ... AND ck = vk` and at most one bound on each side of the next column: the
   * bounds start with the same values and name nothing after it.
   */
  predicate IsSlice(range: Range, k: nat) {
    k < |range.start| == |range.end| &&
    (forall i :: 0 <= i < k ==> range.start[i] == range.end[i] && range.start[i].Some?) &&
    (forall i :: k < i < |range.start| ==> range.start[i] == range.end[i] == None)
  }

  predicate Inclusive(range: Range) {
    range.startInclusive && range.endInclusive
  }

  lemma FreeColumns(ck: seq<string>, range: Range, columns: seq<Column>)
    requires Shaped(ck, range, columns)
    requires forall i :: 0 <= i < |ck| ==> range.start[i] == range.end[i] == None
    ensures Covers(ck, range, columns) && Between(ck, range, columns)
    ensures ComparePrefix(ck, range.start, columns) == ComparePrefix(ck, range.end, columns) == Equal
  {
  }

  lemma TailOfSlice(range: Range, k: nat)
    requires IsSlice(range, k)
    ensures k > 0 ==> IsSlice(Tail(range), k - 1)
    ensures k == 0 ==> forall i :: 0 <= i < |Tail(range).start| ==> Tail(range).start[i] == Tail(range).end[i] == None
  {
    assert forall i :: 0 <= i < |Tail(range).start| ==>
             Tail(range).start[i] == range.start[i + 1] && Tail(range).end[i] == range.end[i + 1];
  }

  /** The test's verdict on a value of the slice's last column. */
  predicate Tested(v: string, range: Range, k: nat, columns: seq<Column>)
    requires k < |range.start| == |range.end| == |columns|
  {
    AboveStart(v, Bound(range.start[k], range.startInclusive), columns[k].ty) &&
    BelowEnd(v, Bound(range.end[k], range.endInclusive), columns[k].ty)
  }

  /** The value lies between the bounds of that column, in the column's direction. */
  predicate Meets(v: string, range: Range, k: nat, columns: seq<Column>)
    requires k < |range.start| == |range.end| == |columns|
  {
    (range.start[k].Some? ==>
       var order := Compare(v, range.start[k].value, columns[k]);
       order == Greater || (range.startInclusive && order == Equal)) &&
    (range.end[k].Some? ==>
       var order := Compare(v, range.end[k].value, columns[k]);
       order == Less || (range.endInclusive && order == Equal))
  }

  /** The same, an open side standing for the prefix itself. */
  predicate InSlice(v: string, range: Range, k: nat, columns: seq<Column>)
    requires k < |range.start| == |range.end| == |columns|
  {
    (range.start[k].None? ==> range.startInclusive) && (range.end[k].None? ==> range.endInclusive) &&
    Meets(v, range, k, columns)
  }

  predicate StartsWith(ck: seq<string>, range: Range, k: nat, columns: seq<Column>)
    requires IsSlice(range, k) && Shaped(ck, range, columns)
  {
    forall i :: 0 <= i < k ==> CompareCql(ck[i], range.start[i].value, columns[i].ty) == Equal
  }

  lemma StartsWithByColumn(ck: seq<string>, range: Range, k: nat, columns: seq<Column>)
    requires k > 0 && IsSlice(range, k) && IsSlice(Tail(range), k - 1) && Shaped(ck, range, columns)
    ensures StartsWith(ck, range, k, columns) <==>
            CompareCql(ck[0], range.start[0].value, columns[0].ty) == Equal &&
            StartsWith(ck[1..], Tail(range), k - 1, columns[1..])
  {
    if CompareCql(ck[0], range.start[0].value, columns[0].ty) == Equal &&
       StartsWith(ck[1..], Tail(range), k - 1, columns[1..])
    {
      forall i | 0 <= i < k
        ensures CompareCql(ck[i], range.start[i].value, columns[i].ty) == Equal
      {
        if i > 0 {
          assert ck[i] == ck[1..][i - 1] && columns[i] == columns[1..][i - 1];
          assert range.start[i] == Tail(range).start[i - 1];
        }
      }
    }
  }

  /** The rows of a slice start with its prefix and meet its last bounds. */
  lemma {:induction false} RowsOfSlice(ck: seq<string>, range: Range, k: nat, columns: seq<Column>)
    requires IsSlice(range, k) && Shaped(ck, range, columns)
    ensures AbovePrefix(ck, range.start, range.startInclusive, columns) &&
            BelowPrefix(ck, range.end, range.endInclusive, columns) <==>
            StartsWith(ck, range, k, columns) && InSlice(ck[k], range, k, columns)
    decreases k
  {
    TailOfSlice(range, k);
    if k == 0 {
      FreeColumns(ck[1..], Tail(range), columns[1..]);
    } else {
      RowsOfSlice(ck[1..], Tail(range), k - 1, columns[1..]);
      StartsWithByColumn(ck, range, k, columns);
      assert InSlice(ck[k], range, k, columns) <==> InSlice(ck[1..][k - 1], Tail(range), k - 1, columns[1..]);
    }
  }

  /** The test covers the rows that start with the prefix and pass on the last column, if both bounds are inclusive. */
  lemma {:induction false} TestOfSlice(ck: seq<string>, range: Range, k: nat, columns: seq<Column>)
    requires IsSlice(range, k) && Shaped(ck, range, columns)
    ensures Covers(ck, range, columns) <==>
            (k == 0 || Inclusive(range)) && StartsWith(ck, range, k, columns) && Tested(ck[k], range, k, columns)
    decreases k
  {
    TailOfSlice(range, k);
    if k == 0 {
      FreeColumns(ck[1..], Tail(range), columns[1..]);
    } else {
      TestOfSlice(ck[1..], Tail(range), k - 1, columns[1..]);
      StartsWithByColumn(ck, range, k, columns);
      assert Tested(ck[k], range, k, columns) <==> Tested(ck[1..][k - 1], Tail(range), k - 1, columns[1..]);
    }
  }

  lemma RowsOfFirst(ck: seq<string>, range: Range, columns: seq<Column>)
    requires IsSlice(range, 0) && Shaped(ck, range, columns)
    ensures Between(ck, range, columns) <==> Meets(ck[0], range, 0, columns)
  {
    TailOfSlice(range, 0);
    FreeColumns(ck[1..], Tail(range), columns[1..]);
  }

  /** What a slice delete covers and what it should cover. */
  lemma SliceCoverage(ck: seq<string>, range: Range, k: nat, columns: seq<Column>)
    requires IsSlice(range, k) && Shaped(ck, range, columns)
    ensures Between(ck, range, columns) <==>
            StartsWith(ck, range, k, columns) &&
            if k == 0 then Meets(ck[0], range, 0, columns) else InSlice(ck[k], range, k, columns)
    ensures InRange(ck, range, Types(columns)) <==>
            (k == 0 || Inclusive(range)) && StartsWith(ck, range, k, columns) && Tested(ck[k], range, k, columns)
  {
    TestOfSlice(ck, range, k, columns);
    CoversIsInRange(ck, range, columns);
    if k == 0 {
      RowsOfFirst(ck, range, columns);
    } else {
      RowsOfSlice(ck, range, k, columns);
    }
  }

  /** A row that starts with the prefix and goes on with `v`. */
  lemma {:induction false} RowWith(range: Range, k: nat, v: string, columns: seq<Column>) returns (ck: seq<string>)
    requires IsSlice(range, k) && RealRange(range, columns) && Printable(v, columns[k].ty)
    ensures RealRow(ck, columns) && StartsWith(ck, range, k, columns) && ck[k] == v
    decreases k
  {
    var rest;
    if k == 0 {
      rest := SomeRow(columns[1..]);
      ck := [v] + rest;
      RealCons(v, rest, columns);
    } else {
      TailOfSlice(range, k);
      RealTails(range, columns);
      rest := RowWith(Tail(range), k - 1, v, columns[1..]);
      var first := range.start[0].value;
      RealCons(first, rest, columns);
      ck := [first] + rest;
      CompareSelf(first, columns[0].ty);
      StartsWithByColumn(ck, range, k, columns);
    }
  }

  /** What decides exactness is the slice's last column alone. */
  lemma SliceByColumn(range: Range, k: nat, columns: seq<Column>)
    requires IsSlice(range, k) && RealRange(range, columns)
    ensures Exact(range, columns) <==>
            forall v :: Printable(v, columns[k].ty) ==>
              ((k == 0 || Inclusive(range)) && Tested(v, range, k, columns) <==>
               if k == 0 then Meets(v, range, 0, columns) else InSlice(v, range, k, columns))
  {
    forall ck | RealRow(ck, columns)
      ensures Between(ck, range, columns) <==>
              StartsWith(ck, range, k, columns) &&
              if k == 0 then Meets(ck[0], range, 0, columns) else InSlice(ck[k], range, k, columns)
      ensures InRange(ck, range, Types(columns)) <==>
              (k == 0 || Inclusive(range)) && StartsWith(ck, range, k, columns) && Tested(ck[k], range, k, columns)
    {
      SliceCoverage(ck, range, k, columns);
    }
    if Exact(range, columns) {
      forall v | Printable(v, columns[k].ty)
        ensures (k == 0 || Inclusive(range)) && Tested(v, range, k, columns) <==>
                if k == 0 then Meets(v, range, 0, columns) else InSlice(v, range, k, columns)
      {
        var ck := RowWith(range, k, v, columns);
        assert InRange(ck, range, Types(columns)) <==> Between(ck, range, columns);
      }
    }
  }

  lemma AscendingTest(v: string, range: Range, k: nat, columns: seq<Column>)
    requires k < |range.start| == |range.end| == |columns| && columns[k].direction.Ascending?
    ensures Tested(v, range, k, columns) <==> Meets(v, range, k, columns)
  {
  }

  /**
   * With an ascending last column the delete covers exactly its rows when no column comes before it, when
   * both bounds are inclusive, or when no value of the column lies between the bounds, and in no other case.
   */
  lemma SliceIsExactIff(range: Range, k: nat, columns: seq<Column>)
    requires IsSlice(range, k) && RealRange(range, columns) && columns[k].direction.Ascending?
    ensures Exact(range, columns) <==>
            k == 0 || Inclusive(range) || !exists v :: Printable(v, columns[k].ty) && InSlice(v, range, k, columns)
  {
    SliceByColumn(range, k, columns);
    forall v
      ensures Tested(v, range, k, columns) <==> Meets(v, range, k, columns)
    {
      AscendingTest(v, range, k, columns);
    }
  }
}
