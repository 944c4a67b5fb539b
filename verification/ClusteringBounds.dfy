/** When exactly the column-wise test is right: descending columns, bounds on several columns, integers. */
module ClusteringBounds {
  import opened Wrappers
  import opened Keys
  import opened Router
  import opened ClusteringOrder

  // ------------------------------------------------------------------------
  // Descending columns
  // ------------------------------------------------------------------------

  /** The table's bounds of a descending column are the other way round, but the test takes them as they come. */
  lemma DescendingTest(v: string, range: Range, k: nat, columns: seq<Column>)
    requires k < |range.start| && RealRange(range, columns) && Printable(v, columns[k].ty)
    requires columns[k].direction.Descending?
    ensures var s, e := range.start[k], range.end[k];
            (Tested(v, range, k, columns) <==> Meets(v, range, k, columns)) <==>
            s == e ||
            if s.None? || e.None? then Some(v) == s || Some(v) == e
            else !Tested(v, range, k, columns) && !Meets(v, range, k, columns)
  {
    var s, e, ty := range.start[k], range.end[k], columns[k].ty;
    if s.Some? {
      CqlOrderIsTotal(v, s.value, s.value, ty);
    }
    if e.Some? {
      CqlOrderIsTotal(v, e.value, e.value, ty);
    }
  }

  /**
   * With a descending last column the delete is right only when its bounds on that column are the same or
   * absent, or when neither what it covers nor what it should cover has a value.
   */
  lemma DescendingSliceIsExactIff(range: Range, k: nat, columns: seq<Column>)
    requires IsSlice(range, k) && RealRange(range, columns) && columns[k].direction.Descending?
    ensures Exact(range, columns) <==>
            if k > 0 && !Inclusive(range)
            then !exists v :: Printable(v, columns[k].ty) && InSlice(v, range, k, columns)
            else
              var s, e := range.start[k], range.end[k];
              s == e ||
              if s.None? || e.None? then forall v :: Printable(v, columns[k].ty) ==> Some(v) == s || Some(v) == e
              else
                !exists v ::
                  Printable(v, columns[k].ty) && (Tested(v, range, k, columns) || Meets(v, range, k, columns))
  {
    SliceByColumn(range, k, columns);
    forall v | Printable(v, columns[k].ty)
      ensures var s, e := range.start[k], range.end[k];
              (Tested(v, range, k, columns) <==> Meets(v, range, k, columns)) <==>
              s == e ||
              if s.None? || e.None? then Some(v) == s || Some(v) == e
              else !Tested(v, range, k, columns) && !Meets(v, range, k, columns)
    {
      DescendingTest(v, range, k, columns);
    }
  }

  function PrintedBound(n: Option<int>): Option<string> {
    match n
    case None => None
    case Some(i) => Some(PrintInt(i))
  }

  lemma PrintedIntIsPrintable(n: int)
    requires InRangeOf(n, 32)
    ensures Printable(PrintInt(n), IntType)
  {
    assert HasType(Integer(n), IntType) && KeyString(Integer(n)) == PrintInt(n);
  }

  lemma PrintedIntTest(n: int, low: Option<int>, high: Option<int>, range: Range, columns: seq<Column>)
    requires |range.start| == |range.end| == |columns| > 0 && columns[0] == Column(IntType, Descending)
    requires range.start[0] == PrintedBound(low) && range.end[0] == PrintedBound(high)
    requires InRangeOf(n, 32) && (low.Some? ==> InRangeOf(low.value, 32)) && (high.Some? ==> InRangeOf(high.value, 32))
    ensures Tested(PrintInt(n), range, 0, columns) <==>
            (low.Some? ==> if range.startInclusive then n >= low.value else n > low.value) &&
            (high.Some? ==> if range.endInclusive then n <= high.value else n < high.value)
    ensures Meets(PrintInt(n), range, 0, columns) <==>
            (low.Some? ==> if range.startInclusive then n <= low.value else n < low.value) &&
            (high.Some? ==> if range.endInclusive then n >= high.value else n > high.value)
  {
    if low.Some? {
      ComparePrintedIntegers(n, low.value, IntType);
    }
    if high.Some? {
      ComparePrintedIntegers(n, high.value, IntType);
    }
  }

  lemma PrintedBoundsAgree(low: Option<int>, high: Option<int>)
    requires (low.Some? ==> InRangeOf(low.value, 32)) && (high.Some? ==> InRangeOf(high.value, 32))
    ensures PrintedBound(low) == PrintedBound(high) <==> low == high
  {
    if low.Some? && high.Some? {
      ParsePrintInt(low.value);
      ParsePrintInt(high.value);
    }
  }

  /** Unless the bounds are neighbours and both excluded, one of the two sides has a value. */
  lemma DescendingIntWitness(range: Range, low: int, high: int, columns: seq<Column>) returns (v: string)
    requires |range.start| == |range.end| == |columns| > 0 && columns[0] == Column(IntType, Descending)
    requires range.start[0] == Some(PrintInt(low)) && range.end[0] == Some(PrintInt(high))
    requires InRangeOf(low, 32) && InRangeOf(high, 32) && low != high
    requires range.startInclusive || range.endInclusive || low - high > 1 || high - low > 1
    ensures Printable(v, IntType) && (Tested(v, range, 0, columns) || Meets(v, range, 0, columns))
  {
    var n :=
      if range.startInclusive then low else if range.endInclusive then high
      else if low < high then low + 1 else high + 1;
    v := PrintInt(n);
    PrintedIntIsPrintable(n);
    PrintedIntTest(n, Some(low), Some(high), range, columns);
  }

  lemma DescendingIntNeighbours(range: Range, low: int, high: int, columns: seq<Column>, v: string)
    requires |range.start| == |range.end| == |columns| > 0 && columns[0] == Column(IntType, Descending)
    requires range.start[0] == Some(PrintInt(low)) && range.end[0] == Some(PrintInt(high))
    requires InRangeOf(low, 32) && InRangeOf(high, 32) && (low - high == 1 || high - low == 1)
    requires !range.startInclusive && !range.endInclusive && Printable(v, IntType)
    ensures !Tested(v, range, 0, columns) && !Meets(v, range, 0, columns)
  {
    var value: KeyValue :| HasType(value, IntType) && v == KeyString(value);
    PrintedIntTest(value.n, Some(low), Some(high), range, columns);
  }

  /**
   * On a descending int column a delete is right when it has no bounds, equal bounds, or two neighbours that
   * are both excluded, and in no other case: never with one bound.
   */
  lemma DescendingIntIsExactIff(range: Range, low: Option<int>, high: Option<int>, columns: seq<Column>)
    requires IsSlice(range, 0) && RealRange(range, columns) && columns[0] == Column(IntType, Descending)
    requires range.start[0] == PrintedBound(low) && range.end[0] == PrintedBound(high)
    requires (low.Some? ==> InRangeOf(low.value, 32)) && (high.Some? ==> InRangeOf(high.value, 32))
    ensures Exact(range, columns) <==>
            low == high ||
            (low.Some? && high.Some? && !range.startInclusive && !range.endInclusive &&
             (low.value - high.value == 1 || high.value - low.value == 1))
  {
    DescendingSliceIsExactIff(range, 0, columns);
    PrintedBoundsAgree(low, high);
    if low.Some? && high.Some? && low != high {
      if !range.startInclusive && !range.endInclusive && -1 <= low.value - high.value <= 1 {
        forall v | Printable(v, IntType)
          ensures !Tested(v, range, 0, columns) && !Meets(v, range, 0, columns)
        {
          DescendingIntNeighbours(range, low.value, high.value, columns, v);
        }
      } else {
        var v := DescendingIntWitness(range, low.value, high.value, columns);
      }
    } else if low != high {
      var bound := if low.Some? then low.value else high.value;
      var other := if bound == 0 then 1 else 0;
      PrintedIntIsPrintable(other);
      ParsePrintInt(other);
      ParsePrintInt(bound);
    }
  }

  /** With `ck > 5` on such a column the bounds are nothing and 5 excluded: 3 is deleted in place of 7. */
  lemma DescendingGreaterDeletesTheRest(startInclusive: bool)
    ensures var range, columns := Range([None], startInclusive, [Some("5")], false), [Column(IntType, Descending)];
            !InRange(["7"], range, Types(columns)) && Between(["7"], range, columns) &&
            InRange(["3"], range, Types(columns)) && !Between(["3"], range, columns)
  {
    var range, columns := Range([None], startInclusive, [Some("5")], false), [Column(IntType, Descending)];
    assert ParseDigits("3") == Some(3) && ParseDigits("5") == Some(5) && ParseDigits("7") == Some(7);
    SliceCoverage(["3"], range, 0, columns);
    SliceCoverage(["7"], range, 0, columns);
  }

  // ------------------------------------------------------------------------
  // Bounds on several columns
  // ------------------------------------------------------------------------

  lemma AgreeingFirst(ck: seq<string>, range: Range, columns: seq<Column>)
    requires Shaped(ck, range, columns) && columns != [] && Inclusive(range)
    requires range.start[0] == range.end[0] && range.start[0].Some?
    ensures var same := CompareCql(ck[0], range.start[0].value, columns[0].ty) == Equal;
            (Covers(ck, range, columns) <==> same && Covers(ck[1..], Tail(range), columns[1..])) &&
            (Between(ck, range, columns) <==> same && Between(ck[1..], Tail(range), columns[1..]))
  {
    OpenBounds(ck[1..], Tail(range), columns[1..]);
  }

  lemma ExactIsCovers(range: Range, columns: seq<Column>)
    requires |range.start| == |range.end| == |columns|
    ensures Exact(range, columns) <==>
            forall ck | RealRow(ck, columns) :: Covers(ck, range, columns) <==> Between(ck, range, columns)
  {
    forall ck | RealRow(ck, columns)
      ensures Covers(ck, range, columns) <==> InRange(ck, range, Types(columns))
    {
      CoversIsInRange(ck, range, columns);
    }
  }

  /** A leading column on which inclusive bounds agree makes no difference. */
  lemma AgreeingColumnIsExactIff(range: Range, columns: seq<Column>)
    requires columns != [] && RealRange(range, columns) && Inclusive(range)
    requires range.start[0] == range.end[0] && range.start[0].Some?
    ensures Exact(range, columns) <==> Exact(Tail(range), columns[1..])
  {
    var v := range.start[0].value;
    CompareSelf(v, columns[0].ty);
    ExactIsCovers(range, columns);
    ExactIsCovers(Tail(range), columns[1..]);
    forall ck | RealRow(ck, columns)
      ensures RealRow(ck[1..], columns[1..])
      ensures var same := CompareCql(ck[0], v, columns[0].ty) == Equal;
              (Covers(ck, range, columns) <==> same && Covers(ck[1..], Tail(range), columns[1..])) &&
              (Between(ck, range, columns) <==> same && Between(ck[1..], Tail(range), columns[1..]))
    {
      AgreeingFirst(ck, range, columns);
      RealTail(ck, columns);
    }
    forall rest | RealRow(rest, columns[1..])
      ensures RealRow([v] + rest, columns) && ([v] + rest)[1..] == rest
    {
      RealCons(v, rest, columns);
    }
  }

  /** Strictly between the bounds' first components. */
  predicate Inside(v: string, range: Range, ty: ColumnType)
    requires |range.start| > 0 && |range.end| > 0
  {
    (range.start[0].Some? ==> CompareCql(v, range.start[0].value, ty) == Greater) &&
    (range.end[0].Some? ==> CompareCql(v, range.end[0].value, ty) == Less)
  }

  /** The first components of the bounds differ, in an ascending column. */
  ghost predicate Apart(range: Range, columns: seq<Column>) {
    columns != [] && RealRange(range, columns) && columns[0].direction.Ascending? &&
    (range.start[0].Some? && range.end[0].Some? ==>
       CompareCql(range.start[0].value, range.end[0].value, columns[0].ty) == Less)
  }

  /** How such a range treats a row depends on where the row's first component lies. */
  lemma ByFirstComponent(x: string, rest: seq<string>, range: Range, columns: seq<Column>)
    requires Apart(range, columns) && Printable(x, columns[0].ty) && RealRow(rest, columns[1..])
    ensures RealRow([x] + rest, columns)
    ensures var covered, between := Covers([x] + rest, range, columns), Between([x] + rest, range, columns);
            var tested := Covers(rest, Tail(range), columns[1..]);
            if Some(x) == range.start[0] then
              (covered <==> range.startInclusive && tested) &&
              (between <==> AbovePrefix(rest, range.start[1..], range.startInclusive, columns[1..]))
            else if Some(x) == range.end[0] then
              (covered <==> range.endInclusive && tested) &&
              (between <==> BelowPrefix(rest, range.end[1..], range.endInclusive, columns[1..]))
            else if Inside(x, range, columns[0].ty) then (covered <==> tested) && between
            else !covered && !between
  {
    RealCons(x, rest, columns);
    var ty := columns[0].ty;
    if range.start[0].Some? {
      CqlOrderIsTotal(x, range.start[0].value, x, ty);
    }
    if range.end[0].Some? {
      CqlOrderIsTotal(x, range.end[0].value, x, ty);
    }
  }

  /** Rows whose first component lies strictly between the bounds' pass on the other columns. */
  ghost predicate InsideIsRight(range: Range, columns: seq<Column>)
    requires Apart(range, columns)
  {
    (exists v :: Printable(v, columns[0].ty) && Inside(v, range, columns[0].ty)) ==>
      forall rest | RealRow(rest, columns[1..]) :: Covers(rest, Tail(range), columns[1..])
  }

  /** Rows that share the start's first component pass exactly when they lie above the rest of it. */
  ghost predicate StartIsRight(range: Range, columns: seq<Column>)
    requires Apart(range, columns)
  {
    range.start[0].Some? ==>
      forall rest | RealRow(rest, columns[1..]) ::
        range.startInclusive && Covers(rest, Tail(range), columns[1..]) <==>
        AbovePrefix(rest, range.start[1..], range.startInclusive, columns[1..])
  }

  ghost predicate EndIsRight(range: Range, columns: seq<Column>)
    requires Apart(range, columns)
  {
    range.end[0].Some? ==>
      forall rest | RealRow(rest, columns[1..]) ::
        range.endInclusive && Covers(rest, Tail(range), columns[1..]) <==>
        BelowPrefix(rest, range.end[1..], range.endInclusive, columns[1..])
  }

  lemma ExactRow(x: string, rest: seq<string>, range: Range, columns: seq<Column>)
    requires Apart(range, columns) && Exact(range, columns)
    requires Printable(x, columns[0].ty) && RealRow(rest, columns[1..])
    ensures var tested := Covers(rest, Tail(range), columns[1..]);
            (Inside(x, range, columns[0].ty) ==> tested) &&
            (Some(x) == range.start[0] ==>
               (range.startInclusive && tested <==>
                AbovePrefix(rest, range.start[1..], range.startInclusive, columns[1..]))) &&
            (Some(x) == range.end[0] ==>
               (range.endInclusive && tested <==>
                BelowPrefix(rest, range.end[1..], range.endInclusive, columns[1..])))
  {
    CompareSelf(x, columns[0].ty);
    ByFirstComponent(x, rest, range, columns);
    CoversIsInRange([x] + rest, range, columns);
    assert InRange([x] + rest, range, Types(columns)) <==> Between([x] + rest, range, columns);
  }

  lemma ExactMakesInsideRight(range: Range, columns: seq<Column>)
    requires Apart(range, columns) && Exact(range, columns)
    ensures InsideIsRight(range, columns)
  {
    forall v, rest | Printable(v, columns[0].ty) && Inside(v, range, columns[0].ty) && RealRow(rest, columns[1..])
      ensures Covers(rest, Tail(range), columns[1..])
    {
      ExactRow(v, rest, range, columns);
    }
  }

  lemma ExactMakesBoundsRight(range: Range, columns: seq<Column>)
    requires Apart(range, columns) && Exact(range, columns)
    ensures StartIsRight(range, columns) && EndIsRight(range, columns)
  {
    forall rest | RealRow(rest, columns[1..])
      ensures range.start[0].Some? ==>
                (range.startInclusive && Covers(rest, Tail(range), columns[1..]) <==>
                 AbovePrefix(rest, range.start[1..], range.startInclusive, columns[1..]))
      ensures range.end[0].Some? ==>
                (range.endInclusive && Covers(rest, Tail(range), columns[1..]) <==>
                 BelowPrefix(rest, range.end[1..], range.endInclusive, columns[1..]))
    {
      if range.start[0].Some? {
        ExactRow(range.start[0].value, rest, range, columns);
      }
      if range.end[0].Some? {
        ExactRow(range.end[0].value, rest, range, columns);
      }
    }
  }

  lemma RightRow(ck: seq<string>, range: Range, columns: seq<Column>)
    requires Apart(range, columns) && RealRow(ck, columns)
    requires InsideIsRight(range, columns) && StartIsRight(range, columns) && EndIsRight(range, columns)
    ensures Covers(ck, range, columns) <==> Between(ck, range, columns)
  {
    var x, rest := ck[0], ck[1..];
    RealTail(ck, columns);
    ByFirstComponent(x, rest, range, columns);
    assert ck == [x] + rest;
  }

  lemma RightMakesExact(range: Range, columns: seq<Column>)
    requires Apart(range, columns)
    requires InsideIsRight(range, columns) && StartIsRight(range, columns) && EndIsRight(range, columns)
    ensures Exact(range, columns)
  {
    ExactIsCovers(range, columns);
    forall ck | RealRow(ck, columns)
      ensures Covers(ck, range, columns) <==> Between(ck, range, columns)
    {
      RightRow(ck, range, columns);
    }
  }

  /**
   * When the first components differ, the delete is exact exactly when it treats three kinds of rows rightly:
   * those whose first component lies strictly between the bounds', if any value does, and those whose first
   * component is one of the bounds'.
   */
  lemma FirstColumnIsExactIff(range: Range, columns: seq<Column>)
    requires Apart(range, columns)
    ensures Exact(range, columns) <==>
            InsideIsRight(range, columns) && StartIsRight(range, columns) && EndIsRight(range, columns)
  {
    if Exact(range, columns) {
      ExactMakesInsideRight(range, columns);
      ExactMakesBoundsRight(range, columns);
    } else if InsideIsRight(range, columns) && StartIsRight(range, columns) && EndIsRight(range, columns) {
      RightMakesExact(range, columns);
    }
  }

  /** A bound that excludes its own value excludes some row. */
  lemma ExcludedRow(range: Range, columns: seq<Column>) returns (ck: seq<string>)
    requires RealRange(range, columns) && columns != []
    requires (!range.startInclusive && range.start[0].Some?) || (!range.endInclusive && range.end[0].Some?)
    ensures RealRow(ck, columns) && !Covers(ck, range, columns)
  {
    var rest := SomeRow(columns[1..]);
    var v := if !range.startInclusive && range.start[0].Some? then range.start[0].value else range.end[0].value;
    CompareSelf(v, columns[0].ty);
    RealCons(v, rest, columns);
    ck := [v] + rest;
  }

  /** Bounds that exclude nothing leave the rows of both bounds' first components rightly treated. */
  lemma FreeTailIsRight(range: Range, columns: seq<Column>)
    requires Apart(range, columns) && AscendingWhereBounded(Tail(range), columns[1..])
    requires forall rest | RealRow(rest, columns[1..]) :: Covers(rest, Tail(range), columns[1..])
    ensures StartIsRight(range, columns) && EndIsRight(range, columns)
  {
    RealTails(range, columns);
    var tail := Tail(range);
    if (!tail.startInclusive && !Unbounded(tail.start)) || (!tail.endInclusive && !Unbounded(tail.end)) {
      var ck := ExcludedRow(tail, columns[1..]);
    }
    forall rest | RealRow(rest, columns[1..])
      ensures range.startInclusive <==> AbovePrefix(rest, range.start[1..], range.startInclusive, columns[1..])
      ensures range.endInclusive <==> BelowPrefix(rest, range.end[1..], range.endInclusive, columns[1..])
    {
      CoveredIsBetween(rest, Tail(range), columns[1..]);
      OpenBounds(rest, Tail(range), columns[1..]);
    }
  }

  /**
   * If some value of the first column lies strictly between the bounds' first components, the delete is
   * exact exactly when the bounds on the other columns exclude nothing.
   */
  lemma WideIsExactIff(range: Range, columns: seq<Column>, v: string)
    requires Apart(range, columns) && AscendingWhereBounded(Tail(range), columns[1..])
    requires Printable(v, columns[0].ty) && Inside(v, range, columns[0].ty)
    ensures Exact(range, columns) <==>
            forall rest | RealRow(rest, columns[1..]) :: Covers(rest, Tail(range), columns[1..])
  {
    FirstColumnIsExactIff(range, columns);
    if forall rest | RealRow(rest, columns[1..]) :: Covers(rest, Tail(range), columns[1..]) {
      FreeTailIsRight(range, columns);
    }
  }

  // ------------------------------------------------------------------------
  // Two int columns
  // ------------------------------------------------------------------------

  const INT_MIN := -0x8000_0000
  const INT_MAX := 0x7FFF_FFFF

  const ONE_INT := [Column(IntType, Ascending)]
  const TWO_INTS := [Column(IntType, Ascending), Column(IntType, Ascending)]

  /** The integers within the bounds. */
  predicate Within(r: int, low: Option<int>, lowInclusive: bool, high: Option<int>, highInclusive: bool) {
    (low.Some? ==> if lowInclusive then r >= low.value else r > low.value) &&
    (high.Some? ==> if highInclusive then r <= high.value else r < high.value)
  }

  ghost predicate IntBound(n: Option<int>) {
    n.Some? ==> InRangeOf(n.value, 32)
  }

  lemma OneComponent(v: string, bound: Option<string>)
    ensures ComparePrefix([v], [bound], ONE_INT) ==
            if bound.None? then Equal else CompareCql(v, bound.value, IntType)
  {
    assert [v][1..] == [] && [bound][1..] == [] && ONE_INT[1..] == [];
    OpenBound([], [], []);
  }

  lemma OneIntTest(r: int, low: Option<int>, high: Option<int>, lowInclusive: bool, highInclusive: bool)
    requires InRangeOf(r, 32) && IntBound(low) && IntBound(high)
    ensures var range := Range([PrintedBound(low)], lowInclusive, [PrintedBound(high)], highInclusive);
            Covers([PrintInt(r)], range, ONE_INT) <==> Within(r, low, lowInclusive, high, highInclusive)
  {
    if low.Some? {
      ComparePrintedIntegers(r, low.value, IntType);
    }
    if high.Some? {
      ComparePrintedIntegers(r, high.value, IntType);
    }
    assert [PrintInt(r)][1..] == [];
  }

  lemma OneIntBounds(r: int, bound: Option<int>, inclusive: bool)
    requires InRangeOf(r, 32) && IntBound(bound)
    ensures AbovePrefix([PrintInt(r)], [PrintedBound(bound)], inclusive, ONE_INT) <==>
            if bound.None? then inclusive else Within(r, bound, inclusive, None, true)
    ensures BelowPrefix([PrintInt(r)], [PrintedBound(bound)], inclusive, ONE_INT) <==>
            if bound.None? then inclusive else Within(r, None, true, bound, inclusive)
  {
    OneComponent(PrintInt(r), PrintedBound(bound));
    if bound.Some? {
      ComparePrintedIntegers(r, bound.value, IntType);
    }
  }

  lemma OneIntColumn(r: int, low: Option<int>, high: Option<int>, lowInclusive: bool, highInclusive: bool)
    requires InRangeOf(r, 32) && IntBound(low) && IntBound(high)
    ensures var range := Range([PrintedBound(low)], lowInclusive, [PrintedBound(high)], highInclusive);
            (Covers([PrintInt(r)], range, ONE_INT) <==> Within(r, low, lowInclusive, high, highInclusive)) &&
            (AbovePrefix([PrintInt(r)], range.start, lowInclusive, ONE_INT) <==>
             if low.None? then lowInclusive else Within(r, low, lowInclusive, None, true)) &&
            (BelowPrefix([PrintInt(r)], range.end, highInclusive, ONE_INT) <==>
             if high.None? then highInclusive else Within(r, None, true, high, highInclusive))
  {
    OneIntTest(r, low, high, lowInclusive, highInclusive);
    OneIntBounds(r, low, lowInclusive);
    OneIntBounds(r, high, highInclusive);
  }

  /** The rows of one int column are the printed integers. */
  lemma IntRow(rest: seq<string>) returns (r: int)
    requires RealRow(rest, ONE_INT)
    ensures InRangeOf(r, 32) && rest == [PrintInt(r)]
  {
    assert Printable(rest[0], ONE_INT[0].ty);
    var value: KeyValue :| HasType(value, IntType) && rest[0] == KeyString(value);
    r := value.n;
  }

  lemma RowOfInt(r: int)
    requires InRangeOf(r, 32)
    ensures RealRow([PrintInt(r)], ONE_INT)
  {
    PrintedIntIsPrintable(r);
  }

  lemma SomeIntInside(a: int, b: int, range: Range)
    requires InRangeOf(a, 32) && InRangeOf(b, 32) && |range.start| > 0 && |range.end| > 0
    requires range.start[0] == Some(PrintInt(a)) && range.end[0] == Some(PrintInt(b))
    ensures (exists v :: Printable(v, IntType) && Inside(v, range, IntType)) <==> b - a > 1
  {
    if b - a > 1 {
      PrintedIntIsPrintable(a + 1);
      ComparePrintedIntegers(a + 1, a, IntType);
      ComparePrintedIntegers(a + 1, b, IntType);
    }
    forall v | Printable(v, IntType) && Inside(v, range, IntType)
      ensures b - a > 1
    {
      var value: KeyValue :| HasType(value, IntType) && v == KeyString(value);
      ComparePrintedIntegers(value.n, a, IntType);
      ComparePrintedIntegers(value.n, b, IntType);
    }
  }

  /** The lower bound on the second column excludes nothing. */
  predicate FreeLow(low: Option<int>, inclusive: bool) {
    low.None? || (inclusive && low.value == INT_MIN)
  }

  predicate FreeHigh(high: Option<int>, inclusive: bool) {
    high.None? || (inclusive && high.value == INT_MAX)
  }

  /** All real rows of one int column within the bounds. */
  lemma AllWithinIff(x: Option<int>, y: Option<int>, si: bool, ei: bool)
    requires IntBound(x) && IntBound(y)
    ensures (forall rest | RealRow(rest, ONE_INT) ::
               Covers(rest, Range([PrintedBound(x)], si, [PrintedBound(y)], ei), ONE_INT)) <==>
            FreeLow(x, si) && FreeHigh(y, ei)
  {
    var tail := Range([PrintedBound(x)], si, [PrintedBound(y)], ei);
    if FreeLow(x, si) && FreeHigh(y, ei) {
      forall rest | RealRow(rest, ONE_INT)
        ensures Covers(rest, tail, ONE_INT)
      {
        var r := IntRow(rest);
        OneIntColumn(r, x, y, si, ei);
      }
    } else {
      var r := if FreeLow(x, si) then INT_MAX else INT_MIN;
      RowOfInt(r);
      OneIntColumn(r, x, y, si, ei);
    }
  }

  /** The rows of the start's first component. */
  lemma RowsOfStartIff(x: Option<int>, y: Option<int>, si: bool, ei: bool)
    requires IntBound(x) && IntBound(y)
    ensures (forall rest | RealRow(rest, ONE_INT) ::
               si && Covers(rest, Range([PrintedBound(x)], si, [PrintedBound(y)], ei), ONE_INT) <==>
               AbovePrefix(rest, [PrintedBound(x)], si, ONE_INT)) <==>
            if si then FreeHigh(y, ei) else x.None? || x.value == INT_MAX
  {
    if if si then FreeHigh(y, ei) else x.None? || x.value == INT_MAX {
      forall rest | RealRow(rest, ONE_INT)
        ensures si && Covers(rest, Range([PrintedBound(x)], si, [PrintedBound(y)], ei), ONE_INT) <==>
                AbovePrefix(rest, [PrintedBound(x)], si, ONE_INT)
      {
        var r := IntRow(rest);
        OneIntColumn(r, x, y, si, ei);
      }
    } else {
      RowOfInt(INT_MAX);
      OneIntColumn(INT_MAX, x, y, si, ei);
    }
  }

  lemma RowsOfEndIff(x: Option<int>, y: Option<int>, si: bool, ei: bool)
    requires IntBound(x) && IntBound(y)
    ensures (forall rest | RealRow(rest, ONE_INT) ::
               ei && Covers(rest, Range([PrintedBound(x)], si, [PrintedBound(y)], ei), ONE_INT) <==>
               BelowPrefix(rest, [PrintedBound(y)], ei, ONE_INT)) <==>
            if ei then FreeLow(x, si) else y.None? || y.value == INT_MIN
  {
    if if ei then FreeLow(x, si) else y.None? || y.value == INT_MIN {
      forall rest | RealRow(rest, ONE_INT)
        ensures ei && Covers(rest, Range([PrintedBound(x)], si, [PrintedBound(y)], ei), ONE_INT) <==>
                BelowPrefix(rest, [PrintedBound(y)], ei, ONE_INT)
      {
        var r := IntRow(rest);
        OneIntColumn(r, x, y, si, ei);
      }
    } else {
      RowOfInt(INT_MIN);
      OneIntColumn(INT_MIN, x, y, si, ei);
    }
  }

  lemma TwoIntsApart(range: Range, a: int, x: Option<int>, b: int, y: Option<int>)
    requires InRangeOf(a, 32) && InRangeOf(b, 32) && a < b && IntBound(x) && IntBound(y)
    requires range.start == [Some(PrintInt(a)), PrintedBound(x)] && range.end == [Some(PrintInt(b)), PrintedBound(y)]
    ensures Apart(range, TWO_INTS)
  {
    ComparePrintedIntegers(a, b, IntType);
    PrintedIntIsPrintable(a);
    PrintedIntIsPrintable(b);
    if x.Some? {
      PrintedIntIsPrintable(x.value);
    }
    if y.Some? {
      PrintedIntIsPrintable(y.value);
    }
  }

  /**
   * A delete from (a, x) to (b, y) on two int columns, a < b, is exact exactly when y takes nothing from the
   * rows of a that the start includes, x takes nothing from the rows of b that the end includes, an exclusive
   * bound has no rows beyond it to include, and neither takes anything if an integer lies between a and b.
   */
  lemma TwoIntColumnsAreExactIff(range: Range, a: int, x: Option<int>, b: int, y: Option<int>)
    requires InRangeOf(a, 32) && InRangeOf(b, 32) && a < b && IntBound(x) && IntBound(y)
    requires range.start == [Some(PrintInt(a)), PrintedBound(x)] && range.end == [Some(PrintInt(b)), PrintedBound(y)]
    ensures var si, ei := range.startInclusive, range.endInclusive;
            Exact(range, TWO_INTS) <==>
            (b - a > 1 ==> FreeLow(x, si) && FreeHigh(y, ei)) &&
            (if si then FreeHigh(y, ei) else x.None? || x.value == INT_MAX) &&
            (if ei then FreeLow(x, si) else y.None? || y.value == INT_MIN)
  {
    TwoIntsApart(range, a, x, b, y);
    FirstColumnIsExactIff(range, TWO_INTS);
    TwoIntParts(range, a, x, b, y);
  }

  lemma TwoIntParts(range: Range, a: int, x: Option<int>, b: int, y: Option<int>)
    requires InRangeOf(a, 32) && InRangeOf(b, 32) && a < b && IntBound(x) && IntBound(y)
    requires range.start == [Some(PrintInt(a)), PrintedBound(x)] && range.end == [Some(PrintInt(b)), PrintedBound(y)]
    requires Apart(range, TWO_INTS)
    ensures var si, ei := range.startInclusive, range.endInclusive;
            (InsideIsRight(range, TWO_INTS) <==> (b - a > 1 ==> FreeLow(x, si) && FreeHigh(y, ei))) &&
            (StartIsRight(range, TWO_INTS) <==> if si then FreeHigh(y, ei) else x.None? || x.value == INT_MAX) &&
            (EndIsRight(range, TWO_INTS) <==> if ei then FreeLow(x, si) else y.None? || y.value == INT_MIN)
  {
    var si, ei := range.startInclusive, range.endInclusive;
    SomeIntInside(a, b, range);
    AllWithinIff(x, y, si, ei);
    RowsOfStartIff(x, y, si, ei);
    RowsOfEndIff(x, y, si, ei);
    assert TWO_INTS[0] == Column(IntType, Ascending) && TWO_INTS[1..] == ONE_INT;
    assert range.start[1..] == [PrintedBound(x)] && range.end[1..] == [PrintedBound(y)];
    assert Tail(range) == Range([PrintedBound(x)], si, [PrintedBound(y)], ei);
  }

  // ------------------------------------------------------------------------
  // Instances
  // ------------------------------------------------------------------------

  /** `c1 = 1 AND c2 > 5` sends the bounds (1, 5) exclusive and (1): the row (1, 9) lies between them but stays. */
  lemma EqualityAndGreaterDeletesNothing(ck: seq<string>)
    requires |ck| == 2
    ensures var range := Range([Some("1"), Some("5")], false, [Some("1"), None], true);
            Between(["1", "9"], range, TWO_INTS) && !InRange(ck, range, [IntType, IntType])
  {
    var range := Range([Some("1"), Some("5")], false, [Some("1"), None], true);
    assert ParseDigits("9") == Some(9) && ParseDigits("5") == Some(5);
    ExclusivePrefixCoversNothing(ck, range, 0, [IntType, IntType]);
    assert ComparePrefix(["9"], [Some("5")], TWO_INTS[1..]) == Greater;
    CompareSelf("1", IntType);
    assert ["1", "9"][1..] == ["9"] && range.start[1..] == [Some("5")];
    OpenBound(["9"], range.end[1..], TWO_INTS[1..]);
  }

  /** `(c1, c2) >= (1, 5) AND (c1, c2) <= (3, 7)` keeps (2, 9), which lies between the bounds. */
  lemma TwoColumnsAreNotLexicographic()
    ensures var range := Range([Some("1"), Some("5")], true, [Some("3"), Some("7")], true);
            Between(["2", "9"], range, TWO_INTS) && !InRange(["2", "9"], range, [IntType, IntType])
  {
    var range := Range([Some("1"), Some("5")], true, [Some("3"), Some("7")], true);
    assert ParseDigits("9") == Some(9) && ParseDigits("7") == Some(7);
    assert ParseDigits("1") == Some(1) && ParseDigits("2") == Some(2) && ParseDigits("3") == Some(3);
    assert !BelowEnd("9", Bound(range.end[1], true), IntType);
  }
}
