/** Element-level updates of non-frozen set and list columns. */
module CollectionDeltas {
  import opened Wrappers
  import opened JsonMerge

  /**
   * One column's signals. `deleted` and `added` are the parsed element lists; a text that is empty or
   * not a JSON array is ignored by the node, which is what the empty list does.
   */
  datatype Delta = Delta(column: string, tombstoned: bool, deleted: seq<Value>, added: seq<Value>)

  function Retain(elems: seq<Value>, deleted: seq<Value>): seq<Value> {
    if elems == [] then []
    else if elems[0] in deleted then Retain(elems[1..], deleted)
    else [elems[0]] + Retain(elems[1..], deleted)
  }

  function AddAll(elems: seq<Value>, added: seq<Value>): seq<Value>
    decreases |added|
  {
    if added == [] then elems
    else AddAll(if added[0] in elems then elems else elems + [added[0]], added[1..])
  }

  /** Tombstone, then remove, then add. */
  function ApplyToElements(elems: seq<Value>, d: Delta): seq<Value> {
    AddAll(Retain(if d.tombstoned then [] else elems, d.deleted), d.added)
  }

  /** The array stored at a column; anything else counts as empty. */
  function ElementsAt(fields: map<string, Value>, column: string): seq<Value> {
    if column in fields && fields[column].Array? then fields[column].elems else []
  }

  function ApplyDelta(fields: map<string, Value>, d: Delta): map<string, Value> {
    fields[d.column := Array(ApplyToElements(ElementsAt(fields, d.column), d))]
  }

  function ApplyToFields(fields: map<string, Value>, ds: seq<Delta>): map<string, Value> {
    if ds == [] then fields
    else ApplyDelta(ApplyToFields(fields, ds[..|ds| - 1]), ds[|ds| - 1])
  }

  /** Documents that are not objects are left alone. */
  function ApplyDeltas(doc: Value, ds: seq<Delta>): Value {
    if doc.Object? then Object(ApplyToFields(doc.fields, ds)) else doc
  }

  /** `apply_collection_deltas`. */
  method ApplyCollectionDeltas(doc: Value, ds: seq<Delta>) returns (r: Value)
    ensures r == ApplyDeltas(doc, ds)
  {
    if !doc.Object? {
      return doc;
    }
    var fields := doc.fields;
    for i := 0 to |ds|
      invariant fields == ApplyToFields(doc.fields, ds[..i])
    {
      var delta := ds[i];
      var elements := ElementsAt(fields, delta.column);
      if delta.tombstoned {
        elements := [];
      }
      elements := Retain(elements, delta.deleted);
      ghost var kept := elements;
      for j := 0 to |delta.added|
        invariant AddAll(kept, delta.added) == AddAll(elements, delta.added[j..])
      {
        if delta.added[j] !in elements {
          elements := elements + [delta.added[j]];
        }
      }
      fields := fields[delta.column := Array(elements)];
      assert ds[..i + 1][..i] == ds[..i];
    }
    assert ds[..|ds|] == ds;
    r := Object(fields);
  }

  // ------------------------------------------------------------------------
  // What a list of deltas means for one element
  // ------------------------------------------------------------------------

  datatype Verdict = Keep | Drop | Insert

  function VerdictOf(d: Delta, v: Value): Verdict {
    if v in d.added then Insert else if d.tombstoned || v in d.deleted then Drop else Keep
  }

  /** The last delta with an opinion decides. */
  function LastVerdict(ds: seq<Delta>, column: string, v: Value): Verdict {
    if ds == [] then Keep
    else
      var d := ds[|ds| - 1];
      if d.column == column && !VerdictOf(d, v).Keep? then VerdictOf(d, v)
      else LastVerdict(ds[..|ds| - 1], column, v)
  }

  lemma {:induction false} RetainMembers(elems: seq<Value>, deleted: seq<Value>, v: Value)
    ensures v in Retain(elems, deleted) <==> v in elems && v !in deleted
  {
    if elems != [] {
      RetainMembers(elems[1..], deleted, v);
      assert elems == [elems[0]] + elems[1..];
    }
  }

  lemma {:induction false} AddAllMembers(elems: seq<Value>, added: seq<Value>, v: Value)
    ensures v in AddAll(elems, added) <==> v in elems || v in added
    decreases |added|
  {
    if added != [] {
      AddAllMembers(if added[0] in elems then elems else elems + [added[0]], added[1..], v);
      assert added == [added[0]] + added[1..];
    }
  }

  lemma ApplyToElementsMembers(elems: seq<Value>, d: Delta, v: Value)
    ensures v in ApplyToElements(elems, d) <==>
            VerdictOf(d, v).Insert? || (VerdictOf(d, v).Keep? && v in elems)
  {
    var start := if d.tombstoned then [] else elems;
    RetainMembers(start, d.deleted, v);
    AddAllMembers(Retain(start, d.deleted), d.added, v);
  }

  /** Membership after any list of deltas on any columns is decided by the last delta with an opinion. */
  lemma {:induction false} DeltasMembers(fields: map<string, Value>, ds: seq<Delta>, column: string, v: Value)
    ensures v in ElementsAt(ApplyToFields(fields, ds), column) <==>
            LastVerdict(ds, column, v).Insert? ||
            (LastVerdict(ds, column, v).Keep? && v in ElementsAt(fields, column))
    decreases |ds|
  {
    if ds != [] {
      var init, d := ds[..|ds| - 1], ds[|ds| - 1];
      DeltasMembers(fields, init, column, v);
      ApplyToElementsMembers(ElementsAt(ApplyToFields(fields, init), d.column), d, v);
    }
  }

  /** A column no delta names keeps its value; a named one ends up an array. */
  lemma {:induction false} DeltasTouchOnlyTheirColumns(fields: map<string, Value>, ds: seq<Delta>, column: string)
    ensures (forall d :: d in ds ==> d.column != column) ==>
              Get(ApplyToFields(fields, ds), column) == Get(fields, column)
    ensures (exists d :: d in ds && d.column == column) ==>
              column in ApplyToFields(fields, ds) && ApplyToFields(fields, ds)[column].Array?
    decreases |ds|
  {
    if ds != [] {
      DeltasTouchOnlyTheirColumns(fields, ds[..|ds| - 1], column);
      assert ds == ds[..|ds| - 1] + [ds[|ds| - 1]];
    }
  }

  // ------------------------------------------------------------------------
  // Normal form
  // ------------------------------------------------------------------------

  /** One delta with the effect of `d` followed by `e` on the same column. */
  function Compose(d: Delta, e: Delta): Delta {
    Delta(d.column, d.tombstoned || e.tombstoned, d.deleted + e.deleted,
          if e.tombstoned then e.added else Retain(d.added, e.deleted) + e.added)
  }

  function Normal(ds: seq<Delta>, column: string): Delta {
    if ds == [] then Delta(column, false, [], [])
    else
      var init, d := Normal(ds[..|ds| - 1], column), ds[|ds| - 1];
      if d.column == column then Compose(init, d) else init
  }

  lemma {:induction false} NormalVerdict(ds: seq<Delta>, column: string, v: Value)
    ensures VerdictOf(Normal(ds, column), v) == LastVerdict(ds, column, v)
    decreases |ds|
  {
    if ds != [] {
      var init, d := Normal(ds[..|ds| - 1], column), ds[|ds| - 1];
      NormalVerdict(ds[..|ds| - 1], column, v);
      RetainMembers(init.added, d.deleted, v);
    }
  }

  /** Any list of deltas acts on each column, as a set, like one composed delta. */
  lemma DeltasHaveNormalForm(fields: map<string, Value>, ds: seq<Delta>, column: string)
    ensures (set v | v in ElementsAt(ApplyToFields(fields, ds), column)) ==
            (set v | v in ApplyToElements(ElementsAt(fields, column), Normal(ds, column)))
  {
    forall v
      ensures v in ElementsAt(ApplyToFields(fields, ds), column) <==>
              v in ApplyToElements(ElementsAt(fields, column), Normal(ds, column))
    {
      DeltasMembers(fields, ds, column, v);
      NormalVerdict(ds, column, v);
      ApplyToElementsMembers(ElementsAt(fields, column), Normal(ds, column), v);
    }
  }

  // ------------------------------------------------------------------------
  // Duplicates and replay
  // ------------------------------------------------------------------------

  predicate NoDuplicates(s: seq<Value>) {
    forall i, j :: 0 <= i < j < |s| ==> s[i] != s[j]
  }

  lemma {:induction false} RetainKeepsDistinct(elems: seq<Value>, deleted: seq<Value>)
    requires NoDuplicates(elems)
    ensures NoDuplicates(Retain(elems, deleted))
  {
    if elems != [] {
      RetainKeepsDistinct(elems[1..], deleted);
      RetainMembers(elems[1..], deleted, elems[0]);
    }
  }

  lemma {:induction false} AddAllKeepsDistinct(elems: seq<Value>, added: seq<Value>)
    requires NoDuplicates(elems)
    ensures NoDuplicates(AddAll(elems, added))
    decreases |added|
  {
    if added != [] {
      AddAllKeepsDistinct(if added[0] in elems then elems else elems + [added[0]], added[1..]);
    }
  }

  /** No list of deltas introduces a duplicate, even when the signals themselves repeat elements. */
  lemma {:induction false} DeltasKeepDistinct(fields: map<string, Value>, ds: seq<Delta>, column: string)
    requires NoDuplicates(ElementsAt(fields, column))
    ensures NoDuplicates(ElementsAt(ApplyToFields(fields, ds), column))
    decreases |ds|
  {
    if ds != [] {
      var init, d := ds[..|ds| - 1], ds[|ds| - 1];
      DeltasKeepDistinct(fields, init, column);
      if d.column == column {
        var start := if d.tombstoned then [] else ElementsAt(ApplyToFields(fields, init), column);
        RetainKeepsDistinct(start, d.deleted);
        AddAllKeepsDistinct(Retain(start, d.deleted), d.added);
      }
    }
  }

  /** What deltas do to the number of times an element occurs. */
  datatype Effect = Same | Zero | AtLeastOne | One

  function Act(e: Effect, m: nat): nat {
    match e
    case Same => m
    case Zero => 0
    case AtLeastOne => if m == 0 then 1 else m
    case One => 1
  }

  function EffectOf(d: Delta, v: Value): Effect {
    var removed := d.tombstoned || v in d.deleted;
    if v in d.added then (if removed then One else AtLeastOne) else if removed then Zero else Same
  }

  function Then(e: Effect, f: Effect): Effect {
    match f
    case Same => e
    case Zero => Zero
    case One => One
    case AtLeastOne => if e.Same? then AtLeastOne else if e.Zero? then One else e
  }

  function EffectOfAll(ds: seq<Delta>, column: string, v: Value): Effect {
    if ds == [] then Same
    else
      var before, d := EffectOfAll(ds[..|ds| - 1], column, v), ds[|ds| - 1];
      if d.column == column then Then(before, EffectOf(d, v)) else before
  }

  lemma {:induction false} RetainCount(elems: seq<Value>, deleted: seq<Value>, v: Value)
    ensures multiset(Retain(elems, deleted))[v] == if v in deleted then 0 else multiset(elems)[v]
  {
    if elems != [] {
      RetainCount(elems[1..], deleted, v);
      assert elems == [elems[0]] + elems[1..];
    }
  }

  lemma {:induction false} AddAllCount(elems: seq<Value>, added: seq<Value>, v: Value)
    ensures multiset(AddAll(elems, added))[v] ==
            Act(if v in added then AtLeastOne else Same, multiset(elems)[v])
    decreases |added|
  {
    if added != [] {
      AddAllCount(if added[0] in elems then elems else elems + [added[0]], added[1..], v);
      assert added == [added[0]] + added[1..];
    }
  }

  lemma ThenActs(e: Effect, f: Effect, m: nat)
    ensures Act(Then(e, f), m) == Act(f, Act(e, m))
    ensures Act(e, Act(e, m)) == Act(e, m)
  {
  }

  lemma ApplyCount(elems: seq<Value>, d: Delta, v: Value)
    ensures multiset(ApplyToElements(elems, d))[v] == Act(EffectOf(d, v), multiset(elems)[v])
  {
    var start := if d.tombstoned then [] else elems;
    RetainCount(start, d.deleted, v);
    AddAllCount(Retain(start, d.deleted), d.added, v);
  }

  /** Any list of deltas acts on an element's multiplicity as one of four effects. */
  lemma {:induction false} DeltasMultiplicity(fields: map<string, Value>, ds: seq<Delta>, column: string, v: Value)
    ensures multiset(ElementsAt(ApplyToFields(fields, ds), column))[v] ==
            Act(EffectOfAll(ds, column, v), multiset(ElementsAt(fields, column))[v])
    decreases |ds|
  {
    if ds != [] {
      var init, d := ds[..|ds| - 1], ds[|ds| - 1];
      DeltasMultiplicity(fields, init, column, v);
      if d.column == column {
        ApplyCount(ElementsAt(ApplyToFields(fields, init), column), d, v);
        ThenActs(EffectOfAll(init, column, v), EffectOf(d, v), multiset(ElementsAt(fields, column))[v]);
      }
    }
  }

  /** Replaying a whole list of deltas leaves the same elements in every column, each as often as before. */
  lemma DeltasReplay(fields: map<string, Value>, ds: seq<Delta>, column: string)
    ensures var once := ApplyToFields(fields, ds);
            multiset(ElementsAt(ApplyToFields(once, ds), column)) == multiset(ElementsAt(once, column))
  {
    var once := ApplyToFields(fields, ds);
    var xs, ys := ElementsAt(ApplyToFields(once, ds), column), ElementsAt(once, column);
    forall v
      ensures multiset(xs)[v] == multiset(ys)[v]
    {
      DeltasMultiplicity(fields, ds, column, v);
      DeltasMultiplicity(once, ds, column, v);
      ThenActs(EffectOfAll(ds, column, v), Same, multiset(ElementsAt(fields, column))[v]);
    }
  }

  // ------------------------------------------------------------------------
  // When what was there before does not matter
  // ------------------------------------------------------------------------

  predicate Touched(ds: seq<Delta>, column: string) {
    exists d :: d in ds && d.column == column
  }

  /** The elements that no delta on the column ever removes, in order. */
  function Survivors(elems: seq<Value>, ds: seq<Delta>, column: string): seq<Value>
    decreases |ds|
  {
    if ds == [] then elems
    else
      var left, d := Survivors(elems, ds[..|ds| - 1], column), ds[|ds| - 1];
      if d.column == column then Retain(if d.tombstoned then [] else left, d.deleted) else left
  }

  /** What the deltas build on a column that held nothing. */
  function Built(ds: seq<Delta>, column: string): seq<Value> {
    ElementsAt(ApplyToFields(map[], ds), column)
  }

  lemma {:induction false} RetainAppend(xs: seq<Value>, ys: seq<Value>, deleted: seq<Value>)
    ensures Retain(xs + ys, deleted) == Retain(xs, deleted) + Retain(ys, deleted)
  {
    if xs == [] {
      assert xs + ys == ys;
    } else {
      assert (xs + ys)[1..] == xs[1..] + ys;
      RetainAppend(xs[1..], ys, deleted);
    }
  }

  lemma {:induction false} RetainTwice(ys: seq<Value>, s: seq<Value>, deleted: seq<Value>)
    ensures Retain(Retain(ys, deleted), Retain(s, deleted)) == Retain(Retain(ys, s), deleted)
  {
    if ys != [] {
      RetainTwice(ys[1..], s, deleted);
      RetainMembers(s, deleted, ys[0]);
      var l, r := Retain(ys[1..], deleted), Retain(ys[1..], s);
      assert ([ys[0]] + l)[1..] == l && ([ys[0]] + r)[1..] == r;
    }
  }

  lemma {:induction false} RetainNothing(xs: seq<Value>, deleted: seq<Value>)
    ensures (forall v :: v in xs ==> v in deleted) ==> Retain(xs, deleted) == []
    ensures (forall v :: v in xs ==> v !in deleted) ==> Retain(xs, deleted) == xs
  {
    if xs != [] {
      RetainNothing(xs[1..], deleted);
      assert xs == [xs[0]] + xs[1..];
    }
  }

  /** `xs` is `s` followed by what `ys` has besides. */
  predicate Ahead(s: seq<Value>, xs: seq<Value>, ys: seq<Value>) {
    xs == s + Retain(ys, s)
  }

  lemma {:induction false} AddKeepsAhead(s: seq<Value>, xs: seq<Value>, ys: seq<Value>, added: seq<Value>)
    requires Ahead(s, xs, ys)
    ensures Ahead(s, AddAll(xs, added), AddAll(ys, added))
    decreases |added|
  {
    if added != [] {
      var v := added[0];
      var xs', ys' := if v in xs then xs else xs + [v], if v in ys then ys else ys + [v];
      RetainMembers(ys, s, v);
      RetainAppend(ys, [v], s);
      assert [v][1..] == [] && Retain([v], s) == if v in s then [] else [v];
      AddKeepsAhead(s, xs', ys', added[1..]);
    }
  }

  lemma RetainKeepsAhead(s: seq<Value>, xs: seq<Value>, ys: seq<Value>, deleted: seq<Value>)
    requires Ahead(s, xs, ys)
    ensures Ahead(Retain(s, deleted), Retain(xs, deleted), Retain(ys, deleted))
  {
    RetainAppend(s, Retain(ys, s), deleted);
    RetainTwice(ys, s, deleted);
  }

  lemma {:induction false} SurvivorsLead(elems: seq<Value>, fields: map<string, Value>, ds: seq<Delta>, column: string)
    requires ElementsAt(fields, column) == elems
    ensures Ahead(Survivors(elems, ds, column), ElementsAt(ApplyToFields(fields, ds), column), Built(ds, column))
    decreases |ds|
  {
    if ds == [] {
      RetainNothing([], elems);
    } else {
      var init, d := ds[..|ds| - 1], ds[|ds| - 1];
      SurvivorsLead(elems, fields, init, column);
      if d.column == column {
        var none: seq<Value> := [];
        var s := if d.tombstoned then none else Survivors(elems, init, column);
        var xs := if d.tombstoned then none else ElementsAt(ApplyToFields(fields, init), column);
        var ys := if d.tombstoned then none else Built(init, column);
        RetainNothing(none, none);
        RetainKeepsAhead(s, xs, ys, d.deleted);
        AddKeepsAhead(Retain(s, d.deleted), Retain(xs, d.deleted), Retain(ys, d.deleted), d.added);
      }
    }
  }

  lemma TailIsElsewhere(s: seq<Value>, rest: seq<Value>, v: Value)
    requires NoDuplicates(s + rest) && v in rest
    ensures v !in s
  {
    var k :| 0 <= k < |rest| && rest[k] == v;
    assert (s + rest)[|s| + k] == v;
    forall i | 0 <= i < |s|
      ensures s[i] != v
    {
      assert (s + rest)[i] == s[i];
    }
  }

  lemma RetainTail(s: seq<Value>, rest: seq<Value>)
    requires NoDuplicates(s + rest)
    ensures Retain(s + rest, s) == rest
  {
    forall v | v in rest
      ensures v !in s
    {
      TailIsElsewhere(s, rest, v);
    }
    RetainAppend(s, rest, s);
    RetainNothing(s, s);
    RetainNothing(rest, s);
  }

  lemma AheadIsEqualIff(s: seq<Value>, xs: seq<Value>, ys: seq<Value>)
    requires Ahead(s, xs, ys) && NoDuplicates(ys)
    ensures xs == ys <==> s <= ys
  {
    if s <= ys {
      assert ys == s + ys[|s|..];
      RetainTail(s, ys[|s|..]);
    }
  }

  /** Old elements leave no trace exactly when those never removed are what the deltas build first anyway. */
  lemma OldElementsForgottenIff(fields: map<string, Value>, ds: seq<Delta>, column: string)
    ensures ElementsAt(ApplyToFields(fields, ds), column) == Built(ds, column) <==>
            Survivors(ElementsAt(fields, column), ds, column) <= Built(ds, column)
  {
    SurvivorsLead(ElementsAt(fields, column), fields, ds, column);
    DeltasKeepDistinct(map[], ds, column);
    AheadIsEqualIff(
      Survivors(ElementsAt(fields, column), ds, column), ElementsAt(ApplyToFields(fields, ds), column),
      Built(ds, column));
  }

  /** A column's elements after deltas depend on its elements before. */
  lemma {:induction false} ElementsDecide(
      f: map<string, Value>, g: map<string, Value>, ds: seq<Delta>, column: string)
    requires ElementsAt(f, column) == ElementsAt(g, column)
    ensures ElementsAt(ApplyToFields(f, ds), column) == ElementsAt(ApplyToFields(g, ds), column)
    decreases |ds|
  {
    if ds != [] {
      ElementsDecide(f, g, ds[..|ds| - 1], column);
    }
  }

  /** Two documents become one under deltas exactly when each column does. */
  lemma DeltasJoinIff(f: map<string, Value>, g: map<string, Value>, ds: seq<Delta>, column: string)
    ensures Get(ApplyToFields(f, ds), column) == Get(ApplyToFields(g, ds), column) <==>
            if Touched(ds, column)
            then ElementsAt(ApplyToFields(f, ds), column) == ElementsAt(ApplyToFields(g, ds), column)
            else Get(f, column) == Get(g, column)
  {
    DeltasTouchOnlyTheirColumns(f, ds, column);
    DeltasTouchOnlyTheirColumns(g, ds, column);
  }

  // ------------------------------------------------------------------------
  // When a replay changes nothing
  // ------------------------------------------------------------------------

  /** No delta on the column tombstones it or deletes the element. */
  predicate NeverRemoved(ds: seq<Delta>, column: string, v: Value) {
    forall d :: d in ds && d.column == column ==> !d.tombstoned && v !in d.deleted
  }

  lemma {:induction false} SurvivorsAreNeverRemoved(elems: seq<Value>, ds: seq<Delta>, column: string, v: Value)
    requires v in Survivors(elems, ds, column)
    ensures NeverRemoved(ds, column, v)
    decreases |ds|
  {
    if ds != [] {
      var init, d := ds[..|ds| - 1], ds[|ds| - 1];
      assert ds == init + [d];
      if d.column == column {
        RetainMembers(if d.tombstoned then [] else Survivors(elems, init, column), d.deleted, v);
      }
      SurvivorsAreNeverRemoved(elems, init, column, v);
    }
  }

  lemma {:induction false} NeverRemovedSurvive(elems: seq<Value>, ds: seq<Delta>, column: string)
    requires forall v :: v in elems ==> NeverRemoved(ds, column, v)
    ensures Survivors(elems, ds, column) == elems
    decreases |ds|
  {
    if ds != [] {
      var init, d := ds[..|ds| - 1], ds[|ds| - 1];
      assert d in ds && forall e :: e in init ==> e in ds;
      NeverRemovedSurvive(elems, init, column);
      if d.column == column && elems != [] {
        assert NeverRemoved(ds, column, elems[0]);
        RetainNothing(elems, d.deleted);
      }
    }
  }

  lemma {:induction false} SurvivorsAppend(xs: seq<Value>, ys: seq<Value>, ds: seq<Delta>, column: string)
    ensures Survivors(xs + ys, ds, column) == Survivors(xs, ds, column) + Survivors(ys, ds, column)
    decreases |ds|
  {
    if ds != [] {
      var init, d := ds[..|ds| - 1], ds[|ds| - 1];
      SurvivorsAppend(xs, ys, init, column);
      RetainAppend(Survivors(xs, init, column), Survivors(ys, init, column), d.deleted);
    }
  }

  lemma {:induction false} RetainBoth(ys: seq<Value>, s: seq<Value>, t: seq<Value>)
    ensures Retain(ys, s + t) == Retain(Retain(ys, s), t)
  {
    if ys != [] {
      RetainBoth(ys[1..], s, t);
      var r := Retain(ys[1..], s);
      assert ([ys[0]] + r)[1..] == r;
    }
  }

  /** What the deltas build besides the elements that survive them. */
  function BuiltBesides(fields: map<string, Value>, ds: seq<Delta>, column: string): seq<Value> {
    Retain(Built(ds, column), Survivors(ElementsAt(fields, column), ds, column))
  }

  /**
   * A replay leaves a column exactly as it is if and only if, among the elements the deltas build besides
   * those that survive them, the ones that no delta removes come first.
   */
  lemma ReplayChangesNothingIff(fields: map<string, Value>, ds: seq<Delta>, column: string)
    ensures var once := ApplyToFields(fields, ds);
            Get(ApplyToFields(once, ds), column) == Get(once, column) <==>
            Survivors(BuiltBesides(fields, ds, column), ds, column) <= BuiltBesides(fields, ds, column)
  {
    var once := ApplyToFields(fields, ds);
    var s, r := Survivors(ElementsAt(fields, column), ds, column), BuiltBesides(fields, ds, column);
    var t := Survivors(r, ds, column);
    SurvivorsLead(ElementsAt(fields, column), fields, ds, column);
    SurvivorsLead(s + r, once, ds, column);
    SurvivorsAppend(s, r, ds, column);
    forall v | v in s
      ensures NeverRemoved(ds, column, v)
    {
      SurvivorsAreNeverRemoved(ElementsAt(fields, column), ds, column, v);
    }
    NeverRemovedSurvive(s, ds, column);
    assert ElementsAt(ApplyToFields(once, ds), column) == (s + t) + Retain(Built(ds, column), s + t);
    RetainBoth(Built(ds, column), s, t);
    DeltasKeepDistinct(map[], ds, column);
    RetainKeepsDistinct(Built(ds, column), s);
    PrefixDecides(s, t, r);
    DeltasTouchOnlyTheirColumns(fields, ds, column);
    DeltasTouchOnlyTheirColumns(once, ds, column);
    if !Touched(ds, column) {
      DeltasTouchOnlyTheirColumns(map[], ds, column);
    }
  }

  lemma PrefixDecides(s: seq<Value>, t: seq<Value>, r: seq<Value>)
    requires NoDuplicates(r)
    ensures (s + t) + Retain(r, t) == s + r <==> t <= r
  {
    var l := (s + t) + Retain(r, t);
    assert l == s + (t + Retain(r, t)) && l[|s|..] == t + Retain(r, t) && (s + r)[|s|..] == r;
    if t <= r {
      assert r == t + r[|t|..];
      RetainTail(t, r[|t|..]);
    }
  }

  lemma AddOne(elems: seq<Value>, v: Value)
    ensures AddAll(elems, [v]) == if v in elems then elems else elems + [v]
  {
    assert [v][1..] == [];
    assert AddAll(elems, [v]) == AddAll(if v in elems then elems else elems + [v], []);
  }

  lemma TwoDeltas(fields: map<string, Value>, d: Delta, e: Delta)
    ensures ApplyToFields(fields, [d, e]) == ApplyDelta(ApplyDelta(fields, d), e)
  {
    assert [d, e][..1] == [d] && [d][..0] == [];
    assert ApplyToFields(fields, [d]) == ApplyDelta(fields, d);
  }

  const A := String("a")
  const B := String("b")

  const REMOVE_AND_ADD_B := Delta("c", false, [B], [B])
  const ADD_A := Delta("c", false, [], [A])

  lemma OnNothing()
    ensures ApplyToElements(ApplyToElements([], REMOVE_AND_ADD_B), ADD_A) == [B, A]
  {
    var none: seq<Value> := [];
    AddOne(none, B);
    AddOne([B], A);
    assert Retain(none, [B]) == none && ApplyToElements(none, REMOVE_AND_ADD_B) == [B];
    RetainNothing([B], none);
  }

  lemma OnBoth()
    ensures ApplyToElements(ApplyToElements([B, A], REMOVE_AND_ADD_B), ADD_A) == [A, B]
  {
    var none: seq<Value> := [];
    AddOne([A], B);
    AddOne([A, B], A);
    RetainAppend([B], [A], [B]);
    RetainNothing([B], [B]);
    RetainNothing([A], [B]);
    assert [B] + [A] == [B, A] && none + [A] == [A] && [A] + [B] == [A, B];
    assert ApplyToElements([B, A], REMOVE_AND_ADD_B) == [A, B];
    RetainNothing([A, B], none);
  }

  /** For instance, after removing and adding b and then adding a, [b, a] becomes [a, b]. */
  lemma ReplayMayReorder()
    ensures var a, b := String("a"), String("b");
            var ds := [Delta("c", false, [b], [b]), Delta("c", false, [], [a])];
            var once := ApplyToFields(map[], ds);
            ElementsAt(once, "c") == [b, a] && ElementsAt(ApplyToFields(once, ds), "c") == [a, b]
  {
    OnNothing();
    OnBoth();
    TwoDeltas(map[], REMOVE_AND_ADD_B, ADD_A);
    TwoDeltas(ApplyToFields(map[], [REMOVE_AND_ADD_B, ADD_A]), REMOVE_AND_ADD_B, ADD_A);
  }
}
