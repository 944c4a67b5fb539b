/** Facet counting on a node, and the lists in which counts travel. */
module Facets {
  import opened JsonMerge
  import Keys

  datatype FacetBucket = FacetBucket(value: string, count: nat)

  datatype FacetResult = FacetResult(field: string, buckets: seq<FacetBucket>)

  type Buckets = map<string, nat>

  type Counts = map<string, Buckets>

  function CountIn(m: Buckets, v: string): nat {
    if v in m then m[v] else 0
  }

  function BucketsOf(c: Counts, field: string): Buckets {
    if field in c then c[field] else map[]
  }

  /** `*entry(v).or_insert(0) += k`. */
  function Bump(m: Buckets, v: string, k: nat): Buckets {
    m[v := CountIn(m, v) + k]
  }

  // ------------------------------------------------------------------------
  // What is counted
  // ------------------------------------------------------------------------

  function StringsEqual(elems: seq<Value>, v: string): nat {
    if elems == [] then 0
    else (if elems[|elems| - 1] == String(v) then 1 else 0) + StringsEqual(elems[..|elems| - 1], v)
  }

  lemma {:induction false} StringsEqualIsMultiplicity(elems: seq<Value>, v: string)
    ensures StringsEqual(elems, v) == multiset(elems)[String(v)]
  {
    if elems != [] {
      var n := |elems| - 1;
      StringsEqualIsMultiplicity(elems[..n], v);
      assert elems == elems[..n] + [elems[n]];
    }
  }

  /** How often a stored field value counts towards bucket `v`; nulls and objects never do. */
  function Tally(value: Value, v: string): nat {
    match value
    case String(s) => if s == v then 1 else 0
    case Number(n) => if Keys.PrintInt(n) == v then 1 else 0
    case Bool(b) => if (if b then "true" else "false") == v then 1 else 0
    case Array(elems) => StringsEqual(elems, v)
    case Null | Object(_) => 0
  }

  function FieldTally(doc: Value, field: string, v: string): nat {
    if doc.Object? && field in doc.fields then Tally(doc.fields[field], v) else 0
  }

  /** Over all matching documents. */
  function Total(docs: seq<Value>, field: string, v: string): nat {
    if docs == [] then 0
    else Total(docs[..|docs| - 1], field, v) + FieldTally(docs[|docs| - 1], field, v)
  }

  function Requested(fields: seq<string>, field: string): nat {
    if fields == [] then 0
    else Requested(fields[..|fields| - 1], field) + if fields[|fields| - 1] == field then 1 else 0
  }

  // ------------------------------------------------------------------------
  // Counting on a node
  // ------------------------------------------------------------------------

  /** The loop over an array's elements, of which only strings count. */
  method CountStrings(buckets: Buckets, elems: seq<Value>) returns (r: Buckets)
    ensures forall v :: CountIn(r, v) == CountIn(buckets, v) + StringsEqual(elems, v)
    ensures forall v :: v in r <==> v in buckets || StringsEqual(elems, v) > 0
  {
    r := buckets;
    for i := 0 to |elems|
      invariant forall v :: CountIn(r, v) == CountIn(buckets, v) + StringsEqual(elems[..i], v)
      invariant forall v :: v in r <==> v in buckets || StringsEqual(elems[..i], v) > 0
    {
      assert elems[..i + 1][..i] == elems[..i];
      if elems[i].String? {
        r := Bump(r, elems[i].s, 1);
      }
    }
    assert elems[..|elems|] == elems;
  }

  /**
   * A scalar raises the bucket of its text by one, an array each bucket by the number of its string elements
   * of that text; nulls and objects raise none.
   */
  method CountField(buckets: Buckets, value: Value) returns (r: Buckets)
    ensures value.String? ==> r == buckets[value.s := CountIn(buckets, value.s) + 1]
    ensures value.Number? ==> var text := Keys.PrintInt(value.n); r == buckets[text := CountIn(buckets, text) + 1]
    ensures value.Bool? ==>
              var text := if value.b then "true" else "false"; r == buckets[text := CountIn(buckets, text) + 1]
    ensures value.Array? ==>
              forall v :: CountIn(r, v) == CountIn(buckets, v) + multiset(value.elems)[String(v)]
    ensures value.Null? || value.Object? ==> r == buckets
    ensures forall v :: CountIn(r, v) == CountIn(buckets, v) + Tally(value, v)
    ensures forall v :: v in r <==> v in buckets || Tally(value, v) > 0
  {
    match value
    case String(s) => r := Bump(buckets, s, 1);
    case Number(n) => r := Bump(buckets, Keys.PrintInt(n), 1);
    case Bool(b) => r := Bump(buckets, if b then "true" else "false", 1);
    case Array(elems) =>
      r := CountStrings(buckets, elems);
      forall v
        ensures StringsEqual(elems, v) == multiset(elems)[String(v)]
      {
        StringsEqualIsMultiplicity(elems, v);
      }
    case Null | Object(_) => r := buckets;
  }

  /** One document's contribution to a requested list of fields. */
  function DocTally(doc: Value, fields: seq<string>, field: string, v: string): nat {
    if fields == [] then 0
    else
      DocTally(doc, fields[..|fields| - 1], field, v) +
      if fields[|fields| - 1] == field then FieldTally(doc, field, v) else 0
  }

  function NodeTally(docs: seq<Value>, fields: seq<string>, field: string, v: string): nat {
    if docs == [] then 0
    else NodeTally(docs[..|docs| - 1], fields, field, v) + DocTally(docs[|docs| - 1], fields, field, v)
  }

  method CountDoc(counts: Counts, doc: Value, fields: seq<string>) returns (r: Counts)
    ensures forall f :: f in r <==> f in counts || f in fields
    ensures forall f, v ::
              CountIn(BucketsOf(r, f), v) == CountIn(BucketsOf(counts, f), v) + DocTally(doc, fields, f, v)
  {
    r := counts;
    for j := 0 to |fields|
      invariant forall f :: f in r <==> f in counts || f in fields[..j]
      invariant forall f, v ::
                  CountIn(BucketsOf(r, f), v) == CountIn(BucketsOf(counts, f), v) + DocTally(doc, fields[..j], f, v)
    {
      var field := fields[j];
      assert fields[..j + 1][..j] == fields[..j] && fields[..j + 1] == fields[..j] + [field];
      var buckets := BucketsOf(r, field);
      if doc.Object? && field in doc.fields {
        buckets := CountField(buckets, doc.fields[field]);
      }
      r := r[field := buckets];
    }
    assert fields[..|fields|] == fields;
  }

  /** The facet aggregation of a node's search. */
  method NodeCounts(docs: seq<Value>, fields: seq<string>) returns (counts: Counts)
    ensures forall f :: f in counts <==> docs != [] && f in fields
    ensures forall f, v :: CountIn(BucketsOf(counts, f), v) == NodeTally(docs, fields, f, v)
  {
    counts := map[];
    for i := 0 to |docs|
      invariant forall f :: f in counts <==> i > 0 && f in fields
      invariant forall f, v :: CountIn(BucketsOf(counts, f), v) == NodeTally(docs[..i], fields, f, v)
    {
      assert docs[..i + 1][..i] == docs[..i];
      counts := CountDoc(counts, docs[i], fields);
    }
    assert docs[..|docs|] == docs;
  }

  lemma {:induction false} DocTallyIsRequested(doc: Value, fields: seq<string>, field: string, v: string)
    ensures DocTally(doc, fields, field, v) == Requested(fields, field) * FieldTally(doc, field, v)
    decreases |fields|
  {
    if fields != [] {
      DocTallyIsRequested(doc, fields[..|fields| - 1], field, v);
      Distribute(FieldTally(doc, field, v), Requested(fields[..|fields| - 1], field), 1);
    }
  }

  /** A node counts every matching document's contribution once for each time the field is requested. */
  lemma {:induction false} NodeTallyIsRequested(docs: seq<Value>, fields: seq<string>, field: string, v: string)
    ensures NodeTally(docs, fields, field, v) == Requested(fields, field) * Total(docs, field, v)
    decreases |docs|
  {
    if docs != [] {
      var n := |docs| - 1;
      NodeTallyIsRequested(docs[..n], fields, field, v);
      DocTallyIsRequested(docs[n], fields, field, v);
      Distribute(Requested(fields, field), Total(docs[..n], field, v), FieldTally(docs[n], field, v));
    }
  }

  lemma Distribute(a: nat, b: nat, c: nat)
    ensures a * b + a * c == a * (b + c)
  {
  }

  // ------------------------------------------------------------------------
  // Counts are numbers of places
  // ------------------------------------------------------------------------

  /** How many places a document's field has: the elements of an array, otherwise one. */
  function Width(doc: Value, field: string): nat {
    if doc.Object? && field in doc.fields then
      if doc.fields[field].Array? then |doc.fields[field].elems| else 1
    else 0
  }

  /** At place `k` of the field stands a string, number or boolean that reads `v`; in an array, a string. */
  predicate ReadsAt(doc: Value, field: string, k: nat, v: string) {
    k < Width(doc, field) &&
    match doc.fields[field]
    case Array(elems) => elems[k] == String(v)
    case String(s) => s == v
    case Number(n) => Keys.PrintInt(n) == v
    case Bool(b) => v == if b then "true" else "false"
    case Null | Object(_) => false
  }

  /** The places of a field at which `v` stands, by document and position. */
  ghost function Places(docs: seq<Value>, field: string, v: string): set<(nat, nat)> {
    set i: nat, k: nat | i < |docs| && k < Width(docs[i], field) && ReadsAt(docs[i], field, k, v) :: (i, k)
  }

  /** The places in document `i` alone. */
  ghost function PlacesIn(doc: Value, i: nat, field: string, v: string): set<(nat, nat)> {
    set k: nat | k < Width(doc, field) && ReadsAt(doc, field, k, v) :: (i, k)
  }

  ghost function StringPlaces(elems: seq<Value>, i: nat, v: string): set<(nat, nat)> {
    set k: nat | k < |elems| && elems[k] == String(v) :: (i, k)
  }

  lemma {:induction false} StringPlacesCount(elems: seq<Value>, i: nat, v: string)
    ensures |StringPlaces(elems, i, v)| == StringsEqual(elems, v)
  {
    if elems == [] {
      assert StringPlaces(elems, i, v) == {};
    } else {
      var n := |elems| - 1;
      var before := StringPlaces(elems[..n], i, v);
      StringPlacesCount(elems[..n], i, v);
      assert StringPlaces(elems, i, v) == if elems[n] == String(v) then before + {(i, n)} else before;
    }
  }

  lemma ScalarPlace(doc: Value, i: nat, field: string, v: string)
    requires Width(doc, field) == 1
    ensures |PlacesIn(doc, i, field, v)| == if ReadsAt(doc, field, 0, v) then 1 else 0
  {
    assert PlacesIn(doc, i, field, v) == if ReadsAt(doc, field, 0, v) then {(i, 0)} else {};
  }

  lemma DocumentPlaces(doc: Value, i: nat, field: string, v: string)
    ensures |PlacesIn(doc, i, field, v)| == FieldTally(doc, field, v)
  {
    if !doc.Object? || field !in doc.fields {
      assert PlacesIn(doc, i, field, v) == {};
    } else if doc.fields[field].Array? {
      StringPlacesCount(doc.fields[field].elems, i, v);
      assert PlacesIn(doc, i, field, v) == StringPlaces(doc.fields[field].elems, i, v);
    } else {
      ScalarPlace(doc, i, field, v);
    }
  }

  lemma PlacesSnoc(docs: seq<Value>, last: Value, field: string, v: string)
    ensures Places(docs + [last], field, v) == Places(docs, field, v) + PlacesIn(last, |docs|, field, v)
    ensures Places(docs, field, v) !! PlacesIn(last, |docs|, field, v)
  {
    var all := docs + [last];
    forall i: nat, k: nat
      ensures (i, k) in Places(all, field, v) <==>
              (i, k) in Places(docs, field, v) || (i, k) in PlacesIn(last, |docs|, field, v)
    {
      if i < |docs| {
        assert all[i] == docs[i];
      }
    }
  }

  lemma PlacesCountSnoc(docs: seq<Value>, last: Value, field: string, v: string)
    ensures |Places(docs + [last], field, v)| == |Places(docs, field, v)| + FieldTally(last, field, v)
  {
    PlacesSnoc(docs, last, field, v);
    DocumentPlaces(last, |docs|, field, v);
  }

  /** The total of a bucket is the number of places at which its value stands. */
  lemma {:induction false} TotalIsPlaces(docs: seq<Value>, field: string, v: string)
    ensures Total(docs, field, v) == |Places(docs, field, v)|
  {
    if docs == [] {
      assert Places(docs, field, v) == {};
    } else {
      var front, last := docs[..|docs| - 1], docs[|docs| - 1];
      TotalIsPlaces(front, field, v);
      PlacesCountSnoc(front, last, field, v);
      assert docs == front + [last];
    }
  }

  lemma {:induction false} RequestedIsMultiplicity(fields: seq<string>, field: string)
    ensures Requested(fields, field) == multiset(fields)[field]
  {
    if fields != [] {
      var n := |fields| - 1;
      RequestedIsMultiplicity(fields[..n], field);
      assert fields == fields[..n] + [fields[n]];
    }
  }

  // ------------------------------------------------------------------------
  // Counts as sorted lists
  // ------------------------------------------------------------------------

  predicate ByCount(bs: seq<FacetBucket>) {
    forall i, j :: 0 <= i < j < |bs| ==> bs[i].count >= bs[j].count
  }

  /** A count-descending list of exactly the entries of the map. */
  ghost predicate Lists(bs: seq<FacetBucket>, m: Buckets) {
    ByCount(bs) &&
    (forall i :: 0 <= i < |bs| ==> bs[i].value in m && bs[i].count == m[bs[i].value]) &&
    (forall i, j :: 0 <= i < j < |bs| ==> bs[i].value != bs[j].value) &&
    (forall v :: v in m ==> exists i :: 0 <= i < |bs| && bs[i].value == v)
  }

  function Inserted(bs: seq<FacetBucket>, b: FacetBucket, k: nat): (r: seq<FacetBucket>)
    requires k <= |bs|
    ensures |r| == |bs| + 1 && r[k] == b
    ensures forall i :: 0 <= i < k ==> r[i] == bs[i]
    ensures forall i :: k < i < |r| ==> r[i] == bs[i - 1]
  {
    bs[..k] + [b] + bs[k..]
  }

  lemma InsertedByCount(bs: seq<FacetBucket>, b: FacetBucket, k: nat)
    requires ByCount(bs) && k <= |bs|
    requires forall i :: 0 <= i < k ==> bs[i].count >= b.count
    requires k < |bs| ==> bs[k].count <= b.count
    ensures ByCount(Inserted(bs, b, k))
  {
    var r := Inserted(bs, b, k);
    forall i, j | 0 <= i < j < |r|
      ensures r[i].count >= r[j].count
    {
      var i', j' := if i < k then i else i - 1, if j < k then j else j - 1;
      assert i != k ==> r[i] == bs[i'];
      assert j != k ==> r[j] == bs[j'];
    }
  }

  lemma InsertedEntries(bs: seq<FacetBucket>, b: FacetBucket, m: Buckets, k: nat)
    requires Lists(bs, m) && b.value !in m && k <= |bs|
    ensures var r, m' := Inserted(bs, b, k), m[b.value := b.count];
            forall i :: 0 <= i < |r| ==> r[i].value in m' && r[i].count == m'[r[i].value]
  {
    var r := Inserted(bs, b, k);
    forall i | 0 <= i < |r|
      ensures i == k || (r[i].value in m && r[i].count == m[r[i].value])
    {
      assert i != k ==> r[i] == bs[if i < k then i else i - 1];
    }
  }

  lemma InsertedDistinct(bs: seq<FacetBucket>, b: FacetBucket, m: Buckets, k: nat)
    requires Lists(bs, m) && b.value !in m && k <= |bs|
    ensures var r := Inserted(bs, b, k); forall i, j :: 0 <= i < j < |r| ==> r[i].value != r[j].value
  {
    var r := Inserted(bs, b, k);
    forall i, j | 0 <= i < j < |r|
      ensures r[i].value != r[j].value
    {
      assert i != k ==> r[i] == bs[if i < k then i else i - 1];
      assert j != k ==> r[j] == bs[if j < k then j else j - 1];
    }
  }

  lemma InsertKeepsLists(bs: seq<FacetBucket>, b: FacetBucket, m: Buckets, k: nat)
    requires Lists(bs, m) && b.value !in m && k <= |bs|
    requires forall i :: 0 <= i < k ==> bs[i].count >= b.count
    requires k < |bs| ==> bs[k].count <= b.count
    ensures Lists(Inserted(bs, b, k), m[b.value := b.count])
  {
    var r := Inserted(bs, b, k);
    InsertedByCount(bs, b, k);
    InsertedEntries(bs, b, m, k);
    InsertedDistinct(bs, b, m, k);
    forall v | v in m || v == b.value
      ensures exists i :: 0 <= i < |r| && r[i].value == v
    {
      if v == b.value {
        assert r[k].value == v;
      } else {
        var i :| 0 <= i < |bs| && bs[i].value == v;
        assert r[if i < k then i else i + 1].value == v;
      }
    }
  }

  method PlaceFor(bs: seq<FacetBucket>, count: nat) returns (k: nat)
    ensures k <= |bs| && (forall i :: 0 <= i < k ==> bs[i].count >= count) && (k < |bs| ==> bs[k].count <= count)
  {
    k := 0;
    while k < |bs| && bs[k].count >= count
      invariant k <= |bs| && forall i :: 0 <= i < k ==> bs[i].count >= count
    {
      k := k + 1;
    }
  }

  /** Collect a hash map in whatever order it yields and sort by descending count. */
  method SortedBuckets(m: Buckets) returns (bs: seq<FacetBucket>)
    ensures Lists(bs, m)
  {
    bs := [];
    var todo := m.Keys;
    ghost var done: Buckets := map[];
    while todo != {}
      invariant todo <= m.Keys
      invariant done == map v | v in m && v !in todo :: m[v]
      invariant Lists(bs, done)
      decreases todo
    {
      var v :| v in todo;
      var k := PlaceFor(bs, m[v]);
      InsertKeepsLists(bs, FacetBucket(v, m[v]), done, k);
      bs := Inserted(bs, FacetBucket(v, m[v]), k);
      todo := todo - {v};
      done := done[v := m[v]];
    }
    assert done == m;
  }

  /** One list per counted field, in any order. */
  ghost predicate ListsAll(fs: seq<FacetResult>, c: Counts) {
    (forall i :: 0 <= i < |fs| ==> fs[i].field in c && Lists(fs[i].buckets, c[fs[i].field])) &&
    (forall i, j :: 0 <= i < j < |fs| ==> fs[i].field != fs[j].field) &&
    (forall f :: f in c ==> exists i :: 0 <= i < |fs| && fs[i].field == f)
  }

  lemma ListsAllSnoc(fs: seq<FacetResult>, c: Counts, field: string, bs: seq<FacetBucket>, m: Buckets)
    requires ListsAll(fs, c) && field !in c && Lists(bs, m)
    ensures ListsAll(fs + [FacetResult(field, bs)], c[field := m])
  {
    var all := fs + [FacetResult(field, bs)];
    forall f | f in c || f == field
      ensures exists i :: 0 <= i < |all| && all[i].field == f
    {
      if f == field {
        assert all[|fs|].field == f;
      } else {
        var i :| 0 <= i < |fs| && fs[i].field == f;
        assert all[i].field == f;
      }
    }
  }

  method FacetLists(c: Counts) returns (fs: seq<FacetResult>)
    ensures ListsAll(fs, c)
  {
    fs := [];
    var todo := c.Keys;
    ghost var done: Counts := map[];
    while todo != {}
      invariant todo <= c.Keys
      invariant done == map f | f in c && f !in todo :: c[f]
      invariant ListsAll(fs, done)
      decreases todo
    {
      var f :| f in todo;
      var bs := SortedBuckets(c[f]);
      ListsAllSnoc(fs, done, f, bs, c[f]);
      fs := fs + [FacetResult(f, bs)];
      todo := todo - {f};
      done := done[f := c[f]];
    }
    assert done == c;
  }

  // ------------------------------------------------------------------------
  // Reading counts back
  // ------------------------------------------------------------------------

  function BucketSum(bs: seq<FacetBucket>, v: string): nat {
    if bs == [] then 0
    else BucketSum(bs[..|bs| - 1], v) + if bs[|bs| - 1].value == v then bs[|bs| - 1].count else 0
  }

  /** What a list of facet results says about one value of one field. */
  function FacetSum(fs: seq<FacetResult>, field: string, v: string): nat {
    if fs == [] then 0
    else
      FacetSum(fs[..|fs| - 1], field, v) +
      if fs[|fs| - 1].field == field then BucketSum(fs[|fs| - 1].buckets, v) else 0
  }

  lemma {:induction false} BucketSumOfDistinct(bs: seq<FacetBucket>, v: string)
    requires forall i, j :: 0 <= i < j < |bs| ==> bs[i].value != bs[j].value
    ensures forall i :: 0 <= i < |bs| && bs[i].value == v ==> BucketSum(bs, v) == bs[i].count
    ensures (forall i :: 0 <= i < |bs| ==> bs[i].value != v) ==> BucketSum(bs, v) == 0
  {
    if bs != [] {
      var n := |bs| - 1;
      BucketSumOfDistinct(bs[..n], v);
      assert forall i :: 0 <= i < n ==> bs[..n][i] == bs[i];
    }
  }

  lemma BucketSumOfLists(bs: seq<FacetBucket>, m: Buckets, v: string)
    requires Lists(bs, m)
    ensures BucketSum(bs, v) == CountIn(m, v)
  {
    BucketSumOfDistinct(bs, v);
    if v in m {
      var i :| 0 <= i < |bs| && bs[i].value == v;
    }
  }

  lemma {:induction false} FacetSumOfDistinct(fs: seq<FacetResult>, field: string, v: string)
    requires forall i, j :: 0 <= i < j < |fs| ==> fs[i].field != fs[j].field
    ensures forall i :: 0 <= i < |fs| && fs[i].field == field ==> FacetSum(fs, field, v) == BucketSum(fs[i].buckets, v)
    ensures (forall i :: 0 <= i < |fs| ==> fs[i].field != field) ==> FacetSum(fs, field, v) == 0
  {
    if fs != [] {
      var n := |fs| - 1;
      FacetSumOfDistinct(fs[..n], field, v);
      assert forall i :: 0 <= i < n ==> fs[..n][i] == fs[i];
    }
  }

  /** The lists say exactly what the maps counted. */
  lemma FacetSumOfLists(fs: seq<FacetResult>, c: Counts, field: string, v: string)
    requires ListsAll(fs, c)
    ensures FacetSum(fs, field, v) == CountIn(BucketsOf(c, field), v)
  {
    FacetSumOfDistinct(fs, field, v);
    if field in c {
      var i :| 0 <= i < |fs| && fs[i].field == field;
      BucketSumOfLists(fs[i].buckets, c[field], v);
    }
  }

  lemma {:induction false} NodeTallyOfAppend(
      xs: seq<Value>, ys: seq<Value>, fields: seq<string>, field: string, v: string)
    ensures NodeTally(xs + ys, fields, field, v) == NodeTally(xs, fields, field, v) + NodeTally(ys, fields, field, v)
    decreases |ys|
  {
    if ys == [] {
      assert xs + ys == xs;
    } else {
      var n := |ys| - 1;
      assert (xs + ys)[..|xs| + n] == xs + ys[..n];
      NodeTallyOfAppend(xs, ys[..n], fields, field, v);
    }
  }
}
