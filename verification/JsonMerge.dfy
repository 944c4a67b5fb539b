/** JSON values and the recursive patch the node applies on every upsert. */
module JsonMerge {
  import opened Wrappers

  /** `serde_json::Value`; numbers are integers, objects compare as maps. */
  datatype Value =
    | Null
    | Bool(b: bool)
    | Number(n: int)
    | String(s: string)
    | Array(elems: seq<Value>)
    | Object(fields: map<string, Value>)

  const EMPTY_OBJECT := Object(map[])

  type Path = seq<string>

  /** The value of a key that `entry(k).or_insert(Null)` yields. */
  function FieldOrNull(fields: map<string, Value>, k: string): Value {
    if k in fields then fields[k] else Null
  }

  /** The value `merge_json` leaves in its first argument. */
  function Merge(a: Value, b: Value): Value
    decreases b
  {
    if a.Object? && b.Object? then
      Object(map k | k in a.fields.Keys + b.fields.Keys ::
        if k in b.fields then Merge(FieldOrNull(a.fields, k), b.fields[k]) else a.fields[k])
    else
      b
  }

  /** `merge_json`: every entry of the patch is merged into the entry of the same key, in any order. */
  method MergeJson(a: Value, b: Value) returns (r: Value)
    ensures r == Merge(a, b)
    decreases b
  {
    match (a, b)
    case (Object(base), Object(patch)) =>
      var fields := base;
      var todo := patch.Keys;
      while todo != {}
        invariant todo <= patch.Keys
        invariant fields.Keys == base.Keys + (patch.Keys - todo)
        invariant forall k :: k in fields.Keys ==>
          fields[k] == if k in patch && k !in todo then Merge(FieldOrNull(base, k), patch[k]) else base[k]
        decreases todo
      {
        var k :| k in todo;
        var v := MergeJson(FieldOrNull(fields, k), patch[k]);
        fields := fields[k := v];
        todo := todo - {k};
      }
      r := Object(fields);
    case _ =>
      r := b;
  }

  // ------------------------------------------------------------------------
  // Reading a merged document
  // ------------------------------------------------------------------------

  /** The value found by following object keys, if every key is there. */
  function Lookup(v: Value, p: Path): Option<Value> {
    if p == [] then Some(v)
    else if v.Object? && p[0] in v.fields then Lookup(v.fields[p[0]], p[1..])
    else None
  }

  /** The path runs into a non-object of `v` before its end. */
  predicate Blocked(v: Value, p: Path) {
    p != [] && (!v.Object? || (p[0] in v.fields && Blocked(v.fields[p[0]], p[1..])))
  }

  /** A read at any path of a merge, in terms of reads of the two arguments. */
  lemma {:induction false} MergeRead(a: Value, b: Value, p: Path)
    ensures Lookup(Merge(a, b), p) ==
            match Lookup(b, p)
            case Some(v) => Some(Merge(match Lookup(a, p) case Some(u) => u case None => Null, v))
            case None => if Blocked(b, p) then None else Lookup(a, p)
    decreases |p|
  {
    if p != [] && a.Object? && b.Object? && p[0] in b.fields {
      MergeRead(FieldOrNull(a.fields, p[0]), b.fields[p[0]], p[1..]);
    } else if p != [] && b.Object? && p[0] in b.fields {
      MergeRead(Null, b.fields[p[0]], p[1..]);
      assert Merge(Null, b.fields[p[0]]) == b.fields[p[0]];
    }
  }

  /** A leaf of the patch wins; where the patch says nothing the old value stays. */
  lemma MergeReadLeafAndGap(a: Value, b: Value, p: Path)
    ensures Lookup(b, p).Some? && !Lookup(b, p).value.Object? ==> Lookup(Merge(a, b), p) == Lookup(b, p)
    ensures Lookup(b, p).None? && !Blocked(b, p) ==> Lookup(Merge(a, b), p) == Lookup(a, p)
  {
    MergeRead(a, b, p);
  }

  // ------------------------------------------------------------------------
  // Algebra of the merge
  // ------------------------------------------------------------------------

  /** Merging the same patch twice equals merging it once. */
  lemma {:induction false} MergeIdempotent(a: Value, b: Value)
    ensures Merge(Merge(a, b), b) == Merge(a, b)
    decreases b
  {
    if b.Object? {
      forall k | k in b.fields
        ensures Merge(Merge(Null, b.fields[k]), b.fields[k]) == b.fields[k]
        ensures a.Object? ==> Merge(Merge(FieldOrNull(a.fields, k), b.fields[k]), b.fields[k])
                              == Merge(FieldOrNull(a.fields, k), b.fields[k])
      {
        MergeIdempotent(Null, b.fields[k]);
        if a.Object? {
          MergeIdempotent(FieldOrNull(a.fields, k), b.fields[k]);
        }
      }
    }
  }

  /** Everything `a` says is overwritten by `c`. */
  predicate Covers(c: Value, a: Value)
    decreases c
  {
    a.Object? && c.Object? ==>
      a.fields.Keys <= c.fields.Keys && forall k :: k in a.fields.Keys ==> Covers(c.fields[k], a.fields[k])
  }

  lemma {:induction false} MergeIsPatchIffCovers(a: Value, c: Value)
    ensures Merge(a, c) == c <==> Covers(c, a)
    decreases c
  {
    if a.Object? && c.Object? {
      var m := Merge(a, c);
      assert m.fields.Keys == a.fields.Keys + c.fields.Keys;
      forall k | k in c.fields
        ensures m.fields[k] == c.fields[k] <==> k !in a.fields || Covers(c.fields[k], a.fields[k])
      {
        MergeIsPatchIffCovers(FieldOrNull(a.fields, k), c.fields[k]);
      }
      if Covers(c, a) {
        assert m.fields == c.fields;
      }
      if m == c {
        assert a.fields.Keys <= c.fields.Keys;
        forall k | k in a.fields
          ensures Covers(c.fields[k], a.fields[k])
        {
          assert m.fields[k] == c.fields[k];
        }
      }
    }
  }

  /** What overwrites two values overwrites their merge. */
  lemma {:induction false} CoversMerge(c: Value, a: Value, b: Value)
    requires Covers(c, a) && Covers(c, b)
    ensures Covers(c, Merge(a, b))
    decreases c
  {
    if a.Object? && b.Object? && c.Object? {
      forall k | k in b.fields
        ensures Covers(c.fields[k], Merge(FieldOrNull(a.fields, k), b.fields[k]))
      {
        CoversMerge(c.fields[k], FieldOrNull(a.fields, k), b.fields[k]);
      }
    }
  }

  lemma CoversItself(a: Value)
    ensures Covers(a, a)
  {
    MergeIdempotent(Null, a);
    MergeIsPatchIffCovers(a, a);
  }

  /** Somewhere a non-object of `b` stands between an object of `a` and an object of `c` that does not overwrite it. */
  predicate Severed(a: Value, b: Value, c: Value)
    decreases c
  {
    a.Object? && c.Object? &&
    if b.Object? then
      exists k :: k in c.fields.Keys && k in a.fields && k in b.fields && Severed(a.fields[k], b.fields[k], c.fields[k])
    else
      !Covers(c, a)
  }

  /** Grouping of patches is irrelevant exactly when the middle one severs no object from a later one. */
  lemma {:induction false} MergeAssociativeIff(a: Value, b: Value, c: Value)
    ensures Merge(Merge(a, b), c) == Merge(a, Merge(b, c)) <==> !Severed(a, b, c)
    decreases c
  {
    if !b.Object? {
      MergeIsPatchIffCovers(a, c);
    } else if a.Object? && c.Object? {
      var l, r := Merge(Merge(a, b), c), Merge(a, Merge(b, c));
      assert l.fields.Keys == r.fields.Keys == a.fields.Keys + b.fields.Keys + c.fields.Keys;
      forall k | k in l.fields.Keys
        ensures l.fields[k] == r.fields[k] <==>
                !(k in c.fields && k in a.fields && k in b.fields && Severed(a.fields[k], b.fields[k], c.fields[k]))
      {
        var ak, bk, ck := FieldOrNull(a.fields, k), FieldOrNull(b.fields, k), FieldOrNull(c.fields, k);
        if k in c.fields && k in b.fields {
          MergeAssociativeIff(ak, bk, ck);
          assert l.fields[k] == Merge(Merge(ak, bk), ck);
          assert r.fields[k] == Merge(ak, Merge(bk, ck));
        } else if k in c.fields {
          assert r.fields[k] == Merge(ak, Merge(Null, ck)) == Merge(ak, ck);
        }
      }
      if !Severed(a, b, c) {
        assert l.fields == r.fields;
      }
      if l == r {
        forall k | k in c.fields.Keys && k in a.fields && k in b.fields
          ensures !Severed(a.fields[k], b.fields[k], c.fields[k])
        {
          assert l.fields[k] == r.fields[k];
        }
      }
    }
  }

  /** Unlike section 2 of RFC 7396, a null in the patch is stored. */
  lemma NullIsStored(a: Value, k: string)
    requires a.Object?
    ensures Lookup(Merge(a, Object(map[k := Null])), [k]) == Some(Null)
  {
    var b := Object(map[k := Null]);
    assert Lookup(b, [k]) == Lookup(b.fields[k], []);
    MergeRead(a, b, [k]);
  }

  // ------------------------------------------------------------------------
  // Several patches
  // ------------------------------------------------------------------------

  function MergeAll(v: Value, patches: seq<Value>): Value {
    if patches == [] then v
    else Merge(MergeAll(v, patches[..|patches| - 1]), patches[|patches| - 1])
  }

  /** What the patches say at a key, in order. */
  function At(patches: seq<Value>, k: string): seq<Value> {
    if patches == [] then []
    else
      var last := patches[|patches| - 1];
      At(patches[..|patches| - 1], k) + if last.Object? && k in last.fields then [last.fields[k]] else []
  }

  predicate AllObjects(patches: seq<Value>) {
    forall i :: 0 <= i < |patches| ==> patches[i].Object?
  }

  /** Nothing of the value is left after the patches: some patch is no object, or they overwrite each of its keys. */
  predicate Washed(v: Value, patches: seq<Value>)
    decreases v
  {
    patches != [] &&
    (v.Object? && AllObjects(patches) ==> forall k :: k in v.fields ==> Washed(v.fields[k], At(patches, k)))
  }

  lemma MergeAllSnoc(v: Value, patches: seq<Value>, patch: Value)
    ensures MergeAll(v, patches + [patch]) == Merge(MergeAll(v, patches), patch)
  {
    assert (patches + [patch])[..|patches|] == patches;
  }

  lemma {:induction false} MergeAllAt(v: Value, patches: seq<Value>, k: string)
    requires v.Object? && AllObjects(patches)
    ensures MergeAll(v, patches).Object?
    ensures Get(MergeAll(v, patches).fields, k) ==
            if At(patches, k) == [] then Get(v.fields, k)
            else Some(MergeAll(FieldOrNull(v.fields, k), At(patches, k)))
  {
    if patches != [] {
      var n := |patches| - 1;
      var last := patches[n];
      MergeAllAt(v, patches[..n], k);
      var before := MergeAll(v, patches[..n]);
      if k in last.fields {
        assert FieldOrNull(before.fields, k) == MergeAll(FieldOrNull(v.fields, k), At(patches[..n], k));
        assert Get(Merge(before, last).fields, k) == Some(Merge(FieldOrNull(before.fields, k), last.fields[k]));
        MergeAllSnoc(FieldOrNull(v.fields, k), At(patches[..n], k), last.fields[k]);
      } else {
        assert At(patches, k) == At(patches[..n], k);
      }
    }
  }

  lemma {:induction false} MergeAllFromFirst(v: Value, patches: seq<Value>)
    requires patches != []
    ensures MergeAll(v, patches) == MergeAll(Merge(v, patches[0]), patches[1..])
  {
    var n := |patches| - 1;
    if n == 0 {
      assert patches[..0] == [] && patches[1..] == [];
    } else {
      MergeAllFromFirst(v, patches[..n]);
      assert patches[1..][..n - 1] == patches[..n][1..];
    }
  }

  /** Once a patch that is no object has come, the values before it do not matter. */
  lemma {:induction false} NonObjectWashes(v: Value, w: Value, patches: seq<Value>)
    requires !AllObjects(patches)
    ensures MergeAll(v, patches) == MergeAll(w, patches)
  {
    var n := |patches| - 1;
    if patches[n].Object? {
      NonObjectWashes(v, w, patches[..n]);
    }
  }

  /** A value that is no object leaves as little as the empty object. */
  lemma LeafWashes(v: Value, patches: seq<Value>)
    requires !v.Object? && patches != []
    ensures MergeAll(v, patches) == MergeAll(EMPTY_OBJECT, patches)
  {
    MergeAllFromFirst(v, patches);
    MergeAllFromFirst(EMPTY_OBJECT, patches);
    MergeIsPatchIffCovers(EMPTY_OBJECT, patches[0]);
  }

  /** Patches leave on a value what they leave on the empty object exactly when they wash it. */
  lemma {:induction false} MergeAllForgetsIff(v: Value, patches: seq<Value>)
    requires patches != []
    ensures MergeAll(v, patches) == MergeAll(EMPTY_OBJECT, patches) <==> Washed(v, patches)
    decreases v, 1
  {
    if !v.Object? {
      LeafWashes(v, patches);
    } else if !AllObjects(patches) {
      NonObjectWashes(v, EMPTY_OBJECT, patches);
    } else {
      var l, r := MergeAll(v, patches), MergeAll(EMPTY_OBJECT, patches);
      MergeAllAt(v, patches, "");
      MergeAllAt(EMPTY_OBJECT, patches, "");
      forall k
        ensures Get(l.fields, k) == Get(r.fields, k) <==> (k in v.fields ==> Washed(v.fields[k], At(patches, k)))
      {
        KeyForgetsIff(v, patches, k);
      }
      if forall k :: Get(l.fields, k) == Get(r.fields, k) {
        SameGets(l.fields, r.fields);
      }
    }
  }

  lemma {:induction false} KeyForgetsIff(v: Value, patches: seq<Value>, k: string)
    requires v.Object? && patches != [] && AllObjects(patches)
    ensures MergeAll(v, patches).Object? && MergeAll(EMPTY_OBJECT, patches).Object?
    ensures Get(MergeAll(v, patches).fields, k) == Get(MergeAll(EMPTY_OBJECT, patches).fields, k) <==>
            (k in v.fields ==> Washed(v.fields[k], At(patches, k)))
    decreases v, 0
  {
    MergeAllAt(v, patches, k);
    MergeAllAt(EMPTY_OBJECT, patches, k);
    if k in v.fields && At(patches, k) != [] {
      MergeAllForgetsIff(v.fields[k], At(patches, k));
      LeafWashes(Null, At(patches, k));
    }
  }

  /** One patch washes a value exactly when it covers it. */
  lemma {:induction false} WashedByOne(v: Value, patch: Value)
    ensures Washed(v, [patch]) <==> Covers(patch, v)
  {
    MergeAllForgetsIff(v, [patch]);
    MergeIsPatchIffCovers(v, patch);
    MergeIsPatchIffCovers(EMPTY_OBJECT, patch);
    assert [patch][..0] == [];
    assert MergeAll(v, [patch]) == Merge(MergeAll(v, []), patch);
    assert MergeAll(EMPTY_OBJECT, [patch]) == Merge(MergeAll(EMPTY_OBJECT, []), patch);
  }
}
