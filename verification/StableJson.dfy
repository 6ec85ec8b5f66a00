/**
 The stable form of a JSON value: the fields of every object in the order of their keys.
 It is its own stable form, and values that differ only in the order of fields share it.
 */
module StableJson {
  import opened Ordering
  import opened Sets

  datatype Json = Scalar(text: string) | List(items: seq<Json>) | Object(fields: seq<Field>)

  datatype Field = Field(key: string, value: Json)

  function ByKey(collate: Order<string>): Order<Field> {
    (a: Field, b: Field) => collate(a.key, b.key)
  }

  /** Sorting by key and making values stable may be done in either order; see `StableSortsFirst`. */
  function Stable(v: Json, collate: Order<string>): Json {
    match v
    case Scalar(_) => v
    case List(items) => List(seq(|items|, i requires 0 <= i < |items| => Stable(items[i], collate)))
    case Object(fields) => Object(Sort(StableFields(fields, collate), ByKey(collate)))
  }

  function StableFields(fields: seq<Field>, collate: Order<string>): (r: seq<Field>)
    ensures |r| == |fields|
    ensures forall i :: 0 <= i < |r| ==> r[i].key == fields[i].key && r[i].value == Stable(fields[i].value, collate)
  {
    seq(|fields|, i requires 0 <= i < |fields| => Field(fields[i].key, Stable(fields[i].value, collate)))
  }

  function StableField(x: Field, collate: Order<string>): Field {
    Field(x.key, Stable(x.value, collate))
  }

  lemma StableCons(x: Field, s: seq<Field>, collate: Order<string>)
    ensures StableFields([x] + s, collate) == [StableField(x, collate)] + StableFields(s, collate)
  {
  }

  /** Inserting commutes with making the values stable. */
  lemma {:induction false} InsertStable(x: Field, s: seq<Field>, collate: Order<string>)
    ensures StableFields(Insert(x, s, ByKey(collate)), collate)
            == Insert(StableField(x, collate), StableFields(s, collate), ByKey(collate))
  {
    if s == [] || collate(x.key, s[0].key) {
      StableCons(x, s, collate);
    } else {
      var rest := s[1..];
      assert s == [s[0]] + rest;
      InsertStable(x, rest, collate);
      StableCons(s[0], rest, collate);
      StableCons(s[0], Insert(x, rest, ByKey(collate)), collate);
    }
  }

  /** The program sorts the entries first and makes their values stable afterwards; that is the same. */
  lemma {:induction false} StableSortsFirst(fields: seq<Field>, collate: Order<string>)
    ensures Sort(StableFields(fields, collate), ByKey(collate)) == StableFields(Sort(fields, ByKey(collate)), collate)
  {
    if fields == [] {
    } else {
      StableSortsFirst(fields[1..], collate);
      assert fields == [fields[0]] + fields[1..];
      StableCons(fields[0], fields[1..], collate);
      InsertStable(fields[0], Sort(fields[1..], ByKey(collate)), collate);
    }
  }

  lemma ByKeyIsPreorder(collate: Order<string>)
    requires IsTotalPreorder(collate)
    ensures IsTotalPreorder(ByKey(collate))
  {
    var le := ByKey(collate);
    forall a, b ensures le(a, b) || le(b, a) {
      assert collate(a.key, b.key) || collate(b.key, a.key);
    }
    forall a, b, c | le(a, b) && le(b, c) ensures le(a, c) {
      assert collate(a.key, b.key) && collate(b.key, c.key);
    }
  }

  /** A stable value is its own stable form. */
  lemma {:induction false} StableTwice(v: Json, collate: Order<string>)
    requires IsTotalPreorder(collate)
    ensures Stable(Stable(v, collate), collate) == Stable(v, collate)
  {
    match v {
      case Scalar(_) =>
      case List(items) =>
        var once := Stable(v, collate).items;
        forall i | 0 <= i < |items| ensures Stable(once[i], collate) == once[i] {
          StableTwice(items[i], collate);
        }
      case Object(fields) =>
        var mapped, sorted := StableFields(fields, collate), Stable(v, collate).fields;
        ByKeyIsPreorder(collate);
        SortKeepsElements(mapped, ByKey(collate));
        SortSorts(mapped, ByKey(collate));
        forall i | 0 <= i < |sorted| ensures Stable(sorted[i].value, collate) == sorted[i].value {
          assert sorted[i] in mapped;
          var k :| 0 <= k < |mapped| && mapped[k] == sorted[i];
          StableTwice(fields[k].value, collate);
        }
        assert StableFields(sorted, collate) == sorted;
        SortOfSorted(sorted, ByKey(collate));
    }
  }

  // ---------------------------------------------------------------- the order of fields does not matter

  ghost predicate DistinctKeys(fields: seq<Field>) {
    forall i, j :: 0 <= i < j < |fields| ==> fields[i].key != fields[j].key
  }

  /** The values are equal but for the order of fields. */
  ghost predicate SameValue(v: Json, w: Json)
    decreases v
  {
    match v
    case Scalar(_) => v == w
    case List(items) => w.List? && |w.items| == |items| && forall i :: 0 <= i < |items| ==> SameValue(items[i], w.items[i])
    case Object(fields) =>
      && w.Object? && |w.fields| == |fields| && DistinctKeys(fields) && DistinctKeys(w.fields)
      && forall i :: 0 <= i < |fields| ==> HasCounterpart(fields[i], w.fields)
  }

  /** Some field has the key and the same value. */
  ghost predicate HasCounterpart(f: Field, fields: seq<Field>)
    decreases f
  {
    exists j :: 0 <= j < |fields| && fields[j].key == f.key && SameValue(f.value, fields[j].value)
  }

  lemma {:induction false} CountField(s: seq<Field>, x: Field)
    requires DistinctKeys(s)
    ensures multiset(s)[x] == if x in s then 1 else 0
    decreases |s|
  {
    if s != [] {
      var n := |s| - 1;
      CountField(s[..n], x);
      assert s == s[..n] + [s[n]];
    }
  }

  /** Lists of distinct keys, one within the other and of its length, have the same members. */
  lemma SameMembers(a: seq<Field>, b: seq<Field>)
    requires DistinctKeys(a) && DistinctKeys(b) && |a| == |b| && forall i :: 0 <= i < |a| ==> a[i] in b
    ensures multiset(a) == multiset(b)
  {
    DistinctSize(a);
    DistinctSize(b);
    var inA, inB := set x | x in a, set x | x in b;
    SubsetSize(inA, inB);
    forall x ensures multiset(a)[x] == multiset(b)[x] {
      assert x in inA <==> x in inB;
      CountField(a, x);
      CountField(b, x);
    }
  }

  /** Values that differ only in the order of fields have the same stable form. */
  lemma {:induction false} StableForgetsOrder(v: Json, w: Json, collate: Order<string>)
    requires IsTotalOrder(collate) && SameValue(v, w)
    ensures Stable(v, collate) == Stable(w, collate)
    decreases v
  {
    match v {
      case Scalar(_) =>
      case List(items) =>
        forall i | 0 <= i < |items| ensures Stable(items[i], collate) == Stable(w.items[i], collate) {
          StableForgetsOrder(items[i], w.items[i], collate);
        }
      case Object(fields) =>
        var a, b := StableFields(fields, collate), StableFields(w.fields, collate);
        forall i | 0 <= i < |a| ensures a[i] in b {
          assert HasCounterpart(fields[i], w.fields);
          var j :| 0 <= j < |w.fields| && w.fields[j].key == fields[i].key && SameValue(fields[i].value, w.fields[j].value);
          StableForgetsOrder(fields[i].value, w.fields[j].value, collate);
          assert b[j] == a[i];
        }
        SameMembers(a, b);
        ByKeyIsPreorder(collate);
        SortForgetsOrder(a, b, ByKey(collate));
    }
  }

  // ---------------------------------------------------------------- and nothing else is forgotten

  /** No object, at any depth, has two fields of one key; JavaScript objects never do. */
  ghost predicate AllDistinct(v: Json) {
    match v
    case Scalar(_) => true
    case List(items) => forall i :: 0 <= i < |items| ==> AllDistinct(items[i])
    case Object(fields) => DistinctKeys(fields) && forall i :: 0 <= i < |fields| ==> AllDistinct(fields[i].value)
  }

  /** Objects whose stable fields are sorted alike have the same stable fields. */
  lemma SameStableFields(a: seq<Field>, b: seq<Field>, collate: Order<string>)
    requires Sort(a, ByKey(collate)) == Sort(b, ByKey(collate))
    ensures |a| == |b| && forall x :: x in a <==> x in b
  {
    SortKeepsElements(a, ByKey(collate));
    SortKeepsElements(b, ByKey(collate));
  }

  /** Values with the same stable form differ only in the order of fields. */
  lemma {:induction false} StableRemembers(v: Json, w: Json, collate: Order<string>)
    requires AllDistinct(v) && AllDistinct(w) && Stable(v, collate) == Stable(w, collate)
    ensures SameValue(v, w)
    decreases v
  {
    match v {
      case Scalar(_) =>
      case List(items) =>
        forall i | 0 <= i < |items| ensures SameValue(items[i], w.items[i]) {
          assert Stable(items[i], collate) == Stable(v, collate).items[i];
          assert Stable(w.items[i], collate) == Stable(w, collate).items[i];
          StableRemembers(items[i], w.items[i], collate);
        }
      case Object(fields) =>
        var a, b := StableFields(fields, collate), StableFields(w.fields, collate);
        SameStableFields(a, b, collate);
        forall i | 0 <= i < |fields| ensures HasCounterpart(fields[i], w.fields) {
          assert a[i] in b;
          var j :| 0 <= j < |b| && b[j] == a[i];
          StableRemembers(fields[i].value, w.fields[j].value, collate);
        }
    }
  }

  /** Two values share their stable form exactly when they differ only in the order of fields. */
  lemma StableExactly(v: Json, w: Json, collate: Order<string>)
    requires IsTotalOrder(collate) && AllDistinct(v) && AllDistinct(w)
    ensures Stable(v, collate) == Stable(w, collate) <==> SameValue(v, w)
  {
    if Stable(v, collate) == Stable(w, collate) {
      StableRemembers(v, w, collate);
    }
    if SameValue(v, w) {
      StableForgetsOrder(v, w, collate);
    }
  }

  // ---------------------------------------------------------------- comparing objects by parts

  /** Objects that list the same keys in the same places differ only where their values do. */
  lemma AlignedFields(a: seq<Field>, b: seq<Field>)
    requires DistinctKeys(a) && |a| == |b| && forall i :: 0 <= i < |a| ==> a[i].key == b[i].key
    ensures SameValue(Object(a), Object(b)) <==> forall i :: 0 <= i < |a| ==> SameValue(a[i].value, b[i].value)
  {
    forall i, j | 0 <= i < j < |b| ensures b[i].key != b[j].key {
      assert a[i].key != a[j].key;
    }
    if SameValue(Object(a), Object(b)) {
      forall i | 0 <= i < |a| ensures SameValue(a[i].value, b[i].value) {
        assert HasCounterpart(a[i], b);
        var j :| 0 <= j < |b| && b[j].key == a[i].key && SameValue(a[i].value, b[j].value);
        assert j == i;
      }
    }
    if forall i :: 0 <= i < |a| ==> SameValue(a[i].value, b[i].value) {
      forall i | 0 <= i < |a| ensures HasCounterpart(a[i], b) {
        assert b[i].key == a[i].key;
      }
    }
  }

  /** A leading field of one key is compared with its counterpart, the rest with the rest. */
  lemma LeadingField(x: Field, a: seq<Field>, y: Field, b: seq<Field>)
    requires x.key == y.key && DistinctKeys([x] + a) && DistinctKeys([y] + b)
    ensures DistinctKeys(a) && DistinctKeys(b)
    ensures SameValue(Object([x] + a), Object([y] + b)) <==> SameValue(x.value, y.value) && SameValue(Object(a), Object(b))
  {
    var u, v := [x] + a, [y] + b;
    TailIsDistinct(x, a);
    TailIsDistinct(y, b);
    if SameValue(Object(u), Object(v)) {
      assert HasCounterpart(u[0], v);
      var k :| 0 <= k < |v| && v[k].key == u[0].key && SameValue(u[0].value, v[k].value);
      assert k == 0;
      forall i | 0 <= i < |a| ensures HasCounterpart(a[i], b) {
        assert HasCounterpart(u[i + 1], v);
        var j :| 0 <= j < |v| && v[j].key == u[i + 1].key && SameValue(u[i + 1].value, v[j].value);
        assert j > 0 && b[j - 1] == v[j];
      }
    }
    if SameValue(x.value, y.value) && SameValue(Object(a), Object(b)) {
      forall i | 0 <= i < |u| ensures HasCounterpart(u[i], v) {
        if i == 0 {
          assert v[0].key == u[0].key;
        } else {
          assert HasCounterpart(a[i - 1], b);
          var j :| 0 <= j < |b| && b[j].key == a[i - 1].key && SameValue(a[i - 1].value, b[j].value);
          assert v[j + 1] == b[j];
        }
      }
    }
  }

  lemma TailIsDistinct(x: Field, a: seq<Field>)
    requires DistinctKeys([x] + a)
    ensures DistinctKeys(a) && forall i :: 0 <= i < |a| ==> a[i].key != x.key
  {
    var u := [x] + a;
    forall i, j | 0 <= i < j < |a| ensures a[i].key != a[j].key {
      assert u[i + 1].key != u[j + 1].key;
    }
    forall i | 0 <= i < |a| ensures a[i].key != x.key {
      assert u[0].key != u[i + 1].key;
    }
  }
}
