/** The final step of both aggregations: `map.into_iter().sorted_by_key(|key|
    key.0.clone()).collect()`, the map's entries listed in ascending key order.

    Keys are `String`s, ordered by Rust's `Ord`: lexicographic on the UTF-8
    bytes, which orders strings exactly as lexicographic order on their code
    points does, a proper prefix first. */
module Tables {
  /** `a < b` on keys. */
  predicate KeyLess(a: string, b: string)
  {
    if a == [] then b != []
    else b != [] && (a[0] < b[0] || (a[0] == b[0] && KeyLess(a[1..], b[1..])))
  }

  lemma {:induction false} KeyLessIrreflexive(a: string)
    ensures !KeyLess(a, a)
  {
    if a != [] {
      KeyLessIrreflexive(a[1..]);
    }
  }

  lemma {:induction false} KeyLessTransitive(a: string, b: string, c: string)
    requires KeyLess(a, b) && KeyLess(b, c)
    ensures KeyLess(a, c)
  {
    if a != [] && a[0] == b[0] && b[0] == c[0] {
      KeyLessTransitive(a[1..], b[1..], c[1..]);
    }
  }

  lemma {:induction false} KeyLessTotal(a: string, b: string)
    ensures KeyLess(a, b) || a == b || KeyLess(b, a)
  {
    if a != [] && b != [] && a[0] == b[0] {
      KeyLessTotal(a[1..], b[1..]);
      if a[1..] == b[1..] {
        assert a == [a[0]] + a[1..] && b == [b[0]] + b[1..];
      }
    }
  }

  /** A listing of key and entry pairs. */
  type Table<S> = seq<(string, S)>

  /** Keys strictly ascending, so each key is listed once. */
  predicate Sorted<S>(t: Table<S>)
  {
    forall i, j | 0 <= i < j < |t| :: KeyLess(t[i].0, t[j].0)
  }

  /** The map a listing describes. */
  function ToMap<S>(t: Table<S>): map<string, S>
  {
    if t == [] then map[] else ToMap(t[1..])[t[0].0 := t[0].1]
  }

  /** `t` lists exactly the entries of `m`, in ascending key order. */
  predicate Tabulates<S(==)>(t: Table<S>, m: map<string, S>)
  {
    Sorted(t) && ToMap(t) == m
  }

  /** Every key a listing describes is one of its keys. */
  lemma {:induction false} ToMapKeysAbove<S>(t: Table<S>, x: string)
    requires forall i | 0 <= i < |t| :: KeyLess(x, t[i].0)
    ensures forall k | k in ToMap(t) :: KeyLess(x, k)
  {
    if t != [] {
      ToMapKeysAbove(t[1..], x);
    }
  }

  /** In a sorted listing the first key is below all the others, so the rest
      describes the map without it. */
  lemma SortedHead<S>(t: Table<S>)
    requires Sorted(t) && t != []
    ensures t[0].0 in ToMap(t) && ToMap(t)[t[0].0] == t[0].1
    ensures forall k | k in ToMap(t) && k != t[0].0 :: KeyLess(t[0].0, k)
    ensures ToMap(t[1..]) == ToMap(t) - {t[0].0}
    ensures Sorted(t[1..])
  {
    var k, rest := t[0].0, t[1..];
    assert forall i | 0 <= i < |rest| :: KeyLess(k, rest[i].0) by {
      forall i | 0 <= i < |rest| ensures KeyLess(k, rest[i].0) {
        assert rest[i] == t[i + 1];
      }
    }
    ToMapKeysAbove(rest, k);
    KeyLessIrreflexive(k);
    assert ToMap(rest) == ToMap(t) - {k} by {
      MapUpdateRemove(ToMap(rest), k, t[0].1);
    }
    assert Sorted(rest) by {
      forall i, j | 0 <= i < j < |rest| ensures KeyLess(rest[i].0, rest[j].0) {
        assert rest[i] == t[i + 1] && rest[j] == t[j + 1];
      }
    }
  }

  /** Adding a new key and removing it again gives the map back. */
  lemma MapUpdateRemove<S>(m: map<string, S>, k: string, v: S)
    requires k !in m
    ensures m[k := v] - {k} == m
  {
  }

  /** A map has one sorted listing: the result of sorting does not depend on
      the order the entries came in. */
  lemma {:induction false} TabulationUnique<S>(t1: Table<S>, t2: Table<S>, m: map<string, S>)
    requires Tabulates(t1, m) && Tabulates(t2, m)
    ensures t1 == t2
  {
    if t1 == [] || t2 == [] {
      assert t1 == [] && t2 == [] by {
        if t1 != [] {
          SortedHead(t1);
        }
        if t2 != [] {
          SortedHead(t2);
        }
      }
    } else {
      SortedHead(t1);
      SortedHead(t2);
      var k1, k2 := t1[0].0, t2[0].0;
      if k1 != k2 {
        KeyLessTransitive(k1, k2, k1);
        KeyLessIrreflexive(k1);
      }
      TabulationUnique(t1[1..], t2[1..], m - {k1});
      assert t1 == [t1[0]] + t1[1..] && t2 == [t2[0]] + t2[1..];
    }
  }

  /** Puts an entry with a new key in its place. */
  function Insert<S(==)>(t: Table<S>, k: string, v: S): (r: Table<S>)
    requires Sorted(t) && k !in ToMap(t)
    ensures Sorted(r) && ToMap(r) == ToMap(t)[k := v]
    ensures |r| == |t| + 1
  {
    if t == [] then [(k, v)]
    else if KeyLess(k, t[0].0) then
      SortedHead(t);
      assert forall i | 0 < i < |t| :: KeyLess(k, t[i].0) by {
        forall i | 0 < i < |t| {
          KeyLessTransitive(k, t[0].0, t[i].0);
        }
      }
      var r := [(k, v)] + t;
      assert r[1..] == t;
      r
    else
      SortedHead(t);
      KeyLessTotal(k, t[0].0);
      var rest := Insert(t[1..], k, v);
      InsertBehind(t, k, v, rest);
      [t[0]] + rest
  }

  /** The step of `Insert` that keeps the first entry in front. */
  lemma InsertBehind<S>(t: Table<S>, k: string, v: S, rest: Table<S>)
    requires Sorted(t) && t != [] && KeyLess(t[0].0, k)
    requires Sorted(rest) && ToMap(rest) == ToMap(t[1..])[k := v]
    ensures Sorted([t[0]] + rest) && ToMap([t[0]] + rest) == ToMap(t)[k := v]
  {
    var r := [t[0]] + rest;
    assert r[1..] == rest;
    SortedHead(t);
    assert ToMap(r) == ToMap(t)[k := v] by {
      KeyLessIrreflexive(k);
      MapUpdateSwap(ToMap(t[1..]), k, v, t[0].0, t[0].1);
    }
    assert forall j | 0 < j < |r| :: KeyLess(t[0].0, r[j].0) by {
      forall j | 0 < j < |r|
        ensures KeyLess(t[0].0, r[j].0)
      {
        assert r[j].0 in ToMap(rest) by {
          ToMapHasKeys(rest, j - 1);
        }
      }
    }
    assert Sorted(r) by {
      forall i, j | 0 <= i < j < |r| ensures KeyLess(r[i].0, r[j].0) {
        if i > 0 {
          assert r[i] == rest[i - 1] && r[j] == rest[j - 1];
        }
      }
    }
  }

  /** Updates of two different keys commute. */
  lemma MapUpdateSwap<S>(m: map<string, S>, a: string, x: S, b: string, y: S)
    requires a != b
    ensures m[a := x][b := y] == m[b := y][a := x]
  {
  }

  /** Every listed key is a key of the map. */
  lemma {:induction false} ToMapHasKeys<S>(t: Table<S>, i: nat)
    requires i < |t|
    ensures t[i].0 in ToMap(t)
  {
    if i > 0 {
      ToMapHasKeys(t[1..], i - 1);
    }
  }

  /** In a sorted listing each pair is the map's entry for its key. */
  lemma {:induction false} ToMapEntry<S>(t: Table<S>, i: nat)
    requires Sorted(t) && i < |t|
    ensures t[i].0 in ToMap(t) && ToMap(t)[t[i].0] == t[i].1
  {
    if i > 0 {
      SortedHead(t);
      ToMapEntry(t[1..], i - 1);
      KeyLessIrreflexive(t[0].0);
    }
  }

  /** Every key of the map a listing describes is listed. */
  lemma {:induction false} ToMapKeyListed<S>(t: Table<S>, k: string) returns (i: nat)
    requires k in ToMap(t)
    ensures i < |t| && t[i].0 == k
  {
    if t[0].0 == k {
      i := 0;
    } else {
      var j := ToMapKeyListed(t[1..], k);
      i := j + 1;
    }
  }

  /** `sorted_by_key` over the entries of `m`: the entries are taken in an
      unspecified order, as a `HashMap` yields them, and each is put in its
      place. */
  method SortByKey<S(==)>(m: map<string, S>) returns (t: Table<S>)
    ensures Tabulates(t, m)
    ensures |t| == |m|
  {
    t := [];
    var rest := m.Keys;
    while rest != {}
      invariant rest <= m.Keys
      invariant Sorted(t)
      invariant ToMap(t) == m - rest
      invariant |t| + |rest| == |m|
      decreases |rest|
    {
      var k :| k in rest;
      t := Insert(t, k, m[k]);
      assert ToMap(t) == m - (rest - {k});
      rest := rest - {k};
    }
    assert m - {} == m;
  }
}
