/** Python's `dict` with string keys, as the script uses it: insertion-ordered,
    `d[k] = v` keeps an existing key's position and replaces its value,
    `a | b` is `a` updated with `b`, and `del d[k]` removes one key. */
module OrderedDict {
  import opened Wrappers

  datatype Item<V> = Item(key: string, value: V)

  function Keys<V>(d: seq<Item<V>>): (ks: seq<string>)
    ensures |ks| == |d| && forall i | 0 <= i < |d| :: ks[i] == d[i].key
  {
    seq(|d|, i requires 0 <= i < |d| => d[i].key)
  }

  /** No key occurs twice: what every Python dict satisfies. */
  predicate Unique(ks: seq<string>) {
    forall i, j | 0 <= i < j < |ks| :: ks[i] != ks[j]
  }

  /** Position of the first occurrence of `k`. */
  function IndexOf(ks: seq<string>, k: string): (i: nat)
    requires k in ks
    ensures i < |ks| && ks[i] == k
    ensures forall j | 0 <= j < i :: ks[j] != k
  {
    if ks[0] == k then 0 else 1 + IndexOf(ks[1..], k)
  }

  /** `d.get(k)`. */
  function Get<V>(d: seq<Item<V>>, k: string): Option<V>
    decreases |d|
  {
    if d == [] then None
    else if d[0].key == k then Some(d[0].value)
    else Get(d[1..], k)
  }

  lemma {:induction false} GetConcat<V>(a: seq<Item<V>>, b: seq<Item<V>>, k: string)
    ensures Get(a + b, k) == if k in Keys(a) then Get(a, k) else Get(b, k)
    decreases |a|
  {
    if a != [] {
      assert (a + b)[1..] == a[1..] + b;
      assert k in Keys(a) <==> a[0].key == k || k in Keys(a[1..]);
      GetConcat(a[1..], b, k);
    } else {
      assert a + b == b;
    }
  }

  /** A key has a value exactly when it is one of the keys. */
  lemma {:induction false} GetSome<V>(d: seq<Item<V>>, k: string)
    ensures Get(d, k).Some? <==> k in Keys(d)
    decreases |d|
  {
    if d != [] {
      assert k in Keys(d) <==> d[0].key == k || k in Keys(d[1..]);
      GetSome(d[1..], k);
    }
  }

  /** `d[k] = v`. */
  function Put<V>(d: seq<Item<V>>, k: string, v: V): (r: seq<Item<V>>)
    ensures Keys(r) == if k in Keys(d) then Keys(d) else Keys(d) + [k]
    ensures Unique(Keys(d)) ==> Unique(Keys(r))
    ensures Get(r, k) == Some(v)
    ensures forall k' | k' != k :: Get(r, k') == Get(d, k')
  {
    if k in Keys(d) then
      var i := IndexOf(Keys(d), k);
      var r := d[i := Item(k, v)];
      PutUpdate(d, i, k, v);
      r
    else
      var r := d + [Item(k, v)];
      PutAppend(d, k, v);
      r
  }

  lemma PutUpdate<V>(d: seq<Item<V>>, i: nat, k: string, v: V)
    requires k in Keys(d) && i == IndexOf(Keys(d), k)
    ensures Keys(d[i := Item(k, v)]) == Keys(d)
    ensures Get(d[i := Item(k, v)], k) == Some(v)
    ensures forall k' | k' != k :: Get(d[i := Item(k, v)], k') == Get(d, k')
  {
    var r := d[i := Item(k, v)];
    assert Keys(r) == Keys(d) by {
      assert forall j | 0 <= j < |d| :: Keys(r)[j] == Keys(d)[j];
    }
    PutUpdateSame(d, i, k, v);
    forall k' | k' != k
      ensures Get(r, k') == Get(d, k')
    {
      PutUpdateOther(d, i, k, v, k');
    }
  }

  lemma PutUpdateSame<V>(d: seq<Item<V>>, i: nat, k: string, v: V)
    requires k in Keys(d) && i == IndexOf(Keys(d), k)
    ensures Get(d[i := Item(k, v)], k) == Some(v)
  {
    var r := d[i := Item(k, v)];
    assert r == d[..i] + ([Item(k, v)] + d[i + 1..]);
    assert k !in Keys(d[..i]) by {
      assert forall j | 0 <= j < i :: Keys(d[..i])[j] == Keys(d)[j];
    }
    GetConcat(d[..i], [Item(k, v)] + d[i + 1..], k);
  }

  lemma PutUpdateOther<V>(d: seq<Item<V>>, i: nat, k: string, v: V, k': string)
    requires i < |d| && d[i].key == k && k' != k
    ensures Get(d[i := Item(k, v)], k') == Get(d, k')
  {
    var r := d[i := Item(k, v)];
    assert r == d[..i] + ([Item(k, v)] + d[i + 1..]);
    assert d == d[..i] + ([d[i]] + d[i + 1..]);
    GetConcat(d[..i], [Item(k, v)] + d[i + 1..], k');
    GetConcat(d[..i], [d[i]] + d[i + 1..], k');
    assert ([Item(k, v)] + d[i + 1..])[1..] == d[i + 1..];
    assert ([d[i]] + d[i + 1..])[1..] == d[i + 1..];
  }

  lemma PutAppend<V>(d: seq<Item<V>>, k: string, v: V)
    requires k !in Keys(d)
    ensures Keys(d + [Item(k, v)]) == Keys(d) + [k]
    ensures Get(d + [Item(k, v)], k) == Some(v)
    ensures forall k' | k' != k :: Get(d + [Item(k, v)], k') == Get(d, k')
  {
    GetConcat(d, [Item(k, v)], k);
    forall k' | k' != k
      ensures Get(d + [Item(k, v)], k') == Get(d, k')
    {
      GetConcat(d, [Item(k, v)], k');
      GetSome(d, k');
    }
  }

  /** `d.update(items)`: every item put in turn. `a | b` is `PutAll(a, b)`. */
  function PutAll<V>(d: seq<Item<V>>, items: seq<Item<V>>): seq<Item<V>>
    decreases |items|
  {
    if items == [] then d
    else
      var last := items[|items| - 1];
      Put(PutAll(d, items[..|items| - 1]), last.key, last.value)
  }

  /** The keys of `ks` in the order of their first occurrence. */
  function FirstOccurrences(ks: seq<string>): seq<string>
    decreases |ks|
  {
    if ks == [] then []
    else
      var f := FirstOccurrences(ks[..|ks| - 1]);
      if ks[|ks| - 1] in f then f else f + [ks[|ks| - 1]]
  }

  /** First-occurrence order lists each key once, loses none, and keeps the
      order in which keys first appear. */
  lemma {:induction false} FirstOccurrencesSpec(ks: seq<string>)
    ensures Unique(FirstOccurrences(ks))
    ensures forall x :: x in FirstOccurrences(ks) <==> x in ks
    ensures forall i, j | 0 <= i < j < |FirstOccurrences(ks)| ::
      IndexOf(ks, FirstOccurrences(ks)[i]) < IndexOf(ks, FirstOccurrences(ks)[j])
    decreases |ks|
  {
    if ks != [] {
      var p := ks[..|ks| - 1];
      var x := ks[|ks| - 1];
      FirstOccurrencesSpec(p);
      assert ks == p + [x];
      var f := FirstOccurrences(p);
      forall y | y in p
        ensures IndexOf(ks, y) == IndexOf(p, y)
      {
        var a, b := IndexOf(ks, y), IndexOf(p, y);
        assert ks[b] == y;
        assert a <= b;
        assert a < |p| && p[a] == y;
      }
      if x !in f {
        assert x !in p;
        assert IndexOf(ks, x) == |ks| - 1;
      }
    }
  }

  lemma {:induction false} FirstOccurrencesOfUnique(ks: seq<string>)
    requires Unique(ks)
    ensures FirstOccurrences(ks) == ks
    decreases |ks|
  {
    if ks != [] {
      var p := ks[..|ks| - 1];
      FirstOccurrencesOfUnique(p);
      assert ks[|ks| - 1] !in p;
      assert ks == p + [ks[|ks| - 1]];
    }
  }

  /** Repeated `d[k] = v`: a key keeps the position of its first assignment. */
  lemma {:induction false} PutAllKeys<V>(d: seq<Item<V>>, items: seq<Item<V>>)
    requires Unique(Keys(d))
    ensures Keys(PutAll(d, items)) == FirstOccurrences(Keys(d) + Keys(items))
    ensures Unique(Keys(PutAll(d, items)))
    decreases |items|
  {
    if items == [] {
      FirstOccurrencesOfUnique(Keys(d));
      assert Keys(d) + Keys(items) == Keys(d);
    } else {
      var p := items[..|items| - 1];
      var last := items[|items| - 1];
      PutAllKeys(d, p);
      assert items == p + [last];
      KeysSnoc(d, p, last);
      FirstOccurrencesSnoc(Keys(d) + Keys(p), last.key);
      assert PutAll(d, items) == Put(PutAll(d, p), last.key, last.value);
    }
  }

  lemma KeysSnoc<V>(d: seq<Item<V>>, p: seq<Item<V>>, x: Item<V>)
    ensures Keys(d) + Keys(p + [x]) == (Keys(d) + Keys(p)) + [x.key]
  {
  }

  lemma FirstOccurrencesSnoc(ks: seq<string>, x: string)
    ensures FirstOccurrences(ks + [x])
      == if x in FirstOccurrences(ks) then FirstOccurrences(ks) else FirstOccurrences(ks) + [x]
  {
    assert (ks + [x])[..|ks|] == ks;
  }

  /** The value a key ends up with is that of its last assignment. */
  function LastValue<V>(items: seq<Item<V>>, k: string): V
    requires k in Keys(items)
    decreases |items|
  {
    var last := items[|items| - 1];
    if last.key == k then last.value
    else
      assert k in Keys(items[..|items| - 1]) by {
        var i :| 0 <= i < |items| && Keys(items)[i] == k;
        assert i < |items| - 1;
        assert Keys(items[..|items| - 1])[i] == k;
      }
      LastValue(items[..|items| - 1], k)
  }

  lemma {:induction false} PutAllGet<V>(d: seq<Item<V>>, items: seq<Item<V>>, k: string)
    ensures Get(PutAll(d, items), k) == if k in Keys(items) then Some(LastValue(items, k)) else Get(d, k)
    decreases |items|
  {
    if items != [] {
      var p := items[..|items| - 1];
      PutAllGet(d, p, k);
      assert Keys(items) == Keys(p) + [items[|items| - 1].key];
    }
  }

  /** The value a key ends up with comes from its last assignment: no later item has that key. */
  lemma {:induction false} LastValueAt<V>(items: seq<Item<V>>, k: string)
    requires k in Keys(items)
    ensures exists j | 0 <= j < |items| ::
      (items[j] == Item(k, LastValue(items, k)) && forall j' | j < j' < |items| :: items[j'].key != k)
    decreases |items|
  {
    var n := |items| - 1;
    if items[n].key != k {
      var p := items[..n];
      assert k in Keys(p) by {
        var i :| 0 <= i < |items| && Keys(items)[i] == k;
        assert Keys(p)[i] == k;
      }
      LastValueAt(p, k);
      var j :| 0 <= j < |p| && p[j] == Item(k, LastValue(p, k)) && forall j' | j < j' < |p| :: p[j'].key != k;
      assert items[j] == p[j];
      assert forall j' | j < j' < |items| :: items[j'].key != k by {
        forall j' | j < j' < |items|
          ensures items[j'].key != k
        {
          if j' < n {
            assert items[j'] == p[j'];
          }
        }
      }
    }
  }

  /** In a table with unique keys, each item is what its key looks up. */
  lemma {:induction false} GetAt<V>(d: seq<Item<V>>, i: nat)
    requires Unique(Keys(d)) && i < |d|
    ensures Get(d, d[i].key) == Some(d[i].value)
    decreases |d|
  {
    if i > 0 {
      assert Keys(d)[0] != Keys(d)[i];
      assert Unique(Keys(d[1..])) by {
        forall a, b | 0 <= a < b < |d| - 1
          ensures Keys(d[1..])[a] != Keys(d[1..])[b]
        {
          assert Keys(d)[a + 1] != Keys(d)[b + 1];
        }
      }
      GetAt(d[1..], i - 1);
    }
  }

  /** The keys of `ks` that are not in `drop`, in order. */
  function Without(ks: seq<string>, drop: set<string>): (r: seq<string>)
    decreases |ks|
  {
    if ks == [] then []
    else
      var w := Without(ks[..|ks| - 1], drop);
      if ks[|ks| - 1] in drop then w else w + [ks[|ks| - 1]]
  }

  /** `a | b` lists the keys of `a`, then the keys of `b` that `a` lacks. */
  lemma {:induction false} UnionKeys<V>(a: seq<Item<V>>, b: seq<Item<V>>)
    requires Unique(Keys(a)) && Unique(Keys(b))
    ensures Keys(PutAll(a, b)) == Keys(a) + Without(Keys(b), set k | k in Keys(a))
    decreases |b|
  {
    if b != [] {
      var p := b[..|b| - 1];
      var x := b[|b| - 1];
      UnionKeys(a, p);
      assert Keys(b) == Keys(p) + [x.key];
      assert Keys(b)[..|b| - 1] == Keys(p);
      assert x.key !in Keys(p);
      WithoutSubset(Keys(p), set k | k in Keys(a));
    }
  }

  lemma {:induction false} WithoutSubset(ks: seq<string>, drop: set<string>)
    ensures forall x :: x in Without(ks, drop) ==> x in ks && x !in drop
    decreases |ks|
  {
    if ks != [] {
      WithoutSubset(ks[..|ks| - 1], drop);
    }
  }

  /** `del d[k]`: Python raises `KeyError` when `k` is absent. */
  function Delete<V>(d: seq<Item<V>>, k: string): (r: seq<Item<V>>)
    requires k in Keys(d)
    ensures Unique(Keys(d)) ==> Keys(r) == Without(Keys(d), {k}) && Unique(Keys(r))
    ensures Unique(Keys(d)) ==> Get(r, k) == None
    ensures forall k' | k' != k :: Get(r, k') == Get(d, k')
  {
    var i := IndexOf(Keys(d), k);
    var r := d[..i] + d[i + 1..];
    DeleteAt(d, i, k);
    r
  }

  lemma DeleteAt<V>(d: seq<Item<V>>, i: nat, k: string)
    requires k in Keys(d) && i == IndexOf(Keys(d), k)
    ensures Unique(Keys(d)) ==> Keys(d[..i] + d[i + 1..]) == Without(Keys(d), {k})
    ensures Unique(Keys(d)) ==> Unique(Keys(d[..i] + d[i + 1..]))
    ensures Unique(Keys(d)) ==> Get(d[..i] + d[i + 1..], k) == None
    ensures forall k' | k' != k :: Get(d[..i] + d[i + 1..], k') == Get(d, k')
  {
    forall k' | k' != k
      ensures Get(d[..i] + d[i + 1..], k') == Get(d, k')
    {
      DeleteAtOther(d, i, k, k');
    }
    if Unique(Keys(d)) {
      DeleteAtKeys(d, i, k);
    }
  }

  lemma DeleteAtOther<V>(d: seq<Item<V>>, i: nat, k: string, k': string)
    requires i < |d| && d[i].key == k && k' != k
    ensures Get(d[..i] + d[i + 1..], k') == Get(d, k')
  {
    var rest := [d[i]] + d[i + 1..];
    assert d == d[..i] + rest;
    GetConcat(d[..i], d[i + 1..], k');
    GetConcat(d[..i], rest, k');
    assert rest[1..] == d[i + 1..];
  }

  lemma DeleteAtKeys<V>(d: seq<Item<V>>, i: nat, k: string)
    requires Unique(Keys(d)) && i < |d| && d[i].key == k
    ensures Keys(d[..i] + d[i + 1..]) == Without(Keys(d), {k})
    ensures Unique(Keys(d[..i] + d[i + 1..]))
    ensures Get(d[..i] + d[i + 1..], k) == None
  {
    var r := d[..i] + d[i + 1..];
    WithoutOne(Keys(d), i, k);
    assert Keys(r) == Keys(d)[..i] + Keys(d)[i + 1..];
    assert k !in Keys(r);
    GetSome(r, k);
  }

  lemma {:induction false} WithoutOne(ks: seq<string>, i: nat, k: string)
    requires Unique(ks) && i < |ks| && ks[i] == k
    ensures Without(ks, {k}) == ks[..i] + ks[i + 1..]
    decreases |ks|
  {
    var p := ks[..|ks| - 1];
    if i == |ks| - 1 {
      WithoutNone(p, k);
    } else {
      WithoutOne(p, i, k);
      assert p[..i] + p[i + 1..] + [ks[|ks| - 1]] == ks[..i] + ks[i + 1..];
    }
  }

  lemma {:induction false} WithoutNone(ks: seq<string>, k: string)
    requires k !in ks
    ensures Without(ks, {k}) == ks
    decreases |ks|
  {
    if ks != [] {
      WithoutNone(ks[..|ks| - 1], k);
      assert ks == ks[..|ks| - 1] + [ks[|ks| - 1]];
    }
  }
}
