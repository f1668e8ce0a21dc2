/** A dictionary that remembers insertion order, oldest first. */
module OrderedDict {
  import opened Wrappers
  import opened Recency
  import opened Text

  datatype Item<K, V> = Item(key: K, value: V)
  type Dict<K, V> = seq<Item<K, V>>

  function Keys<K, V>(d: Dict<K, V>): seq<K> {
    if d == [] then [] else [d[0].key] + Keys(d[1..])
  }

  function Lookup<K(==), V>(d: Dict<K, V>, k: K): Option<V> {
    if d == [] then None
    else if d[0].key == k then Some(d[0].value)
    else Lookup(d[1..], k)
  }

  function Delete<K(==), V>(d: Dict<K, V>, k: K): Dict<K, V> {
    if d == [] then []
    else if d[0].key == k then Delete(d[1..], k)
    else [d[0]] + Delete(d[1..], k)
  }

  /** Assignment keeps the position of a key that is already there. */
  function Put<K(==), V>(d: Dict<K, V>, k: K, v: V): Dict<K, V> {
    if d == [] then [Item(k, v)]
    else if d[0].key == k then [Item(k, v)] + d[1..]
    else [d[0]] + Put(d[1..], k, v)
  }

  function MoveToEnd<K(==), V>(d: Dict<K, V>, k: K): Dict<K, V> {
    match Lookup(d, k)
    case Some(v) => Delete(d, k) + [Item(k, v)]
    case None => d
  }

  ghost function Values<K, V>(d: Dict<K, V>): multiset<V> {
    if d == [] then multiset{} else multiset{d[0].value} + Values(d[1..])
  }

  lemma {:induction false} KeysLength<K, V>(d: Dict<K, V>)
    ensures |Keys(d)| == |d|
    ensures forall i :: 0 <= i < |d| ==> Keys(d)[i] == d[i].key
  {
    if d != [] { KeysLength(d[1..]); }
  }

  lemma {:induction false} KeysAppend<K, V>(a: Dict<K, V>, b: Dict<K, V>)
    ensures Keys(a + b) == Keys(a) + Keys(b)
  {
    if a == [] {
      assert a + b == b;
    } else {
      KeysAppend(a[1..], b);
      ConcatHead(a, b);
      Regroup([a[0].key], Keys(a[1..]), Keys(b));
    }
  }

  lemma {:induction false} LookupMember<K, V>(d: Dict<K, V>, k: K)
    ensures Lookup(d, k).Some? <==> k in Keys(d)
    ensures Lookup(d, k).Some? ==> Item(k, Lookup(d, k).value) in d
  {
    if d != [] {
      LookupMember(d[1..], k);
      assert d == [d[0]] + d[1..];
    }
  }

  lemma {:induction false} DeleteSpec<K, V>(d: Dict<K, V>, k: K, x: K)
    ensures Keys(Delete(d, k)) == Without(Keys(d), k)
    ensures Lookup(Delete(d, k), x) == if x == k then None else Lookup(d, x)
  {
    if d != [] {
      DeleteSpec(d[1..], k, x);
      assert Keys(d)[1..] == Keys(d[1..]);
      if d[0].key != k {
        assert ([d[0]] + Delete(d[1..], k))[1..] == Delete(d[1..], k);
      }
    }
  }

  lemma {:induction false} DeleteMembers<K, V>(d: Dict<K, V>, k: K)
    ensures forall e :: e in Delete(d, k) <==> e in d && e.key != k
  {
    if d != [] {
      DeleteMembers(d[1..], k);
      assert d == [d[0]] + d[1..];
    }
  }

  lemma {:induction false} LookupAppend<K, V>(a: Dict<K, V>, b: Dict<K, V>, k: K)
    ensures Lookup(a + b, k) == if Lookup(a, k).Some? then Lookup(a, k) else Lookup(b, k)
  {
    if a == [] {
      assert a + b == b;
    } else {
      LookupAppend(a[1..], b, k);
      assert (a + b)[1..] == a[1..] + b;
    }
  }

  lemma {:induction false} ValuesAppend<K, V>(d: Dict<K, V>, e: Item<K, V>)
    ensures Values(d + [e]) == Values(d) + multiset{e.value}
  {
    if d == [] {
      assert [e][1..] == [];
    } else {
      ValuesAppend(d[1..], e);
      var whole := d + [e];
      assert whole[0] == d[0] && whole[1..] == d[1..] + [e];
      UnionAssociates(multiset{d[0].value}, Values(d[1..]), multiset{e.value});
    }
  }

  lemma UnionAssociates<V>(a: multiset<V>, b: multiset<V>, c: multiset<V>)
    ensures a + (b + c) == (a + b) + c
  {
  }

  lemma {:induction false} ValuesMember<K, V>(d: Dict<K, V>, e: Item<K, V>)
    requires e in d
    ensures e.value in Values(d)
  {
    assert d == [d[0]] + d[1..];
    if e != d[0] { ValuesMember(d[1..], e); }
  }

  /** Deleting a key removes exactly its own value. */
  lemma {:induction false} ValuesDelete<K, V>(d: Dict<K, V>, k: K)
    requires Distinct(Keys(d))
    ensures Values(d) == Values(Delete(d, k)) +
                         (match Lookup(d, k) case Some(v) => multiset{v} case None => multiset{})
  {
    if d != [] {
      assert Keys(d)[1..] == Keys(d[1..]);
      ValuesDelete(d[1..], k);
      if d[0].key == k {
        LookupMember(d[1..], k);
      } else {
        assert ([d[0]] + Delete(d[1..], k))[1..] == Delete(d[1..], k);
      }
    }
  }

  /** Renewing a present key keeps every value and makes that key the newest. */
  lemma MoveToEndSpec<K, V>(d: Dict<K, V>, k: K)
    requires Distinct(Keys(d)) && k in Keys(d)
    ensures Keys(MoveToEnd(d, k)) == Without(Keys(d), k) + [k]
    ensures Values(MoveToEnd(d, k)) == Values(d)
    ensures forall e :: e in MoveToEnd(d, k) <==> e in d
  {
    LookupMember(d, k);
    var e := Item(k, Lookup(d, k).value);
    DeleteSpec(d, k, k);
    DeleteMembers(d, k);
    ValuesDelete(d, k);
    KeysAppend(Delete(d, k), [e]);
    ValuesAppend(Delete(d, k), e);
    assert Keys([e]) == [k];
    forall x | x in d && x.key == k ensures x == e { LookupUnique(d, x); }
  }

  lemma MoveToEndDistinct<K, V>(d: Dict<K, V>, k: K)
    requires Distinct(Keys(d)) && k in Keys(d)
    ensures Distinct(Keys(MoveToEnd(d, k))) && |MoveToEnd(d, k)| == |d|
  {
    MoveToEndSpec(d, k);
    WithoutDistinct(Keys(d), k);
    WithoutMembers(Keys(d), k);
    DistinctSnoc(Without(Keys(d), k), k);
    KeysLength(d);
    KeysLength(MoveToEnd(d, k));
  }

  lemma {:induction false} LookupUnique<K, V>(d: Dict<K, V>, e: Item<K, V>)
    requires Distinct(Keys(d)) && e in d
    ensures Lookup(d, e.key) == Some(e.value)
  {
    assert Keys(d)[1..] == Keys(d[1..]);
    assert d == [d[0]] + d[1..];
    if e != d[0] {
      LookupUnique(d[1..], e);
      LookupMember(d[1..], e.key);
    }
  }

  lemma {:induction false} PutAbsent<K, V>(d: Dict<K, V>, k: K, v: V)
    requires k !in Keys(d)
    ensures Put(d, k, v) == d + [Item(k, v)]
  {
    if d != [] {
      assert Keys(d) == [d[0].key] + Keys(d[1..]);
      PutAbsent(d[1..], k, v);
    }
  }

  lemma {:induction false} ValuesSize<K, V>(d: Dict<K, V>)
    ensures |Values(d)| == |d|
  {
    if d != [] { ValuesSize(d[1..]); }
  }

  lemma {:induction false} DeleteAbsent<K, V>(d: Dict<K, V>, k: K)
    requires k !in Keys(d)
    ensures Delete(d, k) == d
  {
    if d != [] {
      assert Keys(d) == [d[0].key] + Keys(d[1..]);
      DeleteAbsent(d[1..], k);
    }
  }

  lemma {:induction false} PutSpec<K, V>(d: Dict<K, V>, k: K, v: V, x: K)
    ensures Lookup(Put(d, k, v), x) == if x == k then Some(v) else Lookup(d, x)
    ensures Keys(Put(d, k, v)) == if k in Keys(d) then Keys(d) else Keys(d) + [k]
  {
    if d != [] {
      assert Keys(d) == [d[0].key] + Keys(d[1..]);
      if d[0].key == k {
        assert ([Item(k, v)] + d[1..])[1..] == d[1..];
      } else {
        PutSpec(d[1..], k, v, x);
        assert ([d[0]] + Put(d[1..], k, v))[1..] == Put(d[1..], k, v);
      }
    }
  }
}
