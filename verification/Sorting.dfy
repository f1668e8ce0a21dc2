/** Stable descending sort, and the proof that order and stability alone determine its result. */
module Sorting {

  /** A strict weak order: what a sort key induces. */
  ghost predicate StrictWeak<T(!new)>(above: (T, T) -> bool) {
    && (forall a, b :: above(a, b) ==> !above(b, a))
    && (forall a, b, c :: above(a, c) ==> above(a, b) || above(b, c))
  }

  function Insert<T>(x: T, s: seq<T>, above: (T, T) -> bool): seq<T> {
    if s == [] then [x]
    else if above(s[0], x) then [s[0]] + Insert(x, s[1..], above)
    else [x] + s
  }

  function SortDescending<T>(s: seq<T>, above: (T, T) -> bool): seq<T> {
    if s == [] then [] else Insert(s[0], SortDescending(s[1..], above), above)
  }

  ghost predicate Descending<T>(s: seq<T>, above: (T, T) -> bool) {
    s == [] || ((forall y :: y in s[1..] ==> !above(y, s[0])) && Descending(s[1..], above))
  }

  predicate Tied<T>(x: T, y: T, above: (T, T) -> bool) { !above(x, y) && !above(y, x) }

  /** The elements that tie with x, in their order. */
  ghost function Ties<T>(s: seq<T>, x: T, above: (T, T) -> bool): seq<T> {
    if s == [] then []
    else if Tied(s[0], x, above) then [s[0]] + Ties(s[1..], x, above)
    else Ties(s[1..], x, above)
  }

  lemma {:induction false} InsertMembers<T>(x: T, s: seq<T>, above: (T, T) -> bool)
    ensures multiset(Insert(x, s, above)) == multiset([x]) + multiset(s)
    ensures forall y :: y in Insert(x, s, above) <==> y == x || y in s
  {
    if s != [] {
      InsertMembers(x, s[1..], above);
      assert s == [s[0]] + s[1..];
    }
  }

  lemma {:induction false} InsertDescending<T(!new)>(x: T, s: seq<T>, above: (T, T) -> bool)
    requires StrictWeak(above) && Descending(s, above)
    ensures Descending(Insert(x, s, above), above)
  {
    if s != [] {
      if above(s[0], x) {
        InsertDescending(x, s[1..], above);
        InsertMembers(x, s[1..], above);
      } else {
        forall y | y in s ensures !above(y, x) {
          if y != s[0] { assert s == [s[0]] + s[1..]; }
        }
      }
    }
  }

  lemma {:induction false} InsertTies<T(!new)>(x: T, s: seq<T>, above: (T, T) -> bool, z: T)
    requires StrictWeak(above)
    ensures Ties(Insert(x, s, above), z, above) == Ties([x] + s, z, above)
  {
    if s != [] && above(s[0], x) {
      var rest := Insert(x, s[1..], above);
      InsertTies(x, s[1..], above, z);
      assert ([s[0]] + rest)[1..] == rest;
      assert ([x] + s)[1..] == s && ([x] + s[1..])[1..] == s[1..];
      assert !(Tied(s[0], z, above) && Tied(x, z, above));
    }
  }

  /** The sorted list holds the same elements, highest first, with ties in their original order. */
  lemma {:induction false} SortSpec<T(!new)>(s: seq<T>, above: (T, T) -> bool)
    requires StrictWeak(above)
    ensures multiset(SortDescending(s, above)) == multiset(s)
    ensures Descending(SortDescending(s, above), above)
    ensures forall z :: Ties(SortDescending(s, above), z, above) == Ties(s, z, above)
  {
    if s != [] {
      var rest := SortDescending(s[1..], above);
      SortSpec(s[1..], above);
      InsertMembers(s[0], rest, above);
      InsertDescending(s[0], rest, above);
      assert s == [s[0]] + s[1..];
      forall z ensures Ties(SortDescending(s, above), z, above) == Ties(s, z, above) {
        InsertTies(s[0], rest, above, z);
        assert ([s[0]] + rest)[1..] == rest;
      }
    }
  }

  lemma {:induction false} TiesMember<T(!new)>(s: seq<T>, x: T, above: (T, T) -> bool)
    requires StrictWeak(above)
    ensures forall y :: y in Ties(s, x, above) <==> y in s && Tied(y, x, above)
  {
    if s != [] {
      TiesMember(s[1..], x, above);
      assert s == [s[0]] + s[1..];
    }
  }

  /** Two descending lists with the same ties are equal, so any stable descending sort gives SortDescending. */
  lemma {:induction false} StableSortUnique<T(!new)>(s: seq<T>, t: seq<T>, above: (T, T) -> bool)
    requires StrictWeak(above) && Descending(s, above) && Descending(t, above)
    requires forall z :: Ties(s, z, above) == Ties(t, z, above)
    ensures s == t
  {
    EmptyTogether(s, t, above);
    EmptyTogether(t, s, above);
    if s != [] && t != [] {
      HeadsTie(s, t, above);
      assert Ties(s, s[0], above)[0] == s[0] && Ties(t, s[0], above)[0] == t[0];
      forall z ensures Ties(s[1..], z, above) == Ties(t[1..], z, above) {
        assert Ties(s, z, above) == Ties(t, z, above);
        if Tied(s[0], z, above) {
          assert Ties(s, z, above)[1..] == Ties(s[1..], z, above);
          assert Ties(t, z, above)[1..] == Ties(t[1..], z, above);
        }
      }
      StableSortUnique(s[1..], t[1..], above);
      assert s == [s[0]] + s[1..] && t == [t[0]] + t[1..];
    }
  }

  lemma EmptyTogether<T(!new)>(s: seq<T>, t: seq<T>, above: (T, T) -> bool)
    requires StrictWeak(above) && forall z :: Ties(s, z, above) == Ties(t, z, above)
    ensures s != [] ==> s[0] in t
  {
    if s != [] {
      TiesMember(s, s[0], above);
      TiesMember(t, s[0], above);
      assert s[0] in Ties(t, s[0], above);
    }
  }

  lemma HeadsTie<T(!new)>(s: seq<T>, t: seq<T>, above: (T, T) -> bool)
    requires StrictWeak(above) && Descending(s, above) && Descending(t, above) && s != [] && t != []
    requires forall z :: Ties(s, z, above) == Ties(t, z, above)
    ensures Tied(s[0], t[0], above)
  {
    TiesMember(s, s[0], above);
    TiesMember(t, s[0], above);
    TiesMember(s, t[0], above);
    TiesMember(t, t[0], above);
    assert s[0] in Ties(t, s[0], above) && t[0] in Ties(s, t[0], above);
    assert s == [s[0]] + s[1..] && t == [t[0]] + t[1..];
  }

  /** Nothing in the tail of a descending list ranks above anything in its front. */
  lemma {:induction false} DescendingSplit<T>(a: seq<T>, b: seq<T>, above: (T, T) -> bool)
    requires Descending(a + b, above)
    ensures forall x, y :: x in a && y in b ==> !above(y, x)
  {
    if a != [] {
      assert (a + b)[1..] == a[1..] + b && (a + b)[0] == a[0];
      DescendingSplit(a[1..], b, above);
      assert a == [a[0]] + a[1..];
    }
  }

  ghost predicate SameTies<T(!new)>(s: seq<T>, t: seq<T>, above: (T, T) -> bool) {
    forall z :: Ties(s, z, above) == Ties(t, z, above)
  }

  /** Being descending and keeping ties in order says exactly which list a stable sort gives. */
  lemma SortExactlyWhen<T(!new)>(s: seq<T>, t: seq<T>, above: (T, T) -> bool)
    requires StrictWeak(above)
    ensures t == SortDescending(s, above) <==> Descending(t, above) && SameTies(t, s, above)
  {
    SortSpec(s, above);
    if Descending(t, above) && SameTies(t, s, above) { StableSortUnique(t, SortDescending(s, above), above); }
  }
}
