/** Orders of last use: what a least-recently-used cache must contain. */
module Recency {
  import opened Text

  /** The distinct keys of a trace, ordered by their last use. */
  function LastUses<K(==)>(trace: seq<K>): seq<K> {
    if trace == [] then []
    else if trace[0] in trace[1..] then LastUses(trace[1..])
    else [trace[0]] + LastUses(trace[1..])
  }

  function LastN<K>(s: seq<K>, n: nat): seq<K> {
    if |s| <= n then s else s[|s| - n..]
  }

  function Without<K(==)>(s: seq<K>, k: K): seq<K> {
    if s == [] then []
    else if s[0] == k then Without(s[1..], k)
    else [s[0]] + Without(s[1..], k)
  }

  ghost predicate Distinct<K>(s: seq<K>) {
    s == [] || (s[0] !in s[1..] && Distinct(s[1..]))
  }

  lemma {:induction false} WithoutMembers<K>(s: seq<K>, k: K)
    ensures forall x :: x in Without(s, k) <==> x in s && x != k
    ensures k !in s ==> Without(s, k) == s
  {
    if s != [] {
      WithoutMembers(s[1..], k);
      assert s == [s[0]] + s[1..];
    }
  }

  lemma {:induction false} DistinctSplit<K>(a: seq<K>, b: seq<K>)
    requires Distinct(a + b)
    ensures Distinct(b)
    ensures forall x :: x in a ==> x !in b
  {
    if a == [] {
      assert a + b == b;
    } else {
      assert (a + b)[1..] == a[1..] + b;
      DistinctSplit(a[1..], b);
      assert a == [a[0]] + a[1..];
    }
  }

  lemma {:induction false} DistinctSnoc<K>(s: seq<K>, k: K)
    requires Distinct(s) && k !in s
    ensures Distinct(s + [k])
  {
    if s != [] {
      assert (s + [k])[1..] == s[1..] + [k];
      assert s == [s[0]] + s[1..];
      DistinctSnoc(s[1..], k);
    }
  }

  lemma {:induction false} WithoutDistinct<K>(s: seq<K>, k: K)
    requires Distinct(s)
    ensures Distinct(Without(s, k))
    ensures |Without(s, k)| == if k in s then |s| - 1 else |s|
  {
    if s != [] {
      WithoutDistinct(s[1..], k);
      WithoutMembers(s[1..], k);
      assert s == [s[0]] + s[1..];
      if s[0] != k { assert Without(s, k)[1..] == Without(s[1..], k); }
    }
  }

  lemma {:induction false} WithoutAppend<K>(a: seq<K>, b: seq<K>, k: K)
    ensures Without(a + b, k) == Without(a, k) + Without(b, k)
  {
    if a == [] {
      assert a + b == b;
    } else {
      WithoutAppend(a[1..], b, k);
      ConcatHead(a, b);
      Regroup([a[0]], Without(a[1..], k), Without(b, k));
    }
  }

  lemma {:induction false} LastUsesMembers<K>(trace: seq<K>)
    ensures forall k :: k in LastUses(trace) <==> k in trace
    ensures Distinct(LastUses(trace))
  {
    if trace != [] {
      LastUsesMembers(trace[1..]);
      assert trace == [trace[0]] + trace[1..];
    }
  }

  /** One more use moves its key to the end of the order. */
  lemma {:induction false} LastUsesExtend<K>(trace: seq<K>, k: K)
    ensures LastUses(trace + [k]) == Without(LastUses(trace), k) + [k]
  {
    if trace == [] {
      assert trace + [k] == [k];
    } else {
      var rest := trace[1..];
      LastUsesExtend(rest, k);
      assert (trace + [k])[1..] == rest + [k];
      if trace[0] !in rest {
        WithoutAppend([trace[0]], LastUses(rest), k);
        assert Without([trace[0]], k) == if trace[0] == k then [] else [trace[0]];
      }
    }
  }

  lemma LastNOfTail<K>(a: seq<K>, b: seq<K>, n: nat)
    requires |b| >= n || a == []
    ensures LastN(a + b, n) == LastN(b, n)
  {
    if a == [] { assert a + b == b; }
  }

  lemma UseKept<K>(dropped: seq<K>, window: seq<K>, k: K, n: nat)
    requires Distinct(dropped + window) && k in window
    requires |window| == n || (dropped == [] && |window| < n)
    ensures LastN(Without(dropped + window, k) + [k], n) == Without(window, k) + [k]
  {
    DistinctSplit(dropped, window);
    WithoutAppend(dropped, window, k);
    WithoutMembers(dropped, k);
    WithoutDistinct(window, k);
    var moved := Without(window, k) + [k];
    LastNOfTail(dropped, moved, n);
    assert (dropped + Without(window, k)) + [k] == dropped + moved;
  }

  lemma UseDropped<K>(dropped: seq<K>, window: seq<K>, k: K, n: nat)
    requires k !in window && |window| <= n
    requires |window| == n || dropped == []
    ensures LastN(Without(dropped + window, k) + [k], n) == LastN(window + [k], n)
  {
    WithoutAppend(dropped, window, k);
    WithoutMembers(window, k);
    var rest := Without(dropped, k);
    LastNOfTail(rest, window + [k], n);
    assert (rest + window) + [k] == rest + (window + [k]);
  }

  /** Keeping the newest n commutes with one more use of a key, whether or not it is still kept. */
  lemma WindowStep<K>(order: seq<K>, k: K, n: nat)
    requires Distinct(order)
    ensures var window := LastN(order, n);
            LastN(Without(order, k) + [k], n) ==
            if k in window then Without(window, k) + [k] else LastN(window + [k], n)
  {
    var window := LastN(order, n);
    var dropped := if |order| <= n then [] else order[..|order| - n];
    LastNSplits(order, n);
    if k in window {
      UseKept(dropped, window, k, n);
    } else {
      UseDropped(dropped, window, k, n);
    }
  }

  lemma LastNSplits<K>(s: seq<K>, n: nat)
    ensures s == (if |s| <= n then [] else s[..|s| - n]) + LastN(s, n)
  {
  }
}
