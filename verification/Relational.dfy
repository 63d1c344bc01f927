/**
  Bag (multiset) relational operators over rows held in sequences: restriction
  (WHERE / HAVING), projection (the SELECT list), duplicate elimination
  (DISTINCT) and grouping with a row count (GROUP BY ... COUNT). A sequence
  stands for a table; only its multiset of rows is meaningful unless an
  ORDER BY fixes the order.
 */
module Relational {

  /** No value occurs twice in `s`. */
  predicate Distinct<T(==)>(s: seq<T>) {
    forall i, j :: 0 <= i < j < |s| ==> s[i] != s[j]
  }

  /** Restriction: the rows of `s` that satisfy `p`, in their original order. */
  function Select<T(==,!new)>(p: T -> bool, s: seq<T>): (r: seq<T>)
    ensures |r| <= |s|
    ensures forall x :: x in r <==> x in s && p(x)
    ensures forall x :: multiset(r)[x] == if p(x) then multiset(s)[x] else 0
  {
    if s == [] then []
    else
      assert s == [s[0]] + s[1..];
      (if p(s[0]) then [s[0]] else []) + Select(p, s[1..])
  }

  /** Projection: the image of every row of `s` under `f`, one output row per input row. */
  function Project<T(==,!new), U(==,!new)>(f: T -> U, s: seq<T>): (r: seq<U>)
    ensures |r| == |s|
    ensures forall i :: 0 <= i < |s| ==> r[i] == f(s[i])
    ensures forall y :: y in r <==> exists x :: x in s && f(x) == y
  {
    if s == [] then [] else [f(s[0])] + Project(f, s[1..])
  }

  /** Duplicate elimination: every value of `s` exactly once. */
  function Dedup<T(==,!new)>(s: seq<T>): (r: seq<T>)
    ensures Distinct(r)
    ensures forall x :: x in r <==> x in s
  {
    if s == [] then []
    else
      var rest := Dedup(s[1..]);
      if s[0] in rest then rest else [s[0]] + rest
  }

  /** The grouping key of a (key, count) group. */
  function GroupKey<K>(g: (K, nat)): K {
    g.0
  }

  /**
    Grouping with COUNT(*): one group per distinct value of `keys`, paired
    with the number of rows carrying that value.
   */
  function GroupCount<K(==,!new)>(keys: seq<K>): (groups: seq<(K, nat)>)
    ensures Distinct(groups)
    ensures forall i, j :: 0 <= i < j < |groups| ==> groups[i].0 != groups[j].0
    ensures forall k, n :: (k, n) in groups <==> k in keys && n == multiset(keys)[k]
  {
    var d := Dedup(keys);
    var groups := seq(|d|, i requires 0 <= i < |d| => (d[i], multiset(keys)[d[i]]));
    assert forall k :: k in d ==> (k, multiset(keys)[k]) in groups by {
      forall k | k in d
        ensures (k, multiset(keys)[k]) in groups
      {
        var i :| 0 <= i < |d| && d[i] == k;
        assert groups[i] == (k, multiset(keys)[k]);
      }
    }
    groups
  }

  lemma {:induction false} SelectAppend<T(!new)>(p: T -> bool, a: seq<T>, b: seq<T>)
    ensures Select(p, a + b) == Select(p, a) + Select(p, b)
  {
    if a == [] {
      assert a + b == b;
    } else {
      assert (a + b)[1..] == a[1..] + b;
      SelectAppend(p, a[1..], b);
    }
  }

  lemma ProjectAppend<T(!new), U(!new)>(f: T -> U, a: seq<T>, b: seq<T>)
    ensures Project(f, a + b) == Project(f, a) + Project(f, b)
  {
    assert forall i :: 0 <= i < |a + b| ==> Project(f, a + b)[i] == (Project(f, a) + Project(f, b))[i];
  }

  /** Restriction followed by projection counts the rows of a concatenation part by part. */
  lemma SelectProjectAppendCount<T(!new), U(!new)>(p: T -> bool, f: T -> U, a: seq<T>, b: seq<T>, y: U)
    ensures multiset(Project(f, Select(p, a + b)))[y]
         == multiset(Project(f, Select(p, a)))[y] + multiset(Project(f, Select(p, b)))[y]
  {
    SelectAppend(p, a, b);
    ProjectAppend(f, Select(p, a), Select(p, b));
  }

  /** Restricting by a stronger condition keeps a sub-bag of the projected rows. */
  lemma {:induction false} SelectProjectSubBag<T(!new), U(!new)>(p: T -> bool, q: T -> bool, f: T -> U, s: seq<T>)
    requires forall x :: p(x) ==> q(x)
    ensures multiset(Project(f, Select(p, s))) <= multiset(Project(f, Select(q, s)))
  {
    if s != [] {
      assert s == [s[0]] + s[1..];
      SelectAppend(p, [s[0]], s[1..]);
      SelectAppend(q, [s[0]], s[1..]);
      ProjectAppend(f, Select(p, [s[0]]), Select(p, s[1..]));
      ProjectAppend(f, Select(q, [s[0]]), Select(q, s[1..]));
      SelectProjectSubBag(p, q, f, s[1..]);
    }
  }

  /** A sequence is distinct exactly when every value occurs at most once in its multiset. */
  lemma {:induction false} DistinctAsMultiset<T>(s: seq<T>)
    ensures Distinct(s) <==> forall x :: multiset(s)[x] <= 1
  {
    if s != [] {
      assert s == [s[0]] + s[1..];
      DistinctAsMultiset(s[1..]);
      if Distinct(s) {
        assert s[0] !in s[1..];
      } else {
        var i, j :| 0 <= i < j < |s| && s[i] == s[j];
        if i == 0 {
          assert s[j] == s[1..][j - 1];
          assert multiset(s)[s[0]] >= 2;
        } else {
          assert s[1..][i - 1] == s[1..][j - 1];
          assert !Distinct(s[1..]);
          var x :| multiset(s[1..])[x] > 1;
          assert multiset(s)[x] > 1;
        }
      }
    }
  }

  /** Restriction preserves distinctness. */
  lemma SelectDistinct<T(!new)>(p: T -> bool, s: seq<T>)
    requires Distinct(s)
    ensures Distinct(Select(p, s))
  {
    DistinctAsMultiset(s);
    DistinctAsMultiset(Select(p, s));
  }

  /**
    When the rows of `s` are distinct and no two of them share a grouping
    key, the keys themselves are distinct.
   */
  lemma KeysDistinct<K(!new)>(s: seq<(K, nat)>)
    requires Distinct(s)
    requires forall g, h :: g in s && h in s && g.0 == h.0 ==> g == h
    ensures Distinct(Project(GroupKey, s))
  {
  }
}
