/** The few query shapes the endpoints ask of the record store: filter, order by a key, one_or_none. */
module Query {

  /** `query.filter(keep).all()`: the rows that pass, in store order, each as often as it occurs. */
  function Filter<T(==, !new)>(s: seq<T>, keep: T -> bool): (r: seq<T>)
    ensures |r| <= |s|
    ensures forall i :: 0 <= i < |r| ==> keep(r[i])
    ensures forall x :: multiset(r)[x] == if keep(x) then multiset(s)[x] else 0
    ensures forall x :: x in r <==> x in s && keep(x)
  {
    if s == [] then []
    else
      assert s == [s[0]] + s[1..];
      var rest := Filter(s[1..], keep);
      if keep(s[0]) then [s[0]] + rest else rest
  }

  /** Filtering only looks at the predicate's values. */
  lemma {:induction false} FilterCongruence<T(!new)>(s: seq<T>, f: T -> bool, g: T -> bool)
    requires forall x :: f(x) == g(x)
    ensures Filter(s, f) == Filter(s, g)
  {
    if s != [] {
      FilterCongruence(s[1..], f, g);
    }
  }

  /** When exactly one row passes, the filter returns that row alone. */
  lemma {:induction false} FilterSingleton<T(!new)>(s: seq<T>, keep: T -> bool, i: int)
    requires 0 <= i < |s| && keep(s[i])
    requires forall j :: 0 <= j < |s| && keep(s[j]) ==> j == i
    ensures Filter(s, keep) == [s[i]]
  {
    assert s == [s[0]] + s[1..];
    var tail := s[1..];
    if i == 0 {
      forall x | keep(x)
        ensures x !in tail
      {
        forall j | 0 <= j < |tail|
          ensures tail[j] != x
        {
          assert tail[j] == s[j + 1];
        }
      }
      assert multiset(Filter(tail, keep)) == multiset{};
    } else {
      forall j | 0 <= j < |tail| && keep(tail[j])
        ensures j == i - 1
      {
        assert tail[j] == s[j + 1];
      }
      FilterSingleton(tail, keep, i - 1);
    }
  }

  ghost predicate SortedBy<T>(s: seq<T>, key: T -> int)
  {
    forall i, j :: 0 <= i < j < |s| ==> key(s[i]) <= key(s[j])
  }

  /** Places `x` before the first element whose key is not smaller. */
  function InsertBy<T(==)>(x: T, s: seq<T>, key: T -> int): (r: seq<T>)
    requires SortedBy(s, key)
    ensures SortedBy(r, key)
    ensures multiset(r) == multiset(s) + multiset{x}
  {
    if s == [] || key(x) <= key(s[0]) then [x] + s
    else
      assert s == [s[0]] + s[1..];
      var rest := InsertBy(x, s[1..], key);
      assert forall y :: y in rest ==> key(s[0]) <= key(y) by {
        forall y | y in rest
          ensures key(s[0]) <= key(y)
        {
          assert y in multiset(rest);
          if y != x {
            assert y in multiset(s[1..]);
            var k :| 0 <= k < |s[1..]| && s[1..][k] == y;
            assert s[k + 1] == y;
          }
        }
      }
      [s[0]] + rest
  }

  /** `query.order_by(key).all()`: the same rows, ascending by key. */
  function SortBy<T(==)>(s: seq<T>, key: T -> int): (r: seq<T>)
    ensures SortedBy(r, key)
    ensures multiset(r) == multiset(s)
  {
    if s == [] then []
    else
      assert s == [s[0]] + s[1..];
      InsertBy(s[0], SortBy(s[1..], key), key)
  }

  /** What `one_or_none()` makes of the matching rows; `ManyRows` is the case where it raises. */
  datatype Lookup<T> = NoRow | OneRow(row: T) | ManyRows

  function OneOrNone<T>(rows: seq<T>): (r: Lookup<T>)
    ensures r.NoRow? <==> rows == []
    ensures r.OneRow? <==> |rows| == 1
    ensures r.OneRow? ==> r.row == rows[0]
  {
    if rows == [] then NoRow else if |rows| == 1 then OneRow(rows[0]) else ManyRows
  }
}
