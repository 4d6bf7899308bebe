/** The two reads the handlers make of a table held as a sequence of rows in
    insertion order: the first row meeting an equality filter
    (`query.filter_by(...).first()`) and all of them (`.all()`). The queries
    have no `order_by`, so table order is the model's choice of row order. */
module Lookup {
  import opened Schema

  /** The position of the first row that meets `f`, if any. */
  function FirstIndex<T>(rows: seq<T>, f: T -> bool): (r: Option<nat>)
    ensures r.Some? ==> r.value < |rows| && f(rows[r.value])
    ensures r.Some? ==> forall j :: 0 <= j < r.value ==> !f(rows[j])
    ensures r.None? ==> forall j :: 0 <= j < |rows| ==> !f(rows[j])
  {
    if rows == [] then None
    else if f(rows[0]) then Some(0)
    else
      match FirstIndex(rows[1..], f)
      case None => None
      case Some(k) => Some(k + 1)
  }

  /** The first row that meets `f`; none exactly when no row does. */
  function First<T>(rows: seq<T>, f: T -> bool): (r: Option<T>)
    ensures r.Some? ==> r.value in rows && f(r.value)
    ensures r.None? <==> forall x :: x in rows ==> !f(x)
  {
    match FirstIndex(rows, f)
    case None => None
    case Some(i) => Some(rows[i])
  }

  /** Every row that meets `f`, in table order: each such row as often as the
      table holds it, and no other. */
  function Filter<T(!new)>(rows: seq<T>, f: T -> bool): (r: seq<T>)
    ensures forall x :: multiset(r)[x] == if f(x) then multiset(rows)[x] else 0
    ensures forall x :: x in r <==> x in rows && f(x)
  {
    if rows == [] then []
    else
      assert rows == [rows[0]] + rows[1..];
      (if f(rows[0]) then [rows[0]] else []) + Filter(rows[1..], f)
  }

  /** No row occurs twice. */
  predicate Distinct<T(==)>(s: seq<T>)
  {
    forall i, j :: 0 <= i < j < |s| ==> s[i] != s[j]
  }

  /** A sequence is free of repeats exactly when its multiset counts every
      element at most once. */
  lemma {:induction false} DistinctIffSingleCounts<T>(s: seq<T>)
    ensures Distinct(s) <==> forall x :: multiset(s)[x] <= 1
  {
    if s == [] {
    } else {
      assert s == [s[0]] + s[1..];
      DistinctIffSingleCounts(s[1..]);
      if Distinct(s) {
        assert s[0] !in s[1..];
      } else {
        var i, j :| 0 <= i < j < |s| && s[i] == s[j];
        assert s == s[..j] + s[j..];
        assert s[i] == s[..j][i] && s[j] == s[j..][0];
        assert multiset(s)[s[i]] == multiset(s[..j])[s[i]] + multiset(s[j..])[s[i]];
      }
    }
  }
}
