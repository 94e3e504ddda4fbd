/**
 * A database table seen as the sequence of its rows in insertion order, with the
 * lookups, filters and counts the services ask the database for.
 */
module Table {
  import opened Wrappers

  /** No two rows share a key: the table's unique constraint. */
  ghost predicate UniqueBy<T, K>(s: seq<T>, key: T -> K) {
    forall i, j :: 0 <= i < j < |s| ==> key(s[i]) != key(s[j])
  }

  /** The position of a row with key `k`, if there is one. */
  function IndexOf<T, K(==)>(s: seq<T>, key: T -> K, k: K): (r: Option<nat>)
    ensures r.Some? ==> r.value < |s| && key(s[r.value]) == k
    ensures r.None? <==> forall i :: 0 <= i < |s| ==> key(s[i]) != k
  {
    if |s| == 0 then None
    else if key(s[|s| - 1]) == k then Some(|s| - 1)
    else IndexOf(s[..|s| - 1], key, k)
  }

  /** Under the unique constraint a row is found exactly where it is. */
  lemma IndexOfUnique<T, K>(s: seq<T>, key: T -> K, i: nat)
    requires UniqueBy(s, key) && i < |s|
    ensures IndexOf(s, key, key(s[i])) == Some(i)
  {
  }

  /** Rewriting a row in place, keeping its key, moves no lookup. */
  lemma {:induction false} IndexOfAfterReplace<T, K>(s: seq<T>, key: T -> K, i: nat, x: T, k: K)
    requires i < |s| && key(x) == key(s[i])
    ensures IndexOf(s[i := x], key, k) == IndexOf(s, key, k)
  {
    if |s| > 0 && i < |s| - 1 {
      assert s[i := x][..|s| - 1] == s[..|s| - 1][i := x];
      IndexOfAfterReplace(s[..|s| - 1], key, i, x, k);
    } else if |s| > 0 {
      assert s[i := x][..|s| - 1] == s[..|s| - 1];
    }
  }

  lemma ReplaceKeepsUnique<T, K>(s: seq<T>, key: T -> K, i: nat, x: T)
    requires UniqueBy(s, key) && i < |s| && key(x) == key(s[i])
    ensures UniqueBy(s[i := x], key)
  {
  }

  /** Appending a row makes it the one found under its key and moves no other lookup. */
  lemma IndexOfAfterAppend<T, K>(s: seq<T>, key: T -> K, x: T, k: K)
    ensures IndexOf(s + [x], key, k) == if key(x) == k then Some(|s|) else IndexOf(s, key, k)
  {
    assert (s + [x])[..|s|] == s;
  }

  lemma AppendKeepsUnique<T, K>(s: seq<T>, key: T -> K, x: T)
    requires UniqueBy(s, key) && IndexOf(s, key, key(x)).None?
    ensures UniqueBy(s + [x], key)
  {
  }

  /** The number of rows a where-clause selects: what a COUNT query returns. */
  function Count<T>(s: seq<T>, p: T -> bool): nat {
    if s == [] then 0 else (if p(s[0]) then 1 else 0) + Count(s[1..], p)
  }

  /** The rows a where-clause selects, in table order. */
  function Filter<T(!new)>(s: seq<T>, p: T -> bool): (r: seq<T>)
    ensures |r| == Count(s, p)
    ensures forall x :: x in r <==> x in s && p(x)
    ensures forall x :: multiset(r)[x] == if p(x) then multiset(s)[x] else 0
  {
    if s == [] then []
    else
      assert s == [s[0]] + s[1..];
      (if p(s[0]) then [s[0]] else []) + Filter(s[1..], p)
  }

  /** Applies `f` to every row, as `entries.map(...)` does. */
  function Map<T, U>(s: seq<T>, f: T -> U): (r: seq<U>)
    ensures |r| == |s|
    ensures forall i :: 0 <= i < |s| ==> r[i] == f(s[i])
  {
    if s == [] then [] else [f(s[0])] + Map(s[1..], f)
  }

  /** Under the unique constraint every row of the table occurs in it once. */
  lemma {:induction false} UniqueOccursOnce<T, K>(s: seq<T>, key: T -> K, x: T)
    requires UniqueBy(s, key) && x in s
    ensures multiset(s)[x] == 1
  {
    assert s == [s[0]] + s[1..];
    if s[0] == x {
      assert x !in s[1..];
    } else {
      UniqueOccursOnce(s[1..], key, x);
    }
  }
}
