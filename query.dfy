/**
 * The parts of a list query the services build: a where-clause of column conditions,
 * ORDER BY on one column, and offset pagination (skip `offset`, take `limit`).
 */
module Query {

  /** What a column holds, as far as an equality condition can see. */
  datatype FieldValue = Null | Text(text: string) | Time(time: int)

  /** A conjunction of `column = value` conditions, one per column, as an object literal has one value per key. */
  type Where<C> = map<C, FieldValue>

  /**
   * `{ ...filters, deletedAt: null }`: the spread keeps the caller's conditions and the
   * later key overrides whatever the caller said about `deletedAt`.
   */
  function ActiveOnly<C>(filters: Where<C>, deletedAt: C): (w: Where<C>)
    ensures w.Keys == filters.Keys + {deletedAt}
    ensures w[deletedAt] == Null
    ensures forall c :: c in filters && c != deletedAt ==> w[c] == filters[c]
  {
    filters[deletedAt := Null]
  }

  datatype Order = Asc | Desc

  /** The page request: `take`, `skip` and the sort direction. */
  datatype PageOptions = PageOptions(limit: nat, offset: nat, order: Order)

  /** A page of entries with the total the count query reported. */
  datatype Page<T> = Page(entries: seq<T>, total: nat, options: PageOptions)

  /** `a` may come before `b` when sorting on an integer column in direction `order`. */
  predicate InOrder(order: Order, a: int, b: int) {
    match order
    case Asc => a <= b
    case Desc => a >= b
  }

  ghost predicate TotalPreorder<T(!new)>(le: (T, T) -> bool) {
    && (forall a, b :: le(a, b) || le(b, a))
    && (forall a, b, c :: le(a, b) && le(b, c) ==> le(a, c))
  }

  predicate Sorted<T>(s: seq<T>, le: (T, T) -> bool) {
    forall i, j :: 0 <= i < j < |s| ==> le(s[i], s[j])
  }

  /** In a sorted sequence the head may precede everything after it. */
  lemma HeadPrecedes<T>(s: seq<T>, le: (T, T) -> bool, y: T)
    requires Sorted(s, le) && |s| > 0 && y in s[1..]
    ensures le(s[0], y)
  {
    var k :| 0 <= k < |s[1..]| && s[1..][k] == y;
    assert s[k + 1] == y;
  }

  /** Puts `x` before the first element it may precede. */
  function Insert<T(!new)>(x: T, s: seq<T>, le: (T, T) -> bool): (r: seq<T>)
    requires TotalPreorder(le) && Sorted(s, le)
    ensures Sorted(r, le)
    ensures multiset(r) == multiset(s) + multiset{x}
    ensures forall y :: y in r ==> y == x || y in s
  {
    if s == [] || le(x, s[0]) then
      [x] + s
    else
      var rest := Insert(x, s[1..], le);
      assert s == [s[0]] + s[1..];
      assert forall y :: y in rest ==> le(s[0], y) by {
        forall y | y in rest
          ensures le(s[0], y)
        {
          if y != x {
            HeadPrecedes(s, le, y);
          }
        }
      }
      [s[0]] + rest
  }

  /** ORDER BY: a sorted permutation of the rows. Ties keep table order. */
  function SortBy<T(!new)>(s: seq<T>, le: (T, T) -> bool): (r: seq<T>)
    requires TotalPreorder(le)
    ensures Sorted(r, le)
    ensures multiset(r) == multiset(s)
    ensures |r| == |s|
  {
    if s == [] then []
    else
      assert s == [s[0]] + s[1..];
      Insert(s[0], SortBy(s[1..], le), le)
  }

  /** Removing the head removes one occurrence of it. */
  lemma MultisetTail<T>(s: seq<T>)
    requires s != []
    ensures multiset(s[1..]) == multiset(s) - multiset{s[0]}
  {
    assert s == [s[0]] + s[1..];
  }

  /** Two sorted permutations start with the same element when `le` has no ties between distinct elements. */
  lemma SortedHeadsAgree<T>(a: seq<T>, b: seq<T>, le: (T, T) -> bool)
    requires Sorted(a, le) && Sorted(b, le) && multiset(a) == multiset(b) && a != []
    requires forall x, y :: x in a && y in a && le(x, y) && le(y, x) ==> x == y
    ensures b != [] && a[0] == b[0]
  {
    assert a[0] in multiset(b);
    var i :| 0 <= i < |b| && b[i] == a[0];
    assert b[0] in multiset(a);
    var k :| 0 <= k < |a| && a[k] == b[0];
    if i != 0 && k != 0 {
      assert le(b[0], b[i]) && le(a[0], a[k]);
    }
  }

  /**
   * When `le` relates two distinct elements of `a` in one direction only, `a` has one
   * sorted arrangement: any two sorted permutations of it are equal.
   */
  lemma {:induction false} SortedPermutationUnique<T>(a: seq<T>, b: seq<T>, le: (T, T) -> bool)
    requires Sorted(a, le) && Sorted(b, le) && multiset(a) == multiset(b)
    requires forall x, y :: x in a && y in a && le(x, y) && le(y, x) ==> x == y
    ensures a == b
  {
    if a == [] {
      assert |b| == |multiset(b)| == 0;
    } else {
      SortedHeadsAgree(a, b, le);
      MultisetTail(a);
      MultisetTail(b);
      SortedPermutationUnique(a[1..], b[1..], le);
      assert a == [a[0]] + a[1..] && b == [b[0]] + b[1..];
    }
  }

  function Min(a: int, b: int): int {
    if a <= b then a else b
  }

  /** SKIP `offset` TAKE `limit`. */
  function PageSlice<T>(s: seq<T>, offset: nat, limit: nat): (r: seq<T>)
    ensures |r| <= limit
    ensures |r| == if offset <= |s| then Min(limit, |s| - offset) else 0
    ensures forall i :: 0 <= i < |r| ==> offset + i < |s| && r[i] == s[offset + i]
  {
    if offset >= |s| then [] else s[offset..Min(offset + limit, |s|)]
  }

  /** The first `count` pages of `size` entries each, one after another. */
  function Paginate<T>(s: seq<T>, size: nat, count: nat): seq<T> {
    if count == 0 then [] else Paginate(s, size, count - 1) + PageSlice(s, (count - 1) * size, size)
  }

  /**
   * Pages cut from separate queries: page `p` is cut at offset `p * size` from `results[p]`,
   * the order that page's own query saw.
   */
  function PaginateEach<T>(results: seq<seq<T>>, size: nat): seq<T> {
    if results == [] then []
    else
      var last := |results| - 1;
      PaginateEach(results[..last], size) + PageSlice(results[last], last * size, size)
  }

  /** When every query saw the same order, pages of separate queries are pages of one listing. */
  lemma {:induction false} PaginateEachOfOneOrder<T>(results: seq<seq<T>>, s: seq<T>, size: nat)
    requires forall p :: 0 <= p < |results| ==> results[p] == s
    ensures PaginateEach(results, size) == Paginate(s, size, |results|)
  {
    if results != [] {
      var last := |results| - 1;
      var init := results[..last];
      assert forall p :: 0 <= p < |init| ==> init[p] == results[p];
      PaginateEachOfOneOrder(init, s, size);
      assert results[last] == s;
    }
  }

  /** Consecutive pages neither overlap nor leave gaps. */
  lemma {:induction false} PaginateCovers<T>(s: seq<T>, size: nat, count: nat)
    ensures Paginate(s, size, count) == s[..Min(count * size, |s|)]
  {
    if count > 0 {
      PaginateCovers(s, size, count - 1);
      PrefixThenPage(s, (count - 1) * size, size);
      NextPageStart(count, size);
    }
  }

  /** Page `count` ends where page `count + 1` starts. */
  lemma NextPageStart(count: nat, size: nat)
    requires count > 0
    ensures (count - 1) * size + size == count * size
  {
  }

  /** A prefix followed by the page that starts where it ends is a longer prefix. */
  lemma PrefixThenPage<T>(s: seq<T>, start: nat, size: nat)
    ensures s[..Min(start, |s|)] + PageSlice(s, start, size) == s[..Min(start + size, |s|)]
  {
  }

}
