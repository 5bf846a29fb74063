/**
 * The repositories' queries read as operations on in-memory tables: a table
 * is a sequence of rows, WHERE is a filter, COUNT(*) its length, findOne the
 * first matching row and ORDER BY a sort by a total preorder.
 */
module Tables {
  import opened Wrappers

  /** The rows that satisfy `p`, in table order. */
  function Filter<T(==)>(rows: seq<T>, p: T -> bool): (r: seq<T>)
    ensures |r| <= |rows|
    ensures forall x :: x in r ==> x in rows && p(x)
    ensures forall x :: x in rows && p(x) ==> x in r
    decreases |rows|
  {
    if |rows| == 0 then []
    else if p(rows[0]) then [rows[0]] + Filter(rows[1..], p)
    else Filter(rows[1..], p)
  }

  /** A filter keeps each row exactly as often as the table holds it. */
  lemma {:induction false} FilterMultiset<T>(rows: seq<T>, p: T -> bool)
    ensures forall x :: multiset(Filter(rows, p))[x] == if p(x) then multiset(rows)[x] else 0
    decreases |rows|
  {
    if |rows| > 0 {
      FilterMultiset(rows[1..], p);
      assert rows == [rows[0]] + rows[1..];
    }
  }

  /** Filters by predicates that agree on every row give the same rows. */
  lemma {:induction false} FilterExt<T>(rows: seq<T>, p: T -> bool, q: T -> bool)
    requires forall x :: x in rows ==> p(x) == q(x)
    ensures Filter(rows, p) == Filter(rows, q)
    decreases |rows|
  {
    if |rows| > 0 {
      FilterExt(rows[1..], p, q);
    }
  }

  lemma {:induction false} FilterAppend<T>(a: seq<T>, b: seq<T>, p: T -> bool)
    ensures Filter(a + b, p) == Filter(a, p) + Filter(b, p)
    decreases |a|
  {
    if |a| > 0 {
      assert (a + b)[1..] == a[1..] + b;
      FilterAppend(a[1..], b, p);
    } else {
      assert a + b == b;
    }
  }

  /** COUNT(*) over the rows that satisfy `p`. */
  function CountWhere<T(==)>(rows: seq<T>, p: T -> bool): nat
  {
    |Filter(rows, p)|
  }

  /** The count is positive exactly when some row satisfies the condition. */
  lemma CountWherePositive<T>(rows: seq<T>, p: T -> bool)
    ensures CountWhere(rows, p) > 0 <==> exists i :: 0 <= i < |rows| && p(rows[i])
  {
    var r := Filter(rows, p);
    if |r| > 0 {
      assert r[0] in r;
    }
    if i :| 0 <= i < |rows| && p(rows[i]) {
      assert rows[i] in r;
    }
  }

  /** The first row that satisfies `p`, as a query with LIMIT 1 returns it. */
  function First<T>(rows: seq<T>, p: T -> bool): (r: Option<T>)
    ensures r.Some? ==> exists i ::
      (&& 0 <= i < |rows| && rows[i] == r.value && p(rows[i])
       && forall j :: 0 <= j < i ==> !p(rows[j]))
    ensures r.None? <==> forall i :: 0 <= i < |rows| ==> !p(rows[i])
    decreases |rows|
  {
    if |rows| == 0 then None
    else if p(rows[0]) then Some(rows[0])
    else
      var r := First(rows[1..], p);
      assert forall i :: 0 <= i < |rows| - 1 ==> rows[1..][i] == rows[i + 1];
      r
  }

  /** Rows `a` and `b` of an inner join, in the order a nested-loop join yields them. */
  function InnerJoin<A, B>(left: seq<A>, right: seq<B>, on: (A, B) -> bool): (r: seq<(A, B)>)
    ensures forall k :: 0 <= k < |r| ==> on(r[k].0, r[k].1) && r[k].0 in left && r[k].1 in right
    decreases |left|
  {
    if |left| == 0 then []
    else Filter2(left[0], right, on) + InnerJoin(left[1..], right, on)
  }

  function Filter2<A, B>(a: A, right: seq<B>, on: (A, B) -> bool): (r: seq<(A, B)>)
    ensures forall k :: 0 <= k < |r| ==> r[k].0 == a && on(a, r[k].1) && r[k].1 in right
    decreases |right|
  {
    if |right| == 0 then []
    else if on(a, right[0]) then [(a, right[0])] + Filter2(a, right[1..], on)
    else Filter2(a, right[1..], on)
  }

  /** Every pair the join condition accepts is in the join. */
  lemma {:induction false} InnerJoinComplete<A, B>(left: seq<A>, right: seq<B>, on: (A, B) -> bool, i: nat, j: nat)
    requires i < |left| && j < |right| && on(left[i], right[j])
    ensures (left[i], right[j]) in InnerJoin(left, right, on)
    decreases |left|
  {
    if i == 0 {
      Filter2Complete(left[0], right, on, j);
    } else {
      InnerJoinComplete(left[1..], right, on, i - 1, j);
    }
  }

  lemma {:induction false} Filter2Complete<A, B>(a: A, right: seq<B>, on: (A, B) -> bool, j: nat)
    requires j < |right| && on(a, right[j])
    ensures (a, right[j]) in Filter2(a, right, on)
    decreases |right|
  {
    if j > 0 {
      Filter2Complete(a, right[1..], on, j - 1);
    }
  }

  /** `le` orders every pair and is transitive: what an ORDER BY key list gives. */
  ghost predicate TotalPreorder<T(!new)>(le: (T, T) -> bool)
  {
    && (forall a, b :: le(a, b) || le(b, a))
    && (forall a, b, c :: le(a, b) && le(b, c) ==> le(a, c))
  }

  predicate SortedBy<T>(s: seq<T>, le: (T, T) -> bool)
  {
    forall i, j :: 0 <= i < j < |s| ==> le(s[i], s[j])
  }

  /** `x` placed before the first element it does not follow. */
  function InsertSorted<T>(x: T, s: seq<T>, le: (T, T) -> bool): (r: seq<T>)
    decreases |s|
  {
    if |s| == 0 || le(x, s[0]) then [x] + s else [s[0]] + InsertSorted(x, s[1..], le)
  }

  lemma {:induction false} InsertSortedSpec<T(!new)>(x: T, s: seq<T>, le: (T, T) -> bool)
    requires TotalPreorder(le) && SortedBy(s, le)
    ensures var r := InsertSorted(x, s, le);
      SortedBy(r, le) && multiset(r) == multiset(s) + multiset{x}
      && forall y :: y in r ==> y == x || y in s
    decreases |s|
  {
    if |s| > 0 && !le(x, s[0]) {
      var t := s[1..];
      SortedTail(s, le);
      InsertSortedSpec(x, t, le);
      var rt := InsertSorted(x, t, le);
      assert InsertSorted(x, s, le) == [s[0]] + rt;
      forall y | y in rt ensures le(s[0], y) {
        if y != x {
          var m :| 0 <= m < |t| && t[m] == y;
          assert s[m + 1] == t[m];
        }
      }
      ConsSorted(s[0], rt, le);
      assert s == [s[0]] + t;
    }
  }

  lemma SortedTail<T>(s: seq<T>, le: (T, T) -> bool)
    requires |s| > 0 && SortedBy(s, le)
    ensures SortedBy(s[1..], le)
  {
    var t := s[1..];
    forall i, j | 0 <= i < j < |t| ensures le(t[i], t[j]) {
      assert t[i] == s[i + 1] && t[j] == s[j + 1];
    }
  }

  /** A sorted sequence stays sorted behind an element that precedes all of it. */
  lemma ConsSorted<T>(h: T, s: seq<T>, le: (T, T) -> bool)
    requires SortedBy(s, le) && forall y :: y in s ==> le(h, y)
    ensures SortedBy([h] + s, le)
  {
    var r := [h] + s;
    forall i, j | 0 <= i < j < |r| ensures le(r[i], r[j]) {
      assert r[j] == s[j - 1];
      if i > 0 {
        assert r[i] == s[i - 1];
      }
    }
  }

  /** ORDER BY: the rows arranged by `le`, equal keys left in table order. */
  function SortBy<T(!new)>(s: seq<T>, le: (T, T) -> bool): (r: seq<T>)
    requires TotalPreorder(le)
    ensures SortedBy(r, le) && multiset(r) == multiset(s)
    decreases |s|
  {
    if |s| == 0 then []
    else
      var rest := SortBy(s[1..], le);
      InsertSortedSpec(s[0], rest, le);
      assert s == [s[0]] + s[1..];
      InsertSorted(s[0], rest, le)
  }

  /** Any arrangement of a join's rows keeps the join's facts about each row. */
  lemma JoinRows<A, B>(left: seq<A>, right: seq<B>, on: (A, B) -> bool, r: seq<(A, B)>)
    requires multiset(r) == multiset(InnerJoin(left, right, on))
    ensures forall k :: 0 <= k < |r| ==> on(r[k].0, r[k].1) && r[k].0 in left && r[k].1 in right
  {
    var joined := InnerJoin(left, right, on);
    forall k | 0 <= k < |r| ensures on(r[k].0, r[k].1) && r[k].0 in left && r[k].1 in right {
      assert r[k] in multiset(r);
      assert r[k] in joined;
      var m :| 0 <= m < |joined| && joined[m] == r[k];
    }
  }

  /** Three conditions no row meets two of at once count at most every row between them. */
  lemma {:induction false} CountDisjoint<T>(rows: seq<T>, p: T -> bool, q: T -> bool, r: T -> bool)
    requires forall x :: !(p(x) && q(x)) && !(p(x) && r(x)) && !(q(x) && r(x))
    ensures CountWhere(rows, p) + CountWhere(rows, q) + CountWhere(rows, r) <= |rows|
    decreases |rows|
  {
    if |rows| > 0 {
      CountDisjoint(rows[1..], p, q, r);
    }
  }

  /** The distinct values `f` takes on the rows: COUNT(DISTINCT f). */
  function Image<T, K>(rows: seq<T>, f: T -> K): (r: set<K>)
    ensures |r| <= |rows|
    ensures forall x :: x in rows ==> f(x) in r
    decreases |rows|
  {
    if |rows| == 0 then {}
    else Image(rows[1..], f) + {f(rows[0])}
  }

  /** ORDER BY on the key `f` under the order `le`. */
  function On<T, K>(le: (K, K) -> bool, f: T -> K): (T, T) -> bool
  {
    (a: T, b: T) => le(f(a), f(b))
  }

  /** The same key in descending order. */
  function Reverse<T>(le: (T, T) -> bool): (T, T) -> bool
  {
    (a: T, b: T) => le(b, a)
  }

  /** `ORDER BY first, second`: the second order breaks the first one's ties. */
  function ThenBy<T>(first: (T, T) -> bool, second: (T, T) -> bool): (T, T) -> bool
  {
    (a: T, b: T) => (first(a, b) && !first(b, a)) || (first(a, b) && first(b, a) && second(a, b))
  }

  lemma OnIsPreorder<T(!new), K(!new)>(le: (K, K) -> bool, f: T -> K)
    requires TotalPreorder(le)
    ensures TotalPreorder(On(le, f))
  {
    var o := On(le, f);
    forall a: T, b: T, c: T | o(a, b) && o(b, c) ensures o(a, c) {
      assert le(f(a), f(b)) && le(f(b), f(c));
    }
    forall a: T, b: T ensures o(a, b) || o(b, a) {
      assert le(f(a), f(b)) || le(f(b), f(a));
    }
  }

  lemma ReverseIsPreorder<T(!new)>(le: (T, T) -> bool)
    requires TotalPreorder(le)
    ensures TotalPreorder(Reverse(le))
  {
    var r := Reverse(le);
    forall a: T, b: T, c: T | r(a, b) && r(b, c) ensures r(a, c) {
      assert le(c, b) && le(b, a);
    }
  }

  lemma ThenByIsPreorder<T(!new)>(first: (T, T) -> bool, second: (T, T) -> bool)
    requires TotalPreorder(first) && TotalPreorder(second)
    ensures TotalPreorder(ThenBy(first, second))
  {
    var t := ThenBy(first, second);
    forall a: T, b: T, c: T | t(a, b) && t(b, c) ensures t(a, c) {
      assert first(a, b) && first(b, c);
      assert first(a, c);
      if first(c, a) {
        assert first(b, a) && first(c, b);
        assert second(a, b) && second(b, c);
      }
    }
    forall a: T, b: T ensures t(a, b) || t(b, a) {
      assert first(a, b) || first(b, a);
      assert second(a, b) || second(b, a);
    }
  }

  /** Descending order on integers. */
  function IntDesc(): (int, int) -> bool
  {
    (x: int, y: int) => x >= y
  }

  lemma IntDescIsPreorder()
    ensures TotalPreorder(IntDesc())
  {
  }

  /** Position of the first row whose key is `k`, or |rows|. */
  function IndexOfKey<T, K(==)>(rows: seq<T>, key: T -> K, k: K): (i: nat)
    ensures i <= |rows|
    ensures i < |rows| ==> key(rows[i]) == k
    ensures forall j :: 0 <= j < i ==> key(rows[j]) != k
    decreases |rows|
  {
    if |rows| == 0 then 0 else if key(rows[0]) == k then 0 else 1 + IndexOfKey(rows[1..], key, k)
  }

  /** No two rows share a key: what a UNIQUE index guarantees. */
  predicate UniqueBy<T, K(==)>(rows: seq<T>, key: T -> K)
  {
    forall i, j :: 0 <= i < j < |rows| ==> key(rows[i]) != key(rows[j])
  }

  /**
   * `INSERT ... ON DUPLICATE KEY UPDATE`: the row with key `k` is updated in
   * place if there is one, and `insert` is appended otherwise.
   */
  function Upsert<T, K(==)>(rows: seq<T>, key: T -> K, k: K, insert: T, update: T -> T): seq<T>
  {
    var i := IndexOfKey(rows, key, k);
    if i < |rows| then rows[i := update(rows[i])] else rows + [insert]
  }

  /**
   * After an upsert, on a table with unique keys: the keys stay unique, and
   * one row has key `k`, the updated old row or the inserted one.
   */
  lemma UpsertSpec<T, K>(rows: seq<T>, key: T -> K, k: K, insert: T, update: T -> T)
    requires UniqueBy(rows, key)
    requires key(insert) == k && forall t :: key(update(t)) == key(t)
    ensures var r := Upsert(rows, key, k, insert, update);
      && UniqueBy(r, key)
      && (exists i :: 0 <= i < |r| && key(r[i]) == k)
      && (forall i :: 0 <= i < |r| && key(r[i]) == k ==>
            if IndexOfKey(rows, key, k) < |rows| then r[i] == update(rows[IndexOfKey(rows, key, k)]) else r[i] == insert)
  {
    var i := IndexOfKey(rows, key, k);
    var r := Upsert(rows, key, k, insert, update);
    if i < |rows| {
      assert key(r[i]) == k;
    } else {
      assert key(r[|rows|]) == k;
    }
  }

  /** An upsert leaves the rows with any other key (those `other` selects) as they were, in order. */
  lemma UpsertOthers<T, K>(rows: seq<T>, key: T -> K, k: K, insert: T, update: T -> T, other: T -> bool)
    requires key(insert) == k && forall t :: key(update(t)) == key(t)
    requires forall t :: other(t) == (key(t) != k)
    ensures Filter(Upsert(rows, key, k, insert, update), other) == Filter(rows, other)
  {
    var i := IndexOfKey(rows, key, k);
    var r := Upsert(rows, key, k, insert, update);
    if i < |rows| {
      assert r == rows[..i] + [update(rows[i])] + rows[i + 1..];
      assert rows == rows[..i] + [rows[i]] + rows[i + 1..];
      FilterAppend(rows[..i] + [update(rows[i])], rows[i + 1..], other);
      FilterAppend(rows[..i], [update(rows[i])], other);
      FilterAppend(rows[..i] + [rows[i]], rows[i + 1..], other);
      FilterAppend(rows[..i], [rows[i]], other);
      assert Filter([update(rows[i])], other) == [] == Filter([rows[i]], other);
    } else {
      FilterAppend(rows, [insert], other);
      assert Filter([insert], other) == [];
    }
  }

  /** Repeating an upsert whose update and insert are fixed points of the update changes nothing. */
  lemma UpsertIdempotent<T, K>(rows: seq<T>, key: T -> K, k: K, insert: T, update: T -> T)
    requires key(insert) == k && forall t :: key(update(t)) == key(t)
    requires update(insert) == insert && forall t :: update(update(t)) == update(t)
    ensures Upsert(Upsert(rows, key, k, insert, update), key, k, insert, update)
      == Upsert(rows, key, k, insert, update)
  {
    var i := IndexOfKey(rows, key, k);
    var r := Upsert(rows, key, k, insert, update);
    if i < |rows| {
      IndexOfKeyUnique(r, key, k, i);
    } else {
      IndexOfKeyUnique(r, key, k, |rows|);
    }
  }

  lemma IndexOfKeyUnique<T, K>(rows: seq<T>, key: T -> K, k: K, i: nat)
    requires i <= |rows|
    requires i < |rows| ==> key(rows[i]) == k
    requires forall j :: 0 <= j < i ==> key(rows[j]) != k
    ensures IndexOfKey(rows, key, k) == i
  {
  }
}
