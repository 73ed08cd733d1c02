/** Ordering: the lexicographic order of strings (what `<` does on
    JavaScript strings, and what `ORDER BY` does under a binary collation),
    and a stable insertion sort by any total preorder, which is what
    `Array.prototype.sort` with a consistent comparator and an SQL
    `ORDER BY` compute. */
module Sorting {

  /** `a <= b` in lexicographic order of characters. */
  predicate StrLe(a: string, b: string)
    decreases |a|
  {
    if a == [] then true
    else if b == [] then false
    else if a[0] != b[0] then a[0] < b[0]
    else StrLe(a[1..], b[1..])
  }

  predicate StrLt(a: string, b: string) {
    StrLe(a, b) && a != b
  }

  lemma {:induction false} StrLeReflexive(a: string)
    ensures StrLe(a, a)
    decreases |a|
  {
    if a != [] {
      StrLeReflexive(a[1..]);
    }
  }

  lemma {:induction false} StrLeTotal(a: string, b: string)
    ensures StrLe(a, b) || StrLe(b, a)
    decreases |a|
  {
    if a != [] && b != [] && a[0] == b[0] {
      StrLeTotal(a[1..], b[1..]);
    }
  }

  lemma {:induction false} StrLeTrans(a: string, b: string, c: string)
    requires StrLe(a, b) && StrLe(b, c)
    ensures StrLe(a, c)
    decreases |a|
  {
    if a != [] && b != [] && c != [] && a[0] == b[0] && b[0] == c[0] {
      StrLeTrans(a[1..], b[1..], c[1..]);
    }
  }

  lemma {:induction false} StrLeAntisymmetric(a: string, b: string)
    requires StrLe(a, b) && StrLe(b, a)
    ensures a == b
    decreases |a|
  {
    if a != [] && b != [] {
      StrLeAntisymmetric(a[1..], b[1..]);
      assert a == [a[0]] + a[1..];
      assert b == [b[0]] + b[1..];
    }
  }

  /** A prefix comes first. */
  lemma {:induction false} PrefixIsSmaller(a: string, b: string)
    requires a <= b
    ensures StrLe(a, b)
    decreases |a|
  {
    if a != [] {
      assert a[1..] <= b[1..];
      PrefixIsSmaller(a[1..], b[1..]);
    }
  }

  /** `le` orders every pair and is transitive. */
  ghost predicate TotalPreorder<T(!new)>(le: (T, T) -> bool) {
    && (forall a, b :: le(a, b) || le(b, a))
    && (forall a, b, c :: le(a, b) && le(b, c) ==> le(a, c))
  }

  predicate SortedBy<T>(s: seq<T>, le: (T, T) -> bool) {
    forall i, j | 0 <= i < j < |s| :: le(s[i], s[j])
  }

  /** Inserts `x` before the first element it does not come after, so that
      `x` precedes the elements equal to it. */
  function InsertBy<T>(x: T, s: seq<T>, le: (T, T) -> bool): (r: seq<T>)
    ensures multiset(r) == multiset(s) + multiset{x}
    ensures |r| == |s| + 1
    ensures forall k | 0 <= k < |r| :: r[k] == x || r[k] in s
  {
    if s == [] then [x]
    else if le(x, s[0]) then [x] + s
    else
      assert s == [s[0]] + s[1..];
      [s[0]] + InsertBy(x, s[1..], le)
  }

  /** An element that precedes every element of a sorted sequence can head
      it. */
  lemma ConsSorted<T>(h: T, t: seq<T>, le: (T, T) -> bool)
    requires SortedBy(t, le)
    requires forall k | 0 <= k < |t| :: le(h, t[k])
    ensures SortedBy([h] + t, le)
  {
    var r := [h] + t;
    forall i, j | 0 <= i < j < |r| ensures le(r[i], r[j]) {
      assert r[j] == t[j - 1];
      if i > 0 {
        assert r[i] == t[i - 1];
      }
    }
  }

  lemma {:induction false} InsertKeepsSorted<T(!new)>(x: T, s: seq<T>, le: (T, T) -> bool)
    requires TotalPreorder(le) && SortedBy(s, le)
    ensures SortedBy(InsertBy(x, s, le), le)
  {
    if s != [] && !le(x, s[0]) {
      var t := s[1..];
      assert SortedBy(t, le);
      InsertKeepsSorted(x, t, le);
      var rest := InsertBy(x, t, le);
      forall k | 0 <= k < |rest| ensures le(s[0], rest[k]) {
        if rest[k] != x {
          var m :| 0 <= m < |t| && t[m] == rest[k];
          assert s[m + 1] == t[m];
        }
      }
      ConsSorted(s[0], rest, le);
    } else if s != [] {
      forall k | 0 <= k < |s| ensures le(x, s[k]) {
        if k > 0 {
          assert le(s[0], s[k]);
        }
      }
      ConsSorted(x, s, le);
    }
  }

  /** A stable insertion sort: a permutation of `s`, ordered by `le`. */
  function SortBy<T(!new)>(s: seq<T>, le: (T, T) -> bool): (r: seq<T>)
    requires TotalPreorder(le)
    ensures multiset(r) == multiset(s)
    ensures |r| == |s|
    ensures SortedBy(r, le)
  {
    if s == [] then []
    else
      assert s == [s[0]] + s[1..];
      var tail := SortBy(s[1..], le);
      InsertKeepsSorted(s[0], tail, le);
      InsertBy(s[0], tail, le)
  }

  /** Sorting an already ordered sequence changes nothing. */
  lemma {:induction false} SortSorted<T(!new)>(s: seq<T>, le: (T, T) -> bool)
    requires TotalPreorder(le) && SortedBy(s, le)
    ensures SortBy(s, le) == s
  {
    if s != [] {
      assert SortedBy(s[1..], le);
      SortSorted(s[1..], le);
      assert s == [s[0]] + s[1..];
    }
  }

  /** A permutation has the same elements. */
  lemma PermutationSameMembers<T>(a: seq<T>, b: seq<T>)
    requires multiset(a) == multiset(b)
    ensures forall x :: x in a <==> x in b
  {
    forall x ensures x in a <==> x in b {
      assert x in a <==> x in multiset(a);
      assert x in b <==> x in multiset(b);
    }
  }

  /** Ascending and descending order of a string key are total preorders. */
  lemma StringKeyOrders<T(!new)>(key: T -> string)
    ensures TotalPreorder((a: T, b: T) => StrLe(key(a), key(b)))
    ensures TotalPreorder((a: T, b: T) => StrLe(key(b), key(a)))
  {
    forall a: T, b: T ensures StrLe(key(a), key(b)) || StrLe(key(b), key(a)) {
      StrLeTotal(key(a), key(b));
    }
    forall a: T, b: T, c: T | StrLe(key(a), key(b)) && StrLe(key(b), key(c))
      ensures StrLe(key(a), key(c))
    {
      StrLeTrans(key(a), key(b), key(c));
    }
    forall a: T, b: T, c: T | StrLe(key(b), key(a)) && StrLe(key(c), key(b))
      ensures StrLe(key(c), key(a))
    {
      StrLeTrans(key(c), key(b), key(a));
    }
  }
}
