/**
 * The sorting the source delegates to the Java library (`List.sort` with a
 * comparator, `Collections.sort`, a sorted stream): a list is reordered by a key
 * under a total preorder.  Modelled as insertion sort on sequences, proved to
 * return a permutation of its input that is ordered by the key.
 */
module Ranking {

  /** `le` is a total preorder: what a Java comparator must be for sorting to be meaningful. */
  ghost predicate TotalPreorder<K(!new)>(le: (K, K) -> bool) {
    && (forall a, b :: le(a, b) || le(b, a))
    && (forall a, b, c :: le(a, b) && le(b, c) ==> le(a, c))
  }

  /** Every earlier element's key comes before (or ties with) every later element's key. */
  ghost predicate Ordered<T, K>(s: seq<T>, key: T -> K, le: (K, K) -> bool) {
    forall i, j :: 0 <= i < j < |s| ==> le(key(s[i]), key(s[j]))
  }

  /** Places `x` before the first element it may precede. */
  function Insert<T, K>(x: T, s: seq<T>, key: T -> K, le: (K, K) -> bool): (r: seq<T>)
    ensures multiset(r) == multiset(s) + multiset{x}
  {
    if s == [] then [x]
    else if le(key(x), key(s[0])) then [x] + s
    else
      assert s == [s[0]] + s[1..];
      [s[0]] + Insert(x, s[1..], key, le)
  }

  /** Insertion sort of `s` by `key` under `le`. */
  function Sort<T, K>(s: seq<T>, key: T -> K, le: (K, K) -> bool): (r: seq<T>)
    ensures multiset(r) == multiset(s)
    ensures |r| == |s|
  {
    if s == [] then []
    else
      assert s == [s[0]] + s[1..];
      Insert(s[0], Sort(s[1..], key, le), key, le)
  }

  lemma {:induction false} InsertOrdered<T, K(!new)>(x: T, s: seq<T>, key: T -> K, le: (K, K) -> bool)
    requires TotalPreorder(le) && Ordered(s, key, le)
    ensures Ordered(Insert(x, s, key, le), key, le)
  {
    if s == [] {
    } else if le(key(x), key(s[0])) {
      var r := [x] + s;
      forall i, j | 0 <= i < j < |r| ensures le(key(r[i]), key(r[j])) {
        if i == 0 && j > 1 {
          assert r[j] == s[j - 1];
          assert le(key(s[0]), key(s[j - 1]));
        }
      }
    } else {
      var tail := s[1..];
      assert Ordered(tail, key, le) by {
        forall i, j | 0 <= i < j < |tail| ensures le(key(tail[i]), key(tail[j])) {
          assert tail[i] == s[i + 1] && tail[j] == s[j + 1];
        }
      }
      InsertOrdered(x, tail, key, le);
      var rest := Insert(x, tail, key, le);
      var r := [s[0]] + rest;
      assert le(key(s[0]), key(x));
      forall k | 0 <= k < |rest| ensures le(key(s[0]), key(rest[k])) {
        assert rest[k] in multiset(rest);
        assert rest[k] in multiset(tail) + multiset{x};
        if rest[k] != x {
          assert rest[k] in multiset(tail);
          var m :| 0 <= m < |tail| && tail[m] == rest[k];
          assert tail[m] == s[m + 1];
        }
      }
      forall i, j | 0 <= i < j < |r| ensures le(key(r[i]), key(r[j])) {
        if i == 0 {
          assert r[j] == rest[j - 1];
        } else {
          assert r[i] == rest[i - 1] && r[j] == rest[j - 1];
        }
      }
    }
  }

  /** Sorting under a total preorder orders the result. */
  lemma {:induction false} SortOrdered<T, K(!new)>(s: seq<T>, key: T -> K, le: (K, K) -> bool)
    requires TotalPreorder(le)
    ensures Ordered(Sort(s, key, le), key, le)
  {
    if s != [] {
      SortOrdered(s[1..], key, le);
      InsertOrdered(s[0], Sort(s[1..], key, le), key, le);
    }
  }

  /** Descending order of integer keys: the comparator `reverseOrder(comparingByValue())`. */
  function Descending(a: int, b: int): bool { a >= b }

  lemma DescendingIsTotalPreorder()
    ensures TotalPreorder(Descending)
  {
  }
}
