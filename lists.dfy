/** Facts about sequences used as Java lists. */
module Lists {

  /** The elements of a list, as a set. */
  function Members<T>(s: seq<T>): set<T>
  {
    set x | x in s
  }

  /** No element occurs twice. */
  ghost predicate Distinct<T>(s: seq<T>) {
    forall i, j :: 0 <= i < j < |s| ==> s[i] != s[j]
  }

  /** A list without repetitions has one element per member, each occurring once. */
  lemma {:induction false} DistinctMembers<T>(s: seq<T>)
    requires Distinct(s)
    ensures |Members(s)| == |s|
    ensures multiset(s) == multiset(Members(s))
  {
    if s != [] {
      var t := s[..|s| - 1];
      var x := s[|s| - 1];
      assert s == t + [x];
      assert Distinct(t);
      DistinctMembers(t);
      assert x !in t;
      assert Members(s) == Members(t) + {x};
    }
  }

  /** A list without repetitions drawn from a set is no longer than the set. */
  lemma DistinctWithin<T>(s: seq<T>, S: set<T>)
    requires Distinct(s) && forall i :: 0 <= i < |s| ==> s[i] in S
    ensures |s| <= |S|
  {
    DistinctMembers(s);
    assert S == Members(s) + (S - Members(s));
  }

  /** The list in reverse order (`Collections.reverse`). */
  function Reverse<T>(s: seq<T>): (r: seq<T>)
    ensures |r| == |s|
    ensures forall i :: 0 <= i < |s| ==> r[i] == s[|s| - 1 - i]
  {
    if s == [] then [] else Reverse(s[1..]) + [s[0]]
  }

  lemma DistinctAppend<T>(t: seq<T>, x: T)
    ensures Distinct(t) && x !in t ==> Distinct(t + [x])
  {
    if Distinct(t) && x !in t {
      var r := t + [x];
      forall i, j | 0 <= i < j < |r| ensures r[i] != r[j] {
        assert r[i] == t[i];
        if j < |t| { assert r[j] == t[j]; }
      }
    }
  }

  /** `List.remove(Object)`: the list without the first occurrence of `x`. */
  function RemoveFirst<T(==)>(s: seq<T>, x: T): (r: seq<T>)
    ensures x in s ==> |r| == |s| - 1
    ensures x !in s ==> r == s
    ensures forall y :: y in r ==> y in s
    ensures forall y :: y in s && y != x ==> y in r
    ensures Distinct(s) ==> Distinct(r) && x !in r
  {
    if s == [] then []
    else if s[0] == x then
      assert Distinct(s) ==> x !in s[1..];
      s[1..]
    else
      var rest := RemoveFirst(s[1..], x);
      assert Distinct(s) ==> s[0] !in s[1..];
      DistinctPrepend(s[0], rest);
      [s[0]] + rest
  }

  /** The occurrence removed is the first one, and the other elements keep their order. */
  lemma {:induction false} RemoveFirstAt<T>(s: seq<T>, x: T, i: nat)
    requires i < |s| && s[i] == x && x !in s[..i]
    ensures RemoveFirst(s, x) == s[..i] + s[i + 1..]
  {
    if i > 0 {
      assert s[0] in s[..i];
      assert s[1..][..i - 1] == s[1..i];
      RemoveFirstAt(s[1..], x, i - 1);
      assert s[1..][i..] == s[i + 1..];
      assert s[..i] == [s[0]] + s[1..i];
    }
  }

  lemma DistinctPrepend<T>(x: T, t: seq<T>)
    ensures Distinct(t) && x !in t ==> Distinct([x] + t)
  {
    if Distinct(t) && x !in t {
      var r := [x] + t;
      forall i, j | 0 <= i < j < |r| ensures r[i] != r[j] {
        assert r[j] == t[j - 1];
        if i > 0 { assert r[i] == t[i - 1]; }
      }
    }
  }

  /** Reversing a list with one more element at the end puts that element first. */
  lemma ReverseAppend<T>(s: seq<T>, x: T)
    ensures Reverse(s + [x]) == [x] + Reverse(s)
  {
    var r, t := Reverse(s + [x]), [x] + Reverse(s);
    forall i | 0 <= i < |r| ensures r[i] == t[i] {
      if i > 0 {
        assert (s + [x])[|s| - i] == s[|s| - 1 - (i - 1)];
      }
    }
  }
}
