/** The insertion sort used wherever the tracker sorts: pending tasks by contest id, the
    athlete's participations by start time and a contest's problems by index. JavaScript's
    `Array.prototype.sort` is stable, and so is this one (`SortByStable`). */
module Sorting {

  ghost predicate Total<T(!new)>(le: (T, T) -> bool) {
    forall a, b :: le(a, b) || le(b, a)
  }

  ghost predicate Transitive<T(!new)>(le: (T, T) -> bool) {
    forall a, b, c :: le(a, b) && le(b, c) ==> le(a, c)
  }

  ghost predicate SortedBy<T>(s: seq<T>, le: (T, T) -> bool) {
    forall i, j :: 0 <= i < j < |s| ==> le(s[i], s[j])
  }

  /** Inserts `x` in front of the first element it is not after, so it precedes every
      element it ties with. */
  function InsertBy<T(!new)>(x: T, s: seq<T>, le: (T, T) -> bool): (r: seq<T>)
    requires Total(le) && Transitive(le)
    requires SortedBy(s, le)
    ensures SortedBy(r, le)
    ensures multiset(r) == multiset(s) + multiset{x}
    ensures forall y :: y in r <==> y == x || y in s
  {
    if s == [] || le(x, s[0]) then
      HeadBelow(x, s, le);
      [x] + s
    else
      var tail := InsertBy(x, s[1..], le);
      assert s == [s[0]] + s[1..];
      HeadBelowTail(s[0], x, s, tail, le);
      [s[0]] + tail
  }

  /** `x` is below the head of a sorted `s`, hence below all of it. */
  lemma HeadBelow<T(!new)>(x: T, s: seq<T>, le: (T, T) -> bool)
    requires Transitive(le) && SortedBy(s, le)
    requires s == [] || le(x, s[0])
    ensures SortedBy([x] + s, le)
  {
    forall i, j | 0 <= i < j < |[x] + s| ensures le(([x] + s)[i], ([x] + s)[j]) {
      if i == 0 {
        assert ([x] + s)[j] == s[j - 1];
        if j > 1 {
          assert le(s[0], s[j - 1]);
        }
      } else {
        assert ([x] + s)[i] == s[i - 1] && ([x] + s)[j] == s[j - 1];
      }
    }
  }

  /** When `x` does not go before the head `h` of a sorted `s`, `h` is below everything the
      insertion into the tail holds. */
  lemma HeadBelowTail<T(!new)>(h: T, x: T, s: seq<T>, tail: seq<T>, le: (T, T) -> bool)
    requires Total(le) && Transitive(le) && SortedBy(s, le)
    requires s != [] && h == s[0] && !le(x, h)
    requires SortedBy(tail, le)
    requires forall y :: y in tail ==> y == x || y in s[1..]
    ensures SortedBy([h] + tail, le)
  {
    assert le(h, x);
    forall i, j | 0 <= i < j < |[h] + tail| ensures le(([h] + tail)[i], ([h] + tail)[j]) {
      if i == 0 {
        var y := tail[j - 1];
        assert y in tail;
        if y != x {
          var k :| 0 <= k < |s[1..]| && s[1..][k] == y;
          assert s[k + 1] == y;
        }
      } else {
        assert ([h] + tail)[i] == tail[i - 1] && ([h] + tail)[j] == tail[j - 1];
      }
    }
  }

  /** Sorts `s` by `le`, keeping tied elements in their original order. */
  function SortBy<T(!new)>(s: seq<T>, le: (T, T) -> bool): (r: seq<T>)
    requires Total(le) && Transitive(le)
    ensures SortedBy(r, le)
    ensures multiset(r) == multiset(s)
    ensures |r| == |s|
  {
    if s == [] then []
    else
      assert s == [s[0]] + s[1..];
      InsertBy(s[0], SortBy(s[1..], le), le)
  }

  /** `a` and `b` tie: each is ordered before the other. */
  predicate Tie<T>(a: T, b: T, le: (T, T) -> bool) {
    le(a, b) && le(b, a)
  }

  /** The elements of `s` that tie with `z`, in their order in `s`. */
  function TiesWith<T>(s: seq<T>, z: T, le: (T, T) -> bool): seq<T> {
    if s == [] then []
    else (if Tie(s[0], z, le) then [s[0]] else []) + TiesWith(s[1..], z, le)
  }

  /** Insertion puts `x` in front of every element it ties with. */
  lemma {:induction false} InsertByTies<T(!new)>(x: T, s: seq<T>, z: T, le: (T, T) -> bool)
    requires Total(le) && Transitive(le)
    requires SortedBy(s, le)
    ensures TiesWith(InsertBy(x, s, le), z, le) == (if Tie(x, z, le) then [x] else []) + TiesWith(s, z, le)
  {
    var r := InsertBy(x, s, le);
    if s == [] || le(x, s[0]) {
      assert r == [x] + s;
      assert r[1..] == s;
    } else {
      var h := s[0];
      var tail := InsertBy(x, s[1..], le);
      assert r == [h] + tail;
      assert r[1..] == tail;
      assert SortedBy(s[1..], le);
      InsertByTies(x, s[1..], z, le);
      var hs := if Tie(h, z, le) then [h] else [];
      var xs := if Tie(x, z, le) then [x] else [];
      var rest := TiesWith(s[1..], z, le);
      assert TiesWith(r, z, le) == hs + (xs + rest);
      assert TiesWith(s, z, le) == hs + rest;
      assert le(x, z) && le(z, h) ==> le(x, h);
      assert hs == [] || xs == [];
    }
  }

  /** Stability: the elements tied with any `z` keep their relative order. */
  lemma {:induction false} SortByStable<T(!new)>(s: seq<T>, z: T, le: (T, T) -> bool)
    requires Total(le) && Transitive(le)
    ensures TiesWith(SortBy(s, le), z, le) == TiesWith(s, z, le)
  {
    if s != [] {
      SortByStable(s[1..], z, le);
      InsertByTies(s[0], SortBy(s[1..], le), z, le);
    }
  }

  predicate NoDuplicates<T(==)>(s: seq<T>) {
    forall i, j :: 0 <= i < j < |s| ==> s[i] != s[j]
  }

  lemma {:induction false} NoDuplicatesCount<T>(s: seq<T>, x: T)
    requires NoDuplicates(s)
    ensures multiset(s)[x] <= 1
  {
    if s != [] {
      assert s == [s[0]] + s[1..];
      NoDuplicatesCount(s[1..], x);
      if s[0] == x {
        assert x !in s[1..];
      }
    }
  }

  lemma SortByKeepsDistinct<T(!new)>(s: seq<T>, le: (T, T) -> bool)
    requires Total(le) && Transitive(le)
    requires NoDuplicates(s)
    ensures NoDuplicates(SortBy(s, le))
  {
    var r := SortBy(s, le);
    forall i, j | 0 <= i < j < |r|
      ensures r[i] != r[j]
    {
      if r[i] == r[j] {
        assert r == r[..j] + r[j..];
        assert r[i] in r[..j];
        assert r[j] in r[j..];
        assert multiset(r)[r[i]] >= 2;
        NoDuplicatesCount(s, r[i]);
        assert false;
      }
    }
  }

  lemma SortByKeepsElements<T(!new)>(s: seq<T>, le: (T, T) -> bool, x: T)
    requires Total(le) && Transitive(le)
    ensures x in SortBy(s, le) <==> x in s
  {
    var r := SortBy(s, le);
    assert x in r <==> x in multiset(r);
    assert x in s <==> x in multiset(s);
  }
}
