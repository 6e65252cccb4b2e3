/** `Collections.sort` for the two orders the model sorts by: podcasts
    by title and episodes by index. Both orders are total preorders, and
    the sort is an insertion sort on sequences.
 */
module Sorting {

  /** `le` relates every pair one way or the other. */
  ghost predicate Total<T(!new)>(le: (T, T) -> bool) {
    forall a, b :: le(a, b) || le(b, a)
  }

  /** `le` is transitive. */
  ghost predicate Transitive<T(!new)>(le: (T, T) -> bool) {
    forall a, b, c :: le(a, b) && le(b, c) ==> le(a, c)
  }

  /** Every earlier element is `le` every later one. */
  predicate SortedBy<T>(s: seq<T>, le: (T, T) -> bool) {
    forall i, j :: 0 <= i < j < |s| ==> le(s[i], s[j])
  }

  /** Inserts `x` before the first element it is `le` to. */
  function InsertBy<T(!new)>(s: seq<T>, x: T, le: (T, T) -> bool): (r: seq<T>)
    requires Total(le) && Transitive(le)
    ensures multiset(r) == multiset(s) + multiset{x}
    ensures SortedBy(s, le) ==> SortedBy(r, le)
  {
    if s == [] then [x]
    else if le(x, s[0]) then [x] + s
    else
      var rest := InsertBy(s[1..], x, le);
      KeepHead(s, x, rest, le);
      [s[0]] + rest
  }

  /** Putting back the head `s[0]` in front of the insertion into the
      tail keeps the multiset and the order, since `x` went after it. */
  lemma KeepHead<T(!new)>(s: seq<T>, x: T, rest: seq<T>, le: (T, T) -> bool)
    requires Total(le) && Transitive(le)
    requires s != [] && !le(x, s[0])
    requires multiset(rest) == multiset(s[1..]) + multiset{x}
    requires SortedBy(s[1..], le) ==> SortedBy(rest, le)
    ensures multiset([s[0]] + rest) == multiset(s) + multiset{x}
    ensures SortedBy(s, le) ==> SortedBy([s[0]] + rest, le)
  {
    assert s == [s[0]] + s[1..];
    if SortedBy(s, le) {
      assert SortedBy(rest, le) by {
        assert SortedBy(s[1..], le);
      }
      assert forall y :: y in rest ==> le(s[0], y) by {
        forall y | y in rest ensures le(s[0], y) {
          assert y in multiset(rest);
          if y != x {
            assert y in s[1..];
          }
        }
      }
      ConsSorted(s[0], rest, le);
    }
  }

  /** A head `le` every element of a sorted tail gives a sorted sequence. */
  lemma ConsSorted<T>(a: T, rest: seq<T>, le: (T, T) -> bool)
    requires SortedBy(rest, le)
    requires forall y :: y in rest ==> le(a, y)
    ensures SortedBy([a] + rest, le)
  {
    var r := [a] + rest;
    forall i, j | 0 <= i < j < |r| ensures le(r[i], r[j]) {
      if i > 0 {
        assert r[i] == rest[i - 1] && r[j] == rest[j - 1];
      } else {
        assert r[j] in rest;
      }
    }
  }

  /** Insertion sort: a sorted permutation of `s`. */
  function SortBy<T(!new)>(s: seq<T>, le: (T, T) -> bool): (r: seq<T>)
    requires Total(le) && Transitive(le)
    ensures multiset(r) == multiset(s)
    ensures SortedBy(r, le)
  {
    if s == [] then []
    else
      assert s == s[..|s| - 1] + [s[|s| - 1]];
      InsertBy(SortBy(s[..|s| - 1], le), s[|s| - 1], le)
  }
}
