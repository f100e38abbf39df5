/**
 The ordered containers of the original (`BTreeSet`, the keys of a `BTreeMap`) iterate in
 ascending order. Here such a container is a finite set, and iterating it means walking
 the sequence `SortedSeq` of its members.
 */
module Ordered {

  ghost predicate TotalOrder<T(!new)>(le: (T, T) -> bool) {
    && (forall x, y :: le(x, y) || le(y, x))
    && (forall x, y :: le(x, y) && le(y, x) ==> x == y)
    && (forall x, y, z :: le(x, y) && le(y, z) ==> le(x, z))
  }

  ghost predicate NoDuplicates<T>(s: seq<T>) {
    forall a, b :: 0 <= a < b < |s| ==> s[a] != s[b]
  }

  ghost predicate Ascending<T>(s: seq<T>, le: (T, T) -> bool) {
    forall a, b :: 0 <= a < b < |s| ==> s[a] != s[b] && le(s[a], s[b])
  }

  ghost predicate Least<T>(x: T, s: set<T>, le: (T, T) -> bool) {
    x in s && forall y :: y in s ==> le(x, y)
  }

  lemma {:induction false} LeastExists<T(!new)>(s: set<T>, le: (T, T) -> bool)
    requires TotalOrder(le) && s != {}
    ensures exists x :: Least(x, s, le)
  {
    var x :| x in s;
    var rest := s - {x};
    if rest == {} {
      assert s == {x};
      assert Least(x, s, le);
    } else {
      LeastExists(rest, le);
      var y :| Least(y, rest, le);
      assert Least(if le(x, y) then x else y, s, le);
    }
  }

  /** The members of `s` in ascending order. */
  function SortedSeq<T(!new)>(s: set<T>, le: (T, T) -> bool): (r: seq<T>)
    requires TotalOrder(le)
    ensures forall x :: x in r <==> x in s
    ensures Ascending(r, le)
    ensures |r| == |s|
  {
    if s == {} then []
    else
      LeastExists(s, le);
      assert exists x :: x in s && forall y :: y in s ==> le(x, y) by {
        var x :| Least(x, s, le);
      }
      var x :| x in s && forall y :: y in s ==> le(x, y);
      [x] + SortedSeq(s - {x}, le)
  }

  /** Two ascending enumerations of the same members agree. */
  lemma {:induction false} AscendingUnique<T(!new)>(r: seq<T>, q: seq<T>, le: (T, T) -> bool)
    requires TotalOrder(le)
    requires Ascending(r, le) && Ascending(q, le)
    requires forall x :: x in r <==> x in q
    ensures r == q
  {
    assert r != [] ==> r[0] in r;
    assert q != [] ==> q[0] in q;
    if r == [] || q == [] {
    } else {
      assert r[0] == q[0];
      TailMembers(r, le);
      TailMembers(q, le);
      AscendingUnique(r[1..], q[1..], le);
      assert r == [r[0]] + r[1..];
    }
  }

  lemma TailMembers<T(!new)>(r: seq<T>, le: (T, T) -> bool)
    requires r != [] && Ascending(r, le)
    ensures Ascending(r[1..], le)
    ensures forall x :: x in r[1..] <==> x in r && x != r[0]
  {
    forall x | x in r && x != r[0] ensures x in r[1..] {
      var a :| 0 <= a < |r| && r[a] == x;
      assert r[1..][a - 1] == x;
    }
  }

  /** The index assigned to a member by `enumerate`. */
  function IndexOf<T(==)>(s: seq<T>, x: T): (n: nat)
    requires x in s
    ensures n < |s| && s[n] == x
  {
    if s[0] == x then 0 else 1 + IndexOf(s[1..], x)
  }
}
