/** Ordered iteration over a finite set: what a `BTreeMap` or `BTreeSet` range hands out. */
module Ordered {

  ghost predicate StrictOrder<T(!new)>(lt: (T, T) -> bool) {
    && (forall x :: !lt(x, x))
    && (forall x, y, z :: lt(x, y) && lt(y, z) ==> lt(x, z))
    && (forall x, y :: x == y || lt(x, y) || lt(y, x))
  }

  predicate Ascending<T>(s: seq<T>, lt: (T, T) -> bool) {
    forall i, j :: 0 <= i < j < |s| ==> lt(s[i], s[j])
  }

  /** `r` lists the first `limit` elements of `all` in the order `lt`. */
  ghost predicate IsFirst<T>(r: seq<T>, all: set<T>, limit: nat, lt: (T, T) -> bool) {
    && Ascending(r, lt)
    && |r| <= limit
    && (forall x :: x in r ==> x in all)
    && (forall x :: x in all && x !in r ==> |r| == limit && forall y :: y in r ==> lt(y, x))
  }

  ghost predicate IsMin<T(!new)>(m: T, all: set<T>, lt: (T, T) -> bool) {
    m in all && forall x :: x in all && x != m ==> lt(m, x)
  }

  lemma {:induction false} MinExists<T(!new)>(all: set<T>, lt: (T, T) -> bool)
    requires StrictOrder(lt) && all != {}
    ensures exists m :: m in all && forall x :: x in all && x != m ==> lt(m, x)
  {
    var a :| a in all;
    var rest := all - {a};
    assert forall x :: x in all ==> x == a || x in rest;
    if rest == {} {
      assert IsMin(a, all, lt);
    } else {
      MinExists(rest, lt);
      var m :| m in rest && forall x :: x in rest && x != m ==> lt(m, x);
      assert IsMin(if lt(a, m) then a else m, all, lt);
    }
  }

  /** The elements of `all` in ascending order. */
  function Sorted<T(==, !new)>(all: set<T>, lt: (T, T) -> bool): (r: seq<T>)
    requires StrictOrder(lt)
    ensures Ascending(r, lt)
    ensures forall x :: x in r <==> x in all
    ensures |r| == |all|
  {
    if all == {} then []
    else
      MinExists(all, lt);
      var m :| m in all && forall x :: x in all && x != m ==> lt(m, x);
      var rest := Sorted(all - {m}, lt);
      Prepended(m, rest, all, lt);
      [m] + rest
  }

  lemma Prepended<T(!new)>(m: T, rest: seq<T>, all: set<T>, lt: (T, T) -> bool)
    requires IsMin(m, all, lt) && Ascending(rest, lt)
    requires forall x :: x in rest <==> x in all - {m}
    ensures Ascending([m] + rest, lt)
    ensures forall x :: x in [m] + rest <==> x in all
  {
    assert forall i :: 0 <= i < |rest| ==> rest[i] in rest;
  }

  /** `iter().take(limit)` over an ascending sequence. */
  function Take<T>(s: seq<T>, limit: nat): seq<T> {
    if |s| <= limit then s else s[..limit]
  }

  lemma TakeIsFirst<T(!new)>(all: set<T>, limit: nat, lt: (T, T) -> bool)
    requires StrictOrder(lt)
    ensures IsFirst(Take(Sorted(all, lt), limit), all, limit, lt)
  {
    var s := Sorted(all, lt);
    var r := Take(s, limit);
    forall x | x in all && x !in r
      ensures |r| == limit && forall y :: y in r ==> lt(y, x)
    {
      var j :| 0 <= j < |s| && s[j] == x;
    }
  }

  /** A strictly ascending sequence has no repeated element. */
  lemma AscendingSize<T(!new)>(s: seq<T>, lt: (T, T) -> bool)
    requires StrictOrder(lt) && Ascending(s, lt)
    ensures |(set x | x in s)| == |s|
  {
    if s == [] {
      assert (set x | x in s) == {};
    } else {
      var n := |s| - 1;
      AscendingSize(s[..n], lt);
      assert (set x | x in s) == (set x | x in s[..n]) + {s[n]};
      assert s[n] !in s[..n];
    }
  }

  lemma IsFirstSize<T(!new)>(r: seq<T>, all: set<T>, limit: nat, lt: (T, T) -> bool)
    requires StrictOrder(lt) && IsFirst(r, all, limit, lt)
    ensures |r| == if |all| <= limit then |all| else limit
  {
    AscendingSize(r, lt);
    var got := set x | x in r;
    assert got <= all;
    SubsetSize(got, all);
    if |r| < limit {
      assert got == all;
    }
  }

  lemma SubsetSize<T>(a: set<T>, b: set<T>)
    requires a <= b
    ensures |a| <= |b|
    ensures |b - a| == |b| - |a|
  {
    assert b == a + (b - a);
  }

  /** The first elements are determined: there is one such list. */
  lemma IsFirstUnique<T(!new)>(r: seq<T>, q: seq<T>, all: set<T>, limit: nat, lt: (T, T) -> bool)
    requires StrictOrder(lt) && IsFirst(r, all, limit, lt) && IsFirst(q, all, limit, lt)
    ensures r == q
  {
    IsFirstSize(r, all, limit, lt);
    IsFirstSize(q, all, limit, lt);
    forall x | x in r ensures x in q { IsFirstSubset(r, q, all, limit, lt, x); }
    forall x | x in q ensures x in r { IsFirstSubset(q, r, all, limit, lt, x); }
    AscendingUnique(r, q, lt);
  }

  lemma IsFirstSubset<T(!new)>(r: seq<T>, q: seq<T>, all: set<T>, limit: nat, lt: (T, T) -> bool, x: T)
    requires StrictOrder(lt) && IsFirst(r, all, limit, lt) && IsFirst(q, all, limit, lt) && |r| == |q|
    requires x in r
    ensures x in q
  {
    if x !in q {
      // every element of q precedes x, and r holds each element before x
      forall y | y in q ensures y in (set z | z in r) - {x} {
        assert lt(y, x);
      }
      AscendingSize(r, lt);
      AscendingSize(q, lt);
      SubsetSize(set z | z in q, (set z | z in r) - {x});
    }
  }

  lemma {:induction false} AscendingUnique<T(!new)>(r: seq<T>, q: seq<T>, lt: (T, T) -> bool)
    requires StrictOrder(lt) && Ascending(r, lt) && Ascending(q, lt)
    requires forall x :: x in r <==> x in q
    ensures r == q
  {
    assert q == [] || q[0] in q;
    assert r == [] || r[0] in r;
    if r != [] {
      assert r[0] in q && q[0] in r;
      assert r[0] == q[0];
      forall x ensures x in r[1..] <==> x in q[1..] {
        if x in r[1..] { var i :| 1 <= i < |r| && r[i] == x; assert lt(r[0], x); assert x in q; }
        if x in q[1..] { var i :| 1 <= i < |q| && q[i] == x; assert lt(q[0], x); assert x in r; }
      }
      AscendingUnique(r[1..], q[1..], lt);
    }
  }

  /** Elements of an ascending sequence from position `i` on number at most the rest of it. */
  lemma FromPosition<T(!new)>(s: seq<T>, later: set<T>, i: nat, lt: (T, T) -> bool)
    requires StrictOrder(lt) && Ascending(s, lt) && i < |s|
    requires forall x :: x in later ==> x in s && !lt(x, s[i])
    ensures |later| <= |s| - i
  {
    var rest := set x | x in s[i..];
    AscendingSize(s[i..], lt);
    forall x | x in later ensures x in rest {
      var j :| 0 <= j < |s| && s[j] == x;
      assert forall l :: 0 <= l < i ==> lt(s[l], s[i]);
      assert s[i..][j - i] == x;
    }
    SubsetSize(later, rest);
  }
}
