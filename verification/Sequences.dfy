/** Sequences without duplicates: positions and removal. */
module Sequences {

  ghost predicate NoDuplicates<T>(s: seq<T>) {
    forall i, j | 0 <= i < j < |s| :: s[i] != s[j]
  }

  /** The position of x, or |s|. */
  function IndexOf<T(==)>(s: seq<T>, x: T): (i: nat)
    ensures i <= |s| && forall k | 0 <= k < i :: s[k] != x
    ensures i < |s| <==> x in s
    ensures i < |s| ==> s[i] == x
  {
    if s == [] then 0 else if s[0] == x then 0 else 1 + IndexOf(s[1..], x)
  }

  /** s with the first occurrence of x taken out. */
  function Without<T(==)>(s: seq<T>, x: T): (r: seq<T>)
    ensures x !in s ==> r == s
  {
    var i := IndexOf(s, x);
    if i == |s| then s else s[..i] + s[i + 1..]
  }

  lemma IndexUnique<T>(s: seq<T>, i: nat)
    requires NoDuplicates(s) && i < |s|
    ensures IndexOf(s, s[i]) == i
  {
    var k := IndexOf(s, s[i]);
    assert s[k] == s[i];
  }

  lemma WithoutMembers<T>(s: seq<T>, x: T)
    requires NoDuplicates(s)
    ensures NoDuplicates(Without(s, x)) && x !in Without(s, x)
    ensures forall y :: y in Without(s, x) <==> y in s && y != x
  {
    var i, r := IndexOf(s, x), Without(s, x);
    if i < |s| {
      forall y ensures y in r <==> y in s && y != x {
        if y in s && y != x {
          var k := IndexOf(s, y);
          assert if k < i then r[k] == y else r[k - 1] == y;
        }
        if y in r {
          var k := IndexOf(r, y);
          assert if k < i then s[k] == y else s[k + 1] == y;
        }
      }
    }
  }

  /** s rotated so that the element at k comes last. */
  function RotateAfter<T>(s: seq<T>, k: nat): (r: seq<T>)
    requires k < |s|
    ensures |r| == |s| && r[|r| - 1] == s[k]
  {
    s[k + 1..] + s[..k + 1]
  }

  lemma RotationMembers<T>(s: seq<T>, k: nat)
    requires k < |s|
    ensures forall y :: y in RotateAfter(s, k) <==> y in s
    ensures NoDuplicates(s) ==> NoDuplicates(RotateAfter(s, k))
  {
    var r := RotateAfter(s, k);
    forall y ensures y in r <==> y in s {
      assert s == s[..k + 1] + s[k + 1..];
    }
  }

  lemma {:induction false} IndexIs<T>(s: seq<T>, x: T, i: nat)
    requires i < |s| && s[i] == x && x !in s[..i]
    ensures IndexOf(s, x) == i
  {
    if i > 0 {
      assert s[0] in s[..i];
      assert s[1..][..i - 1] == s[..i][1..];
      IndexIs(s[1..], x, i - 1);
    }
  }

  lemma WithoutSplit<T>(s: seq<T>, a: seq<T>, x: T, b: seq<T>)
    requires s == a + [x] + b && x !in a
    ensures Without(s, x) == a + b
  {
    assert s[..|a|] == a;
    IndexIs(s, x, |a|);
  }

  /** s rotated so that x comes last. */
  function RotateTo<T(==)>(s: seq<T>, x: T): (r: seq<T>)
    requires x in s
    ensures |r| == |s| && r[|r| - 1] == x
  {
    RotateAfter(s, IndexOf(s, x))
  }

  lemma RotateSplit<T>(s: seq<T>, a: seq<T>, x: T, b: seq<T>)
    requires s == a + [x] + b && x !in a
    ensures RotateTo(s, x) == b + a + [x]
  {
    assert s[..|a|] == a;
    IndexIs(s, x, |a|);
  }

  lemma Split<T>(s: seq<T>, x: T) returns (a: seq<T>, b: seq<T>)
    requires x in s
    ensures s == a + [x] + b && x !in a && (NoDuplicates(s) ==> x !in b)
    ensures NoDuplicates(s) ==> forall y | y in a :: y !in b
  {
    var i := IndexOf(s, x);
    a, b := s[..i], s[i + 1..];
  }

  /** Rotating a rotation is one rotation. */
  lemma RotateTwice<T>(s: seq<T>, c: T, e: T)
    requires NoDuplicates(s) && c in s && e in s
    ensures e in RotateTo(s, c) && RotateTo(RotateTo(s, c), e) == RotateTo(s, e)
  {
    RotationMembers(s, IndexOf(s, c));
    var l, r := Split(s, c);
    RotateSplit(s, l, c, r);
    if e == c {
      RotateSplit(RotateTo(s, c), r + l, c, []);
    } else if e in r {
      var r1, r2 := Split(r, e);
      assert e !in l by {
        assert s == l + ([c] + r);
      }
      RotateForward(s, l, c, r1, e, r2);
    } else {
      var l1, l2 := Split(l, e);
      RotateBackward(s, l1, e, l2, c, r);
    }
  }

  lemma RotateForward<T>(s: seq<T>, l: seq<T>, c: T, m: seq<T>, e: T, r: seq<T>)
    requires s == l + [c] + (m + [e] + r) && c !in l && e !in l && e !in m && e != c
    ensures e in s && c in s && e in RotateTo(s, c) && RotateTo(RotateTo(s, c), e) == RotateTo(s, e)
  {
    hide RotateTo;
    RotateSplit(s, l, c, m + [e] + r);
    var t := (m + [e] + r) + l + [c];
    assert t == m + [e] + (r + l + [c]);
    RotateSplit(t, m, e, r + l + [c]);
    assert s == (l + [c] + m) + [e] + r;
    RotateSplit(s, l + [c] + m, e, r);
    assert (r + l + [c]) + m + [e] == r + (l + [c] + m) + [e];
  }

  lemma RotateBackward<T>(s: seq<T>, l: seq<T>, e: T, m: seq<T>, c: T, r: seq<T>)
    requires s == (l + [e] + m) + [c] + r && c !in l && c !in m && e !in l && e !in r && e != c
    ensures e in s && c in s && e in RotateTo(s, c) && RotateTo(RotateTo(s, c), e) == RotateTo(s, e)
  {
    hide RotateTo;
    RotateSplit(s, l + [e] + m, c, r);
    var t := r + (l + [e] + m) + [c];
    assert t == (r + l) + [e] + (m + [c]);
    RotateSplit(t, r + l, e, m + [c]);
    assert s == l + [e] + (m + [c] + r);
    RotateSplit(s, l, e, m + [c] + r);
    assert (m + [c]) + (r + l) + [e] == (m + [c] + r) + l + [e];
  }

  /** Removing another element commutes with rotating. */
  lemma WithoutRotation<T>(s: seq<T>, e: T, x: T)
    requires NoDuplicates(s) && e in s && e != x
    ensures e in Without(s, x) && Without(RotateTo(s, e), x) == RotateTo(Without(s, x), e)
  {
    WithoutMembers(s, x);
    RotationMembers(s, IndexOf(s, e));
    if x in s {
      var l, r := Split(s, e);
      RotateSplit(s, l, e, r);
      if x in l {
        var l1, l2 := Split(l, x);
        hide NoDuplicates, Without, RotateTo;
        WithoutBefore(s, l1, x, l2, e, r);
      } else {
        var r1, r2 := Split(r, x);
        hide NoDuplicates, Without, RotateTo;
        WithoutBehind(s, l, e, r1, x, r2);
      }
    }
  }

  lemma WithoutBefore<T>(s: seq<T>, l: seq<T>, x: T, m: seq<T>, e: T, r: seq<T>)
    requires s == (l + [x] + m) + [e] + r && e !in l && e !in m && x !in l && x !in r && e != x
    ensures e in s && e in Without(s, x) && Without(RotateTo(s, e), x) == RotateTo(Without(s, x), e)
  {
    hide RotateTo, Without;
    RotateSplit(s, l + [x] + m, e, r);
    assert s == l + [x] + (m + [e] + r);
    WithoutSplit(s, l, x, m + [e] + r);
    var w := l + (m + [e] + r);
    assert w == (l + m) + [e] + r;
    RotateSplit(w, l + m, e, r);
    var t := r + (l + [x] + m) + [e];
    assert t == (r + l) + [x] + (m + [e]);
    WithoutSplit(t, r + l, x, m + [e]);
    assert (r + l) + (m + [e]) == r + (l + m) + [e];
  }

  lemma WithoutBehind<T>(s: seq<T>, l: seq<T>, e: T, m: seq<T>, x: T, r: seq<T>)
    requires s == l + [e] + (m + [x] + r) && e !in l && x !in l && x !in m && e != x
    ensures e in s && e in Without(s, x) && Without(RotateTo(s, e), x) == RotateTo(Without(s, x), e)
  {
    hide RotateTo, Without;
    RotateSplit(s, l, e, m + [x] + r);
    assert s == (l + [e] + m) + [x] + r;
    WithoutSplit(s, l + [e] + m, x, r);
    var w := (l + [e] + m) + r;
    assert w == l + [e] + (m + r);
    RotateSplit(w, l, e, m + r);
    var t := (m + [x] + r) + l + [e];
    assert t == m + [x] + (r + l + [e]);
    WithoutSplit(t, m, x, r + l + [e]);
    assert m + (r + l + [e]) == (m + r) + l + [e];
  }

  /** Rotating so that an earlier element comes last brings later elements to the front. */
  lemma IndexAfterRotation<T>(s: seq<T>, i: nat, j: nat)
    requires NoDuplicates(s) && i < j < |s|
    ensures s[j] in RotateTo(s, s[i]) && IndexOf(RotateTo(s, s[i]), s[j]) == j - i - 1
  {
    IndexUnique(s, i);
    var r := RotateTo(s, s[i]);
    assert r[j - i - 1] == s[j];
    RotationMembers(s, i);
    IndexUnique(r, j - i - 1);
  }

  /** Removing an element that comes later does not move an element. */
  lemma IndexWithoutLater<T>(s: seq<T>, i: nat, j: nat)
    requires NoDuplicates(s) && i < j < |s|
    ensures s[i] in Without(s, s[j]) && IndexOf(Without(s, s[j]), s[i]) == i
  {
    IndexUnique(s, j);
    WithoutMembers(s, s[j]);
    assert Without(s, s[j])[i] == s[i];
    IndexUnique(Without(s, s[j]), i);
  }

  /** A new first element moves every other element back by at most one place in each rotation. */
  lemma IndexPushed<T>(s: seq<T>, n: T, x: T, t: T)
    requires NoDuplicates(s) && n !in s && x in s && t in s
    ensures IndexOf(RotateTo([n] + s, x), t) <= IndexOf(RotateTo(s, x), t) + 1
  {
    hide *;
    var l, r := Split(s, x);
    RotateSplit(s, l, x, r);
    RotateToMembers(s, x);
    IndexInserted(r, n, l + [x], t);
    assert r + (l + [x]) == r + l + [x];
    var m := [n] + l;
    assert x !in m;
    assert [n] + s == m + [x] + r;
    RotateSplit([n] + s, m, x, r);
    assert r + [n] + (l + [x]) == r + m + [x];
  }

  lemma IndexInserted<T>(a: seq<T>, n: T, b: seq<T>, t: T)
    requires t in a + b
    ensures IndexOf(a + [n] + b, t) <= IndexOf(a + b, t) + 1
  {
    hide IndexOf;
    var i := IndexOf(a + b, t);
    if i < |a| {
      assert (a + [n] + b)[i] == (a + b)[i];
      IndexAtMost(a + [n] + b, t, i);
    } else {
      assert (a + [n] + b)[i + 1] == (a + b)[i];
      IndexAtMost(a + [n] + b, t, i + 1);
    }
  }

  lemma {:induction false} IndexAtMost<T>(s: seq<T>, x: T, i: nat)
    requires i < |s| && s[i] == x
    ensures IndexOf(s, x) <= i
  {
    if i > 0 {
      IndexAtMost(s[1..], x, i - 1);
    }
  }

  /** Going on from an earlier element brings t closer and keeps it ahead of the element that comes last. */
  lemma RotateAhead<T>(s: seq<T>, c: T, order: seq<T>, i: nat, j: nat)
    requires NoDuplicates(s) && c in s && order == RotateTo(s, c) && i < j < |s| - 1
    ensures order[i] in s && order[i] != order[j] && order[j] in RotateTo(s, order[i]) && c in RotateTo(s, order[i])
    ensures IndexOf(RotateTo(s, order[i]), order[j]) == j - i - 1 < IndexOf(RotateTo(s, order[i]), c)
  {
    RotateToMembers(s, c);
    assert order[i] in order && order[|s| - 1] == c && order[i] != order[j];
    hide RotateTo, NoDuplicates, IndexOf;
    IndexAfterRotation(order, i, j);
    IndexAfterRotation(order, i, |s| - 1);
    RotateTwice(s, c, order[i]);
  }

  lemma RotateToMembers<T>(s: seq<T>, c: T)
    requires c in s
    ensures forall y :: y in RotateTo(s, c) <==> y in s
    ensures NoDuplicates(s) ==> NoDuplicates(RotateTo(s, c))
  {
    RotationMembers(s, IndexOf(s, c));
  }
}
