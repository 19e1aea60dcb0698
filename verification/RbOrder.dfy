/** Sorted sequences of nodes: what the comparison callbacks of a red-black tree promise and demand. */
module RbOrder {
  import opened Common
  import opened RbShape

  /** rbto_compare_nodes: negative, zero or positive as the first node is before, equal to or after the second. */
  type Compare = (Ref, Ref) -> int

  ghost predicate IsOrder(cmp: Compare)
  {
    && (forall a, b :: cmp(a, b) < 0 <==> cmp(b, a) > 0)
    && (forall a, b, c :: cmp(a, b) <= 0 && cmp(b, c) <= 0 ==> cmp(a, c) <= 0)
    && (forall a, b, c :: cmp(a, b) < 0 && cmp(b, c) <= 0 ==> cmp(a, c) < 0)
    && (forall a, b, c :: cmp(a, b) <= 0 && cmp(b, c) < 0 ==> cmp(a, c) < 0)
  }

  ghost predicate Sorted(cmp: Compare, s: seq<Ref>)
  {
    forall i, j :: 0 <= i < j < |s| ==> cmp(s[i], s[j]) < 0
  }

  /** rbto_compare_key for one key: first come nodes below it, then at most one equal to it, then nodes above it. */
  ghost predicate Cut(diff: Ref -> int, s: seq<Ref>)
  {
    forall i, j :: 0 <= i < j < |s| && diff(s[i]) >= 0 ==> diff(s[j]) > 0
  }

  function Against(cmp: Compare, x: Ref): (diff: Ref -> int)
  {
    (y: Ref) => cmp(y, x)
  }

  lemma SortedIsCut(cmp: Compare, s: seq<Ref>, x: Ref)
    requires IsOrder(cmp) && Sorted(cmp, s)
    ensures Cut(Against(cmp, x), s)
  {
    forall i, j | 0 <= i < j < |s| && cmp(s[i], x) >= 0 ensures cmp(s[j], x) > 0 {
      Above(cmp, s[i], s[j], x);
    }
  }

  lemma Above(cmp: Compare, a: Ref, b: Ref, x: Ref)
    requires IsOrder(cmp) && cmp(a, b) < 0 && cmp(a, x) >= 0
    ensures cmp(b, x) > 0
  {
    assert cmp(x, a) <= 0;
    assert cmp(x, b) < 0;
  }

  lemma SortedIsNoDup(cmp: Compare, s: seq<Ref>)
    requires IsOrder(cmp) && Sorted(cmp, s)
    ensures NoDup(s)
  {
    forall i, j | 0 <= i < j < |s| ensures s[i] != s[j] {
      assert cmp(s[i], s[j]) < 0;
      assert cmp(s[j], s[i]) > 0;
    }
  }

  /** All of `a` is below and all of `b` above the key. */
  ghost predicate Split(diff: Ref -> int, a: seq<Ref>, b: seq<Ref>)
  {
    (forall y :: y in a ==> diff(y) < 0) && (forall y :: y in b ==> diff(y) > 0)
  }

  lemma SortedInsert(cmp: Compare, a: seq<Ref>, x: Ref, b: seq<Ref>)
    requires IsOrder(cmp) && Sorted(cmp, a + b) && Split(Against(cmp, x), a, b)
    ensures Sorted(cmp, a + [x] + b)
  {
    var s, u := a + b, a + [x] + b;
    forall i, j | 0 <= i < j < |u| ensures cmp(u[i], u[j]) < 0 {
      if i < |a| && j == |a| {
        assert u[i] in a;
      } else if i == |a| {
        assert u[j] in b;
        assert cmp(u[j], x) > 0;
      } else {
        assert u[i] == s[if i < |a| then i else i - 1];
        assert u[j] == s[if j < |a| then j else j - 1];
      }
    }
  }

  /** `s` without its first occurrence of `x`. */
  function Erased(s: seq<Ref>, x: Ref): (r: seq<Ref>)
  {
    if s == [] then [] else if s[0] == x then s[1..] else [s[0]] + Erased(s[1..], x)
  }

  lemma {:induction false} ErasedMiddle(a: seq<Ref>, x: Ref, b: seq<Ref>)
    requires x !in a
    ensures Erased(a + [x] + b, x) == a + b
  {
    var s := a + [x] + b;
    if a == [] {
      assert s[1..] == b;
    } else {
      ErasedMiddle(a[1..], x, b);
      assert s[1..] == a[1..] + [x] + b;
      assert a == [a[0]] + a[1..];
    }
  }

  lemma SortedParts(cmp: Compare, a: seq<Ref>, x: Ref, b: seq<Ref>)
    requires Sorted(cmp, a + [x] + b)
    ensures Sorted(cmp, a + b)
  {
    var s, u := a + [x] + b, a + b;
    forall i, j | 0 <= i < j < |u| ensures cmp(u[i], u[j]) < 0 {
      assert u[i] == s[if i < |a| then i else i + 1];
      assert u[j] == s[if j < |a| then j else j + 1];
    }
  }

  lemma MiddleIsNew(a: seq<Ref>, x: Ref, b: seq<Ref>)
    requires NoDup(a + [x] + b)
    ensures x !in a && x !in b
  {
    var s := a + [x] + b;
    assert s[|a|] == x;
    forall i | 0 <= i < |a| ensures a[i] != x {
      assert s[i] == a[i];
    }
    forall i | 0 <= i < |b| ensures b[i] != x {
      assert s[|a| + 1 + i] == b[i];
    }
  }

  /** The neighbour of position `i` in a direction, or the sentinel at the end. */
  function NextTo(s: seq<Ref>, i: nat, d: Dir): (x: Ref)
    requires i < |s|
  {
    if d == R then (if i + 1 < |s| then s[i + 1] else 0) else (if i > 0 then s[i - 1] else 0)
  }

  /** `y` is the in-order neighbour of `x` on side `d`. */
  ghost predicate IsNeighbour(s: seq<Ref>, x: Ref, d: Dir, y: Ref)
  {
    exists i :: 0 <= i < |s| && s[i] == x && y == NextTo(s, i, d)
  }

  function FirstOf(s: seq<Ref>): (x: Ref)
  {
    if s == [] then 0 else s[0]
  }

  function LastOf(s: seq<Ref>): (x: Ref)
  {
    if s == [] then 0 else s[|s| - 1]
  }

  /** The cached extremes are those of a non-empty tree. */
  ghost predicate ExtremesOf(min: Ref, max: Ref, s: seq<Ref>)
  {
    s != [] ==> min == FirstOf(s) && max == LastOf(s)
  }

  /** The least node that is not below the key. */
  ghost predicate IsGeq(diff: Ref -> int, s: seq<Ref>, x: Ref)
  {
    if x == 0 then forall y :: y in s ==> diff(y) < 0
    else exists i :: 0 <= i < |s| && s[i] == x && diff(x) >= 0 && forall j :: 0 <= j < i ==> diff(s[j]) < 0
  }

  /** The greatest node that is not above the key. */
  ghost predicate IsLeq(diff: Ref -> int, s: seq<Ref>, x: Ref)
  {
    if x == 0 then forall y :: y in s ==> diff(y) > 0
    else exists i :: 0 <= i < |s| && s[i] == x && diff(x) <= 0 && forall j :: i < j < |s| ==> diff(s[j]) > 0
  }

  lemma GeqFound(diff: Ref -> int, a: seq<Ref>, x: Ref, b: seq<Ref>)
    requires Split(diff, a, []) && diff(x) >= 0 && x != 0
    ensures IsGeq(diff, a + [x] + b, x)
  {
    var s := a + [x] + b;
    assert s[|a|] == x;
    forall j | 0 <= j < |a| ensures diff(s[j]) < 0 {
      assert s[j] in a;
    }
  }

  lemma LeqFound(diff: Ref -> int, a: seq<Ref>, x: Ref, b: seq<Ref>)
    requires Split(diff, [], b) && diff(x) <= 0 && x != 0
    ensures IsLeq(diff, a + [x] + b, x)
  {
    var s := a + [x] + b;
    assert s[|a|] == x;
    forall j | |a| < j < |s| ensures diff(s[j]) > 0 {
      assert s[j] == b[j - |a| - 1];
    }
  }

  lemma CutHit(diff: Ref -> int, a: seq<Ref>, x: Ref, b: seq<Ref>)
    requires Cut(diff, a + [x] + b) && diff(x) == 0 && x != 0
    ensures IsGeq(diff, a + [x] + b, x) && IsLeq(diff, a + [x] + b, x)
  {
    var s := a + [x] + b;
    assert s[|a|] == x;
    forall y | y in a ensures diff(y) < 0 {
      var i :| 0 <= i < |a| && a[i] == y;
      assert s[i] == y;
    }
    forall y | y in b ensures diff(y) > 0 {
      var i :| 0 <= i < |b| && b[i] == y;
      assert s[|a| + 1 + i] == y;
    }
    GeqFound(diff, a, x, b);
    LeqFound(diff, a, x, b);
  }

  /** `u` is `s` with `x` put in somewhere. */
  ghost predicate IsInsertion(s: seq<Ref>, x: Ref, u: seq<Ref>)
  {
    exists i :: 0 <= i <= |s| && u == s[..i] + [x] + s[i..]
  }

  lemma InsertedBetween(a: seq<Ref>, x: Ref, b: seq<Ref>)
    ensures IsInsertion(a + b, x, a + [x] + b)
  {
    var s := a + b;
    assert s[..|a|] == a && s[|a|..] == b;
  }
}
