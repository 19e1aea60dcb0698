/** Concatenation of a sequence of sequences, seen as a walk and as a multiset. */
module Flattening {

  ghost function Flatten<T>(ss: seq<seq<T>>): (r: seq<T>)
  {
    if ss == [] then [] else Flatten(ss[..|ss| - 1]) + ss[|ss| - 1]
  }

  ghost function CountNonEmpty<T>(ss: seq<seq<T>>): (r: nat)
    ensures r <= |ss|
  {
    if ss == [] then 0 else CountNonEmpty(ss[..|ss| - 1]) + (if ss[|ss| - 1] == [] then 0 else 1)
  }

  lemma {:induction false} FlattenConcat<T>(a: seq<seq<T>>, b: seq<seq<T>>)
    ensures Flatten(a + b) == Flatten(a) + Flatten(b)
    ensures CountNonEmpty(a + b) == CountNonEmpty(a) + CountNonEmpty(b)
  {
    if b == [] {
      assert a + b == a;
    } else {
      var b' := b[..|b| - 1];
      FlattenConcat(a, b');
      assert (a + b)[..|a + b| - 1] == a + b';
    }
  }

  lemma FlattenMiddle<T>(a: seq<seq<T>>, x: seq<T>, b: seq<seq<T>>)
    ensures Flatten(a + [x] + b) == Flatten(a) + x + Flatten(b)
    ensures CountNonEmpty(a + [x] + b) == CountNonEmpty(a) + (if x == [] then 0 else 1) + CountNonEmpty(b)
  {
    FlattenConcat(a + [x], b);
    FlattenConcat(a, [x]);
    assert Flatten([x]) == Flatten([]) + x;
  }

  lemma FlattenSplit<T>(ss: seq<seq<T>>, i: nat)
    requires i < |ss|
    ensures Flatten(ss) == Flatten(ss[..i]) + ss[i] + Flatten(ss[i + 1..])
    ensures CountNonEmpty(ss)
         == CountNonEmpty(ss[..i]) + (if ss[i] == [] then 0 else 1) + CountNonEmpty(ss[i + 1..])
  {
    var a, x, b := ss[..i], ss[i], ss[i + 1..];
    assert ss == a + [x] + b;
    FlattenMiddle(a, x, b);
  }

  /** Replacing one element changes the totals by that element's contribution. */
  lemma FlattenUpdate<T>(ss: seq<seq<T>>, i: nat, s: seq<T>)
    requires i < |ss|
    ensures multiset(Flatten(ss[i := s])) + multiset(ss[i]) == multiset(Flatten(ss)) + multiset(s)
    ensures CountNonEmpty(ss[i := s]) + (if ss[i] == [] then 0 else 1)
         == CountNonEmpty(ss) + (if s == [] then 0 else 1)
  {
    FlattenSplit(ss, i);
    FlattenSplit(ss[i := s], i);
    assert ss[i := s][..i] == ss[..i] && ss[i := s][i + 1..] == ss[i + 1..];
  }

  lemma {:induction false} InFlatten<T>(ss: seq<seq<T>>, x: T)
    ensures x in Flatten(ss) <==> exists i :: 0 <= i < |ss| && x in ss[i]
  {
    if ss != [] {
      var n := |ss| - 1;
      InFlatten(ss[..n], x);
      assert forall i :: 0 <= i < n ==> ss[..n][i] == ss[i];
    }
  }

  lemma {:induction false} FlattenOfEmpties<T>(ss: seq<seq<T>>)
    requires forall i :: 0 <= i < |ss| ==> ss[i] == []
    ensures Flatten(ss) == [] && CountNonEmpty(ss) == 0
  {
    if ss != [] {
      FlattenOfEmpties(ss[..|ss| - 1]);
    }
  }

  lemma {:induction false} SameNonEmpty<T>(a: seq<seq<T>>, b: seq<seq<T>>)
    requires |a| == |b| && forall i :: 0 <= i < |a| ==> (a[i] == [] <==> b[i] == [])
    ensures CountNonEmpty(a) == CountNonEmpty(b)
  {
    if a != [] {
      var n := |a| - 1;
      assert a[n] == [] <==> b[n] == [];
      assert forall i :: 0 <= i < n ==> a[..n][i] == a[i] && b[..n][i] == b[i];
      SameNonEmpty(a[..n], b[..n]);
    }
  }

  /** Elementwise no longer, and shorter at `j`: the whole is shorter. */
  lemma {:induction false} FlattenShorter<T>(a: seq<seq<T>>, b: seq<seq<T>>, j: int)
    requires |a| == |b| && forall i :: 0 <= i < |a| ==> |a[i]| <= |b[i]|
    requires 0 <= j < |a| ==> |a[j]| < |b[j]|
    ensures |Flatten(a)| <= |Flatten(b)|
    ensures 0 <= j < |a| ==> |Flatten(a)| < |Flatten(b)|
  {
    if a != [] {
      var n := |a| - 1;
      assert forall i :: 0 <= i < n ==> a[..n][i] == a[i] && b[..n][i] == b[i];
      FlattenShorter(a[..n], b[..n], j);
      assert |a[n]| <= |b[n]|;
    }
  }
}
