/**
 Boyer-Moore search (src/str/bm.c): the linear-time suffix table, the good-suffix table,
 the bad-character table and the skip loop, proved equal to naive leftmost search.
 */
module BoyerMoore {
  import opened Common

  const ASIZE := 256

  // ---------------------------------------------------------------------------
  // Specification
  // ---------------------------------------------------------------------------

  /** The byte at `j` comes back `d` positions later. */
  ghost predicate Repeats(x: seq<Byte>, j: int, d: int)
  {
    0 <= j < |x| && 0 <= j + d < |x| && x[j] == x[j + d]
  }

  ghost predicate RepeatsOn(x: seq<Byte>, lo: int, hi: int, d: int)
  {
    forall j :: lo <= j < hi ==> Repeats(x, j, d)
  }

  /** The `k` bytes of `x` that end at position `i` are the last `k` bytes of `x`. */
  ghost predicate EndsLikePattern(x: seq<Byte>, i: nat, k: nat)
    requires i < |x|
  {
    k <= i + 1 && x[i + 1 - k..i + 1] == x[|x| - k..]
  }

  /** `k` is the length of the longest common suffix of `x[..i+1]` and `x`. */
  ghost predicate IsSuffixLength(x: seq<Byte>, i: nat, k: int)
    requires i < |x|
  {
    0 <= k && EndsLikePattern(x, i, k) && forall l: nat :: EndsLikePattern(x, i, l) ==> l <= k
  }

  /** Bytewise form of IsSuffixLength: `k` matches going left, then a mismatch or the left end. */
  ghost predicate RunLength(x: seq<Byte>, i: nat, k: int)
    requires i < |x|
  {
    && 0 <= k <= i + 1
    && RepeatsOn(x, i + 1 - k, i + 1, |x| - 1 - i)
    && (k <= i ==> x[i - k] != x[|x| - 1 - k])
  }

  /** The prefix that remains after shifting by `s` is also a suffix of `x`. */
  ghost predicate BorderShift(x: seq<Byte>, s: nat)
    requires s <= |x|
  {
    RepeatsOn(x, 0, |x| - s, s)
  }

  /**
   Shift `s` is compatible with a mismatch at `i` that follows a match of `x[i+1..]`:
   it re-aligns the matched suffix with equal bytes (or runs off the left end) and puts
   a different byte, or nothing, under position `i`.
   */
  ghost predicate GoodShift(x: seq<Byte>, i: nat, s: nat)
    requires i < |x|
  {
    && 1 <= s <= |x|
    && RepeatsOn(x, if s <= i then i + 1 - s else 0, |x| - s, s)
    && (s <= i ==> x[i - s] != x[i])
  }

  /** `s` is the least shift compatible with a mismatch at `i`. */
  ghost predicate IsGoodSuffix(x: seq<Byte>, i: nat, s: int)
    requires i < |x|
  {
    0 <= s && GoodShift(x, i, s) && forall r: nat :: GoodShift(x, i, r) ==> s <= r
  }

  /** Distance from the end of `x` of the last `c` before the final position, or `|x|`. */
  ghost predicate IsBadCharacter(x: seq<Byte>, c: Byte, d: int)
    requires |x| >= 1
  {
    && 1 <= d <= |x|
    && (d < |x| ==> x[|x| - 1 - d] == c)
    && (forall k :: |x| - 1 - d < k < |x| - 1 ==> x[k] != c)
  }

  ghost predicate OccursAt(p: seq<Byte>, t: seq<Byte>, j: int)
  {
    0 <= j <= |t| - |p| && t[j..j + |p|] == p
  }

  /** What a search promises: the leftmost occurrence, or None exactly when there is none. */
  ghost predicate IsLeftmost(p: seq<Byte>, t: seq<Byte>, r: Option<nat>)
  {
    match r
    case None => forall j :: !OccursAt(p, t, j)
    case Some(k) => OccursAt(p, t, k) && forall j :: OccursAt(p, t, j) ==> k <= j
  }

  // ---------------------------------------------------------------------------
  // Facts about the specification
  // ---------------------------------------------------------------------------

  lemma RunIsSuffixLength(x: seq<Byte>, i: nat, k: int)
    requires i < |x| && RunLength(x, i, k)
    ensures IsSuffixLength(x, i, k)
  {
    var m := |x|;
    var d, here, end := m - 1 - i, x[i + 1 - k..i + 1], x[m - k..];
    forall q | 0 <= q < k ensures here[q] == end[q] {
      assert Repeats(x, i + 1 - k + q, d);
    }
    forall l: nat | k < l <= i + 1 ensures !EndsLikePattern(x, i, l) {
      assert x[i + 1 - l..i + 1][l - 1 - k] != x[m - l..][l - 1 - k];
    }
  }

  lemma SuffixLengthIsRun(x: seq<Byte>, i: nat, k: int)
    requires i < |x| && IsSuffixLength(x, i, k)
    ensures RunLength(x, i, k)
  {
    var m := |x|;
    var d := m - 1 - i;
    forall j | i - k < j <= i ensures Repeats(x, j, d) {
      assert x[i + 1 - k..i + 1][j - (i + 1 - k)] == x[m - k..][j - (i + 1 - k)];
    }
    if k <= i {
      assert !EndsLikePattern(x, i, k + 1);
      assert x[i - k..i + 1] == [x[i - k]] + x[i + 1 - k..i + 1];
      assert x[m - k - 1..] == [x[m - k - 1]] + x[m - k..];
    }
  }

  /** A border of length `m-s` is what a suffix length that reaches the left end says. */
  lemma RunIsBorder(x: seq<Byte>, s: nat, k: int)
    requires 0 <= s < |x| && RunLength(x, |x| - 1 - s, k)
    ensures k == |x| - s <==> BorderShift(x, s)
  {
    var i := |x| - 1 - s;
    if k <= i {
      assert !Repeats(x, i - k, s);
    }
  }

  /** A short shift is good at `i` exactly when the run that it re-aligns stops at `i`. */
  lemma RunIsShortShift(x: seq<Byte>, i: nat, s: nat, k: int)
    requires 1 <= s <= i < |x| && RunLength(x, |x| - 1 - s, k)
    ensures k == |x| - 1 - i <==> GoodShift(x, i, s)
  {
    var e := |x| - 1 - s;
    if k < |x| - 1 - i {
      assert !Repeats(x, e - k, s);
    } else if k > |x| - 1 - i {
      assert Repeats(x, i - s, s);
    }
  }

  /** Shifts past `i` are good exactly when they are border shifts. */
  lemma LongShiftIsBorder(x: seq<Byte>, i: nat, s: nat)
    requires i < s <= |x|
    ensures GoodShift(x, i, s) <==> BorderShift(x, s)
  {
  }

  /** Leftmost results are unique, so two searches that promise it agree. */
  lemma LeftmostIsUnique(p: seq<Byte>, t: seq<Byte>, a: Option<nat>, b: Option<nat>)
    requires IsLeftmost(p, t, a) && IsLeftmost(p, t, b)
    ensures a == b
  {
    assert a.Some? ==> OccursAt(p, t, a.value);
    assert b.Some? ==> OccursAt(p, t, b.value);
  }

  // ---------------------------------------------------------------------------
  // Preprocessing
  // ---------------------------------------------------------------------------

  method PreBmBc(x: seq<Byte>, bmBc: array<int>)
    requires 1 <= |x| && bmBc.Length == ASIZE
    modifies bmBc
    ensures forall c: Byte :: IsBadCharacter(x, c, bmBc[c])
  {
    var m := |x|;
    for i := 0 to ASIZE
      invariant forall c :: 0 <= c < i ==> bmBc[c] == m
    {
      bmBc[i] := m;
    }
    for i := 0 to m - 1
      invariant forall c: Byte :: m - i <= bmBc[c] <= m
      invariant forall c: Byte :: bmBc[c] < m ==> x[m - 1 - bmBc[c]] == c
      invariant forall c: Byte, k :: m - 1 - bmBc[c] < k < i ==> x[k] != c
    {
      bmBc[x[i]] := m - i - 1;
    }
  }

  /** `x[g+1..f]` repeats the end of the pattern: what the last run of comparisons learnt. */
  ghost predicate Window(x: seq<Byte>, f: int, g: int)
  {
    && -1 <= g <= f < |x| - 1
    && RepeatsOn(x, g + 1, f + 1, |x| - 1 - f)
  }

  /** Inside the window a run that stops early is copied from its image near the end. */
  lemma CopiedRun(x: seq<Byte>, f: int, g: int, i: nat, k: int)
    requires Window(x, f, g) && g < i < f
    requires RunLength(x, i + |x| - 1 - f, k) && k < i - g
    ensures RunLength(x, i, k)
  {
    var d := |x| - 1 - f;
    assert Repeats(x, i - k, d);
    var d' := |x| - 1 - i;
    forall j | i - k < j <= i ensures Repeats(x, j, d') {
      assert Repeats(x, j, d) && Repeats(x, j + d, f - i);
    }
  }

  /** Inside the window a run that does not stop early matches down to `g` at least. */
  lemma ExtendedRun(x: seq<Byte>, f: int, g: int, i: nat, k: int)
    requires Window(x, f, g) && g < i < f
    requires RunLength(x, i + |x| - 1 - f, k) && k >= i - g
    ensures Window(x, i, g)
  {
    var d := |x| - 1 - f;
    var d' := |x| - 1 - i;
    forall j | g < j <= i ensures Repeats(x, j, d') {
      assert Repeats(x, j, d) && Repeats(x, j + d, f - i);
    }
  }

  /**
   `matches` counts the successful byte comparisons of the inner loop over the whole run:
   at most `|x|`, because `g` never increases and every success decreases it.
   */
  method Suffixes(x: seq<Byte>, suff: array<int>) returns (ghost matches: nat)
    requires 1 <= |x| == suff.Length
    modifies suff
    ensures forall i :: 0 <= i < |x| ==> IsSuffixLength(x, i, suff[i])
    ensures matches <= |x|
  {
    var m := |x|;
    var f, g := 0, m - 1;
    matches := 0;
    suff[m - 1] := m;
    for i := m - 1 downto 0
      invariant forall k :: i <= k < m ==> RunLength(x, k, suff[k])
      invariant if i == m - 1 then g == m - 1 else i <= f && Window(x, f, g)
      invariant matches + g <= m - 1
    {
      if i > g && suff[i + m - 1 - f] < i - g {
        assert RunLength(x, i + m - 1 - f, suff[i + m - 1 - f]);
        CopiedRun(x, f, g, i, suff[i + m - 1 - f]);
        suff[i] := suff[i + m - 1 - f];
      } else {
        if i > g {
          ExtendedRun(x, f, g, i, suff[i + m - 1 - f]);
        }
        if i < g {
          g := i;
        }
        f := i;
        while g >= 0 && x[g] == x[g + m - 1 - f]
          invariant Window(x, f, g)
          invariant matches + g <= m - 1
        {
          g := g - 1;
          matches := matches + 1;
        }
        assert RunLength(x, i, f - g);
        suff[i] := f - g;
      }
    }
    forall i | 0 <= i < m ensures IsSuffixLength(x, i, suff[i]) {
      RunIsSuffixLength(x, i, suff[i]);
    }
  }

  /** `b` is the least border shift greater than `j`. */
  ghost predicate NextBorder(x: seq<Byte>, j: nat, b: int)
  {
    && j < b <= |x|
    && BorderShift(x, b)
    && forall s :: j < s < b ==> !BorderShift(x, s)
  }

  /** First half of preBmGs: shifts that run off the left end of the pattern. */
  method FillBorders(x: seq<Byte>, suff: array<int>, bmGs: array<int>)
    requires 1 <= |x| == suff.Length == bmGs.Length && suff != bmGs
    requires forall i :: 0 <= i < |x| ==> RunLength(x, i, suff[i])
    modifies bmGs
    ensures forall j :: 0 <= j < |x| ==> NextBorder(x, j, bmGs[j])
  {
    var m := |x|;
    for i := 0 to m
      invariant forall j :: 0 <= j < i ==> bmGs[j] == m
    {
      bmGs[i] := m;
    }
    var j := 0;
    for i := m downto 0
      invariant 0 <= j < m && (if i == m then j == 0 else j < m - i)
      invariant forall q :: 0 <= q < j ==> NextBorder(x, q, bmGs[q])
      invariant forall q :: j <= q < m ==> bmGs[q] == m
      invariant forall s :: j < s < m - i ==> !BorderShift(x, s)
    {
      RunIsBorder(x, m - 1 - i, suff[i]);
      if suff[i] == i + 1 {
        while j < m - 1 - i
          invariant 0 <= j <= m - 1 - i
          invariant forall q :: 0 <= q < j ==> NextBorder(x, q, bmGs[q])
          invariant forall q :: j <= q < m ==> bmGs[q] == m
          invariant forall s :: j < s < m - 1 - i ==> !BorderShift(x, s)
        {
          if bmGs[j] == m {
            bmGs[j] := m - 1 - i;
          }
          j := j + 1;
        }
      }
    }
  }

  /** After positions `0..n` of the last loop: borders, overridden by the re-aligning shifts. */
  ghost predicate PartialGoodSuffix(x: seq<Byte>, n: nat, i: nat, s: int)
    requires i < |x|
  {
    && 1 <= s <= |x|
    && GoodShift(x, i, s)
    && forall r: nat :: GoodShift(x, i, r) && (r > i || r > |x| - 1 - n) ==> s <= r
  }

  lemma BorderIsPartial(x: seq<Byte>, i: nat, b: int)
    requires i < |x| && NextBorder(x, i, b)
    ensures PartialGoodSuffix(x, 0, i, b)
  {
    LongShiftIsBorder(x, i, b);
    forall r: nat | GoodShift(x, i, r) && (r > i || r > |x| - 1) ensures b <= r {
      LongShiftIsBorder(x, i, r);
    }
  }

  /** The step of the last loop for position `n`, at the index that it overwrites. */
  lemma OverwrittenStep(x: seq<Byte>, n: nat, k: int)
    requires n <= |x| - 2 && RunLength(x, n, k)
    ensures PartialGoodSuffix(x, n + 1, |x| - 1 - k, |x| - 1 - n)
  {
    var i, s := |x| - 1 - k, |x| - 1 - n;
    if s <= i {
      RunIsShortShift(x, i, s, k);
    } else {
      RunIsBorder(x, s, k);
      LongShiftIsBorder(x, i, s);
    }
  }

  /** The step of the last loop for position `n`, at every other index. */
  lemma UntouchedStep(x: seq<Byte>, n: nat, k: int, i: nat, s: int)
    requires n <= |x| - 2 && RunLength(x, n, k)
    requires i < |x| && i != |x| - 1 - k
    requires PartialGoodSuffix(x, n, i, s)
    ensures PartialGoodSuffix(x, n + 1, i, s)
  {
    forall r: nat | GoodShift(x, i, r) && (r > i || r > |x| - 2 - n) ensures s <= r {
      if r <= i && r == |x| - 1 - n {
        RunIsShortShift(x, i, r, k);
      }
    }
  }

  method PreBmGs(x: seq<Byte>, bmGs: array<int>)
    requires 1 <= |x| == bmGs.Length
    modifies bmGs
    ensures forall i :: 0 <= i < |x| ==> IsGoodSuffix(x, i, bmGs[i])
  {
    var m := |x|;
    var suff := new int[m];
    ghost var _ := Suffixes(x, suff);
    forall i | 0 <= i < m ensures RunLength(x, i, suff[i]) {
      SuffixLengthIsRun(x, i, suff[i]);
    }
    FillBorders(x, suff, bmGs);
    forall i | 0 <= i < m ensures PartialGoodSuffix(x, 0, i, bmGs[i]) {
      BorderIsPartial(x, i, bmGs[i]);
    }
    for n := 0 to m - 1
      invariant forall i :: 0 <= i < m ==> RunLength(x, i, suff[i])
      invariant forall i :: 0 <= i < m ==> PartialGoodSuffix(x, n, i, bmGs[i])
    {
      OverwrittenStep(x, n, suff[n]);
      forall i | 0 <= i < m && i != m - 1 - suff[n] ensures PartialGoodSuffix(x, n + 1, i, bmGs[i]) {
        UntouchedStep(x, n, suff[n], i, bmGs[i]);
      }
      bmGs[m - 1 - suff[n]] := m - 1 - n;
    }
  }

  // ---------------------------------------------------------------------------
  // Searching
  // ---------------------------------------------------------------------------

  /** No occurrence starts strictly between `j` and `j + shift`. */
  lemma SkipIsSafe(p: seq<Byte>, t: seq<Byte>, j: nat, i: nat, gs: int, bc: int, q: int)
    requires 1 <= |p| && i < |p| && j + |p| <= |t|
    requires forall k :: i < k < |p| ==> p[k] == t[k + j]
    requires p[i] != t[i + j]
    requires IsGoodSuffix(p, i, gs) && IsBadCharacter(p, t[i + j], bc)
    requires j <= q && (q < j + gs || q < j + bc - |p| + 1 + i)
    ensures !OccursAt(p, t, q)
  {
    var s := q - j;
    if OccursAt(p, t, q) {
      assert forall k :: 0 <= k < |p| ==> p[k] == t[q..q + |p|][k] == t[q + k];
      assert p[i] == t[q + i];
      assert s <= i ==> p[i - s] == t[i + j];
      assert s > 0 && s <= |p| ==> GoodShift(p, i, s) by {
        forall k | 0 <= k && i < k + s < |p| ensures Repeats(p, k, s) {
          assert p[k] == t[q + k] == t[k + s + j];
        }
      }
    }
  }

  /** The skip loop, shared by the one-shot and the context form of the search. */
  method Scan(p: seq<Byte>, t: seq<Byte>, bmGs: array<int>, bmBc: array<int>) returns (r: Option<nat>)
    requires 1 <= |p| <= |t| && bmGs.Length == |p| && bmBc.Length == ASIZE
    requires forall i :: 0 <= i < |p| ==> IsGoodSuffix(p, i, bmGs[i])
    requires forall c: Byte :: IsBadCharacter(p, c, bmBc[c])
    ensures IsLeftmost(p, t, r)
  {
    var pl, tl := |p|, |t|;
    var j := 0;
    while j <= tl - pl
      invariant 0 <= j
      invariant forall q :: q < j ==> !OccursAt(p, t, q)
    {
      var i := pl - 1;
      while i >= 0 && p[i] == t[i + j]
        invariant -1 <= i < pl
        invariant forall k :: i < k < pl ==> p[k] == t[k + j]
      {
        i := i - 1;
      }
      if i < 0 {
        assert t[j..j + pl] == p;
        return Some(j);
      }
      var gs, bc := bmGs[i], bmBc[t[i + j]];
      assert IsGoodSuffix(p, i, gs);
      assert IsBadCharacter(p, t[i + j], bc);
      var shift := if gs > bc - pl + 1 + i then gs else bc - pl + 1 + i;
      forall q | j <= q < j + shift ensures !OccursAt(p, t, q) {
        SkipIsSafe(p, t, j, i, gs, bc, q);
      }
      j := j + shift;
    }
    r := None;
  }

  method Search(p: seq<Byte>, t: seq<Byte>) returns (r: Option<nat>)
    requires 1 <= |p|
    ensures IsLeftmost(p, t, r)
  {
    if |p| > |t| {
      return None;
    }
    var bmGs := new int[|p|];
    var bmBc := new int[ASIZE];
    PreBmGs(p, bmGs);
    PreBmBc(p, bmBc);
    r := Scan(p, t, bmGs, bmBc);
  }

  /** A prepared search: the tables are computed once and only read afterwards. */
  class SearchContext {
    const pattern: seq<Byte>
    const bmBc: array<int>
    const bmGs: array<int>

    ghost predicate Valid()
      reads this, bmBc, bmGs
    {
      && 1 <= |pattern| == bmGs.Length && bmBc.Length == ASIZE
      && (forall i :: 0 <= i < |pattern| ==> IsGoodSuffix(pattern, i, bmGs[i]))
      && forall c: Byte :: IsBadCharacter(pattern, c, bmBc[c])
    }

    constructor (p: seq<Byte>)
      requires 1 <= |p|
      ensures Valid() && pattern == p && fresh(bmBc) && fresh(bmGs)
    {
      pattern := p;
      var gs := new int[|p|];
      var bc := new int[ASIZE];
      PreBmGs(p, gs);
      PreBmBc(p, bc);
      bmGs, bmBc := gs, bc;
    }

    method Search(t: seq<Byte>) returns (r: Option<nat>)
      requires Valid()
      ensures IsLeftmost(pattern, t, r)
    {
      if |pattern| > |t| {
        return None;
      }
      r := Scan(pattern, t, bmGs, bmBc);
    }
  }
}
