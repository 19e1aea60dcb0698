/** Searching, neighbours and removal in compat/rbtree/rb.c, on trees as values. */
module RbWalk {
  import opened Common
  import opened RbShape
  import opened RbRules
  import opened RbHeap
  import opened RbSwap
  import opened RbMoves
  import opened RbOrder

  // ---------------------------------------------------------------------------
  // Finding a focus
  // ---------------------------------------------------------------------------

  /** Every node of a tree can be focused. */
  lemma {:induction false} Locate(c: Ctx, t: Tree, x: Ref) returns (c': Ctx, t': Tree)
    requires x in Seq(t)
    ensures Plug(c', t') == Plug(c, t) && t'.N? && t'.id == x
    decreases t
  {
    if t.id == x {
      c', t' := c, t;
    } else if x in Seq(t.left) {
      MakeSides(t, L);
      c', t' := Locate(Below(c, t, L), t.left, x);
    } else {
      MakeSides(t, R);
      c', t' := Locate(Below(c, t, R), t.right, x);
    }
  }

  lemma {:induction false} SeqIsIds(t: Tree)
    ensures forall x :: x in Seq(t) <==> x in Ids(t)
  {
    if t.N? {
      SeqIsIds(t.left);
      SeqIsIds(t.right);
    }
  }

  /** The in-order sequence lists exactly the nodes in memory. */
  lemma SeqIsMemory(h: Heap, t: Tree)
    requires Focus(h, Top, t)
    ensures forall x :: x in Seq(t) <==> x in h.nodes
    ensures 0 !in Seq(t)
  {
    SeqIsIds(t);
    IdsKnown(h.nodes, t, 0, L);
  }

  /** One step down a search path: what is left behind is on the right side of the key. */
  lemma SearchStep(diff: Ref -> int, c: Ctx, t: Tree, d: Dir)
    requires t.N? && Cut(diff, All(c, t)) && Split(diff, Pre(c), Post(c))
    requires if d == R then diff(t.id) < 0 else diff(t.id) > 0
    ensures Split(diff, Pre(Below(c, t, d)), Post(Below(c, t, d)))
  {
    var s, k := All(c, t), |Pre(c)| + |Seq(t.left)|;
    assert s[k] == t.id;
    if d == R {
      forall y | y in Seq(t.left) ensures diff(y) < 0 {
        var i :| 0 <= i < |Seq(t.left)| && Seq(t.left)[i] == y;
        assert s[|Pre(c)| + i] == y;
      }
    } else {
      forall y | y in Seq(t.right) ensures diff(y) > 0 {
        var i :| 0 <= i < |Seq(t.right)| && Seq(t.right)[i] == y;
        assert s[k + 1 + i] == y;
      }
    }
  }

  lemma SearchEnd(diff: Ref -> int, c: Ctx)
    requires Split(diff, Pre(c), Post(c)) && 0 !in All(c, E)
    ensures forall y :: y in All(c, E) ==> diff(y) != 0
    ensures IsGeq(diff, All(c, E), FirstOf(Post(c)))
    ensures IsLeq(diff, All(c, E), LastOf(Pre(c)))
  {
    var a, b := Pre(c), Post(c);
    assert All(c, E) == a + b;
    assert 0 !in a && 0 !in b;
    if b != [] {
      assert b == [b[0]] + b[1..] && b[0] in b;
      GeqFound(diff, a, b[0], b[1..]);
      assert a + [b[0]] + b[1..] == a + b;
    }
    if a != [] {
      var z := a[|a| - 1];
      assert a == a[..|a| - 1] + [z] && z in a;
      LeqFound(diff, a[..|a| - 1], z, b);
      assert a[..|a| - 1] + [z] + b == a + b;
    }
  }

  /** The focused node in the in-order sequence. */
  lemma Around(c: Ctx, t: Tree)
    requires t.N?
    ensures All(c, t) == (Pre(c) + Seq(t.left)) + [t.id] + (Seq(t.right) + Post(c)) && t.id in All(c, t)
  {
    var s := (Pre(c) + Seq(t.left)) + [t.id] + (Seq(t.right) + Post(c));
    assert All(c, t) == s;
    assert s[|Pre(c) + Seq(t.left)|] == t.id;
  }

  // ---------------------------------------------------------------------------
  // Neighbours
  // ---------------------------------------------------------------------------

  lemma {:induction false} SpineSeq(a: Ctx, b: Ctx, d: Dir)
    requires Spine(a, d)
    ensures d == L ==> Pre(Append(a, b)) == Pre(b)
    ensures d == R ==> Post(Append(a, b)) == Post(b)
  {
    if a.In? {
      SpineSeq(a.up, b, d);
    }
  }

  /** The extreme node towards the focused one, in the subtree on side `d`, is its neighbour. */
  lemma InnermostIsNeighbour(c: Ctx, t: Tree, d: Dir, a: Ctx, s: Tree)
    requires t.N? && s.N? && Spine(a, Other(d)) && Side(s, Other(d)) == E
    requires All(Append(a, Below(c, t, d)), s) == All(c, t)
    ensures IsNeighbour(All(c, t), t.id, d, s.id)
  {
    var ctx := Append(a, Below(c, t, d));
    SpineSeq(a, Below(c, t, d), Other(d));
    Around(ctx, s);
    var all := All(c, t);
    if d == R {
      var k := |Pre(ctx)|;
      assert all[k] == s.id;
      assert Pre(ctx) == Pre(c) + Seq(t.left) + [t.id];
      assert all[k - 1] == t.id;
      assert NextTo(all, k - 1, d) == s.id;
    } else {
      var k := |Pre(ctx)| + |Seq(s.left)|;
      assert all[k] == s.id;
      assert Post(ctx) == [t.id] + Seq(t.right) + Post(c);
      assert all[k + 1] == t.id;
      assert NextTo(all, k + 1, d) == s.id;
    }
  }

  /** `x` is the last node of `t` towards side `d`. */
  ghost predicate AtEdge(t: Tree, d: Dir, x: Ref)
  {
    Seq(t) != [] && x == if d == R then LastOf(Seq(t)) else FirstOf(Seq(t))
  }

  lemma EdgeStart(t: Tree, d: Dir)
    requires t.N? && Side(t, d) == E
    ensures AtEdge(t, d, t.id)
  {
  }

  lemma EdgeUp(c: Ctx, t: Tree, d: Dir, x: Ref)
    requires AtEdge(t, d, x) && c.In? && c.dir == d
    ensures AtEdge(Father(c, t), d, x)
  {
  }

  /** From the edge of a subtree the neighbour is the father above it, or there is none. */
  lemma EdgeNeighbour(c: Ctx, t: Tree, d: Dir, x: Ref)
    requires AtEdge(t, d, x) && (c.In? ==> c.dir == Other(d))
    ensures IsNeighbour(All(c, t), x, d, FatherOf(c))
  {
    if c.In? {
      Neighbour(c);
    }
    var s, q := All(c, t), Seq(t);
    if d == R {
      var k := |Pre(c)| + |q| - 1;
      assert s[k] == x;
      assert NextTo(s, k, d) == FirstOf(Post(c));
    } else {
      var k := |Pre(c)|;
      assert s[k] == x;
      assert NextTo(s, k, d) == LastOf(Pre(c));
    }
  }

  // ---------------------------------------------------------------------------
  // The cached extremes
  // ---------------------------------------------------------------------------

  lemma FirstIs(a: seq<Ref>, x: Ref, b: seq<Ref>)
    requires NoDup(a + [x] + b)
    ensures FirstOf(a + [x] + b) == x <==> a == []
    ensures LastOf(a + [x] + b) == x <==> b == []
  {
    MiddleIsNew(a, x, b);
    var s := a + [x] + b;
    assert a != [] ==> s[0] == a[0] && a[0] in a;
    assert b != [] ==> s[|s| - 1] == b[|b| - 1] && b[|b| - 1] in b;
  }

  /** A new leaf below a cached extreme, on its side, is the new extreme. */
  lemma InsertExtremes(c: Ctx, x: Ref, min: Ref, max: Ref)
    requires c.In? && NoDup(Pre(c) + Post(c)) && ExtremesOf(min, max, Pre(c) + Post(c))
    ensures c.dir == L ==> ExtremesOf(if c.id == min then x else min, max, Pre(c) + [x] + Post(c))
    ensures c.dir == R ==> ExtremesOf(min, if c.id == max then x else max, Pre(c) + [x] + Post(c))
  {
    Neighbour(c);
    var a, b := Pre(c), Post(c);
    if c.dir == L {
      assert a + [c.id] + b[1..] == a + b;
      FirstIs(a, c.id, b[1..]);
    } else {
      assert a[..|a| - 1] + [c.id] + b == a + b;
      FirstIs(a[..|a| - 1], c.id, b);
    }
  }

  /** A leaf that was an extreme hands this over to its father. */
  lemma PruneExtremes(c: Ctx, x: Ref, min: Ref, max: Ref)
    requires c.In? && NoDup(Pre(c) + [x] + Post(c)) && ExtremesOf(min, max, Pre(c) + [x] + Post(c))
    ensures c.dir == L ==> ExtremesOf(if min == x then c.id else min, max, Pre(c) + Post(c))
    ensures c.dir == R ==> ExtremesOf(min, if max == x then c.id else max, Pre(c) + Post(c))
  {
    Neighbour(c);
    FirstIs(Pre(c), x, Post(c));
  }

  /** A node with one child `y` that was an extreme hands this over to the child. */
  lemma BranchExtremes(c: Ctx, w: Dir, y: Ref, x: Ref, min: Ref, max: Ref)
    requires var s := if w == L then [y, x] else [x, y];
             NoDup(Pre(c) + s + Post(c)) && ExtremesOf(min, max, Pre(c) + s + Post(c))
    ensures c.Top? ==> ExtremesOf(if w == R then y else min, if w == L then y else max, [y])
    ensures c.In? && c.dir == L ==> ExtremesOf(if min == x then y else min, max, Pre(c) + [y] + Post(c))
    ensures c.In? && c.dir == R ==> ExtremesOf(min, if max == x then y else max, Pre(c) + [y] + Post(c))
  {
    var a, b := Pre(c), Post(c);
    if c.In? {
      Neighbour(c);
    }
    if w == L {
      assert (a + [y]) + [x] + b == a + [y, x] + b;
      FirstIs(a + [y], x, b);
    } else {
      assert a + [x] + ([y] + b) == a + [x, y] + b;
      FirstIs(a, x, [y] + b);
    }
  }

  /** A node with two children is no extreme. */
  lemma InsideExtremes(a: seq<Ref>, x: Ref, b: seq<Ref>, min: Ref, max: Ref)
    requires a != [] && b != [] && NoDup(a + [x] + b) && ExtremesOf(min, max, a + [x] + b)
    ensures min != x && max != x && ExtremesOf(min, max, a + b)
  {
    FirstIs(a, x, b);
  }

  // ---------------------------------------------------------------------------
  // What leaves
  // ---------------------------------------------------------------------------

  /** A leaf enters: black as the root, and otherwise red. */
  lemma LeafIn(c: Ctx, x: Ref, n: nat)
    requires Good(c, E, n)
    ensures c.Top? ==> Good(c, N(E, x, false, E), 1)
    ensures TakesRed(c) ==> Good(c, N(E, x, true, E), 0)
    ensures c.In? && c.red ==> RedRed(c, N(E, x, true, E), 0)
  {
    assert n == 0;
    assert Well(E, 0);
  }

  /** A leaf leaves. */
  lemma LeafOut(c: Ctx, x: Ref, red: bool, n: nat)
    requires Good(c, N(E, x, red, E), n)
    ensures red || c.Top? ==> Good(c, E, 0)
    ensures !red && c.In? ==> Deficit(c, E, 0)
  {
    assert Well(E, if red then n else n - 1);
  }

  lemma LeafSeq(c: Ctx, x: Ref, red: bool)
    ensures All(c, N(E, x, red, E)) == Pre(c) + [x] + Post(c) && All(c, E) == Pre(c) + Post(c)
  {
    assert Seq(N(E, x, red, E)) == [x];
  }

  /** A node with one child is black and the child a red leaf. */
  lemma BranchOut(c: Ctx, w: Dir, son: Tree, x: Ref, red: bool, n: nat)
    requires Good(c, Make(w, son, x, red, E), n) && son.N?
    ensures n == 1 && !red && son.red && son.left == E && son.right == E && Good(c, Painted(son, false), n)
  {
    var m := if red then n else n - 1;
    assert Well(E, m) && Well(son, m);
    assert Well(son.left, 0) && Well(son.right, 0) && Black(son.left) && Black(son.right);
    assert Well(Painted(son, false), 1);
  }

  lemma BranchSeq(c: Ctx, w: Dir, y: Ref, x: Ref, red: bool, yr: bool)
    ensures All(c, Make(w, N(E, y, yr, E), x, red, E)) == Pre(c) + (if w == L then [y, x] else [x, y]) + Post(c)
    ensures All(c, N(E, y, yr, E)) == Pre(c) + [y] + Post(c)
  {
    var t := N(E, y, yr, E);
    assert Seq(t) == [y];
    assert Seq(Make(w, t, x, red, E)) == if w == L then [y, x] else [x, y];
  }

  lemma {:induction false} RenamedWell(a: Ctx, w: Dir, x: Ref, y: Ref, red: bool, far: Tree, c: Ctx, n: nat)
    ensures CtxWell(Append(a, In(w, x, red, far, c)), n) <==> CtxWell(Append(a, In(w, y, red, far, c)), n)
    ensures TakesRed(Append(a, In(w, x, red, far, c))) <==> TakesRed(Append(a, In(w, y, red, far, c)))
  {
    if a.In? {
      RenamedWell(a.up, w, x, y, red, far, c, if a.red then n else n + 1);
    }
  }

  /** The colour rules after the stand-in `s` has moved up. */
  lemma SwapOut(a: Ctx, c: Ctx, w: Dir, far: Tree, x: Ref, red: bool, s: Ref, sr: bool, son: Tree, n: nat)
    requires Good(Append(a, In(w, x, red, far, c)), Make(w, son, s, sr, E), n)
    ensures son.N? ==> !sr && son.red
    ensures var ctx := Append(a, In(w, s, red, far, c));
            if sr || son.N? then Good(ctx, Repaint(son, false), if sr then 0 else 1) else Deficit(ctx, E, 0)
  {
    var before := Append(a, In(w, x, red, far, c));
    assert before.In? && Append(a, In(w, s, red, far, c)).In?;
    if son.N? {
      BranchOut(before, w, son, s, sr, n);
    } else {
      assert Make(w, son, s, sr, E) == N(E, s, sr, E);
      LeafOut(before, s, sr, n);
    }
    RenamedWell(a, w, x, s, red, far, c, 0);
    RenamedWell(a, w, x, s, red, far, c, 1);
  }

  lemma {:induction false} AppendSeq(a: Ctx, b: Ctx)
    ensures Pre(Append(a, b)) == Pre(b) + Pre(a) && Post(Append(a, b)) == Post(a) + Post(b)
  {
    if a.In? {
      AppendSeq(a.up, b);
    }
  }

  /** The in-order sequence around the node before the swap, and after it. */
  lemma SwapSeq(a: Ctx, c: Ctx, w: Dir, far: Tree, x: Ref, red: bool, s: Ref, sr: bool, son: Tree) returns (u: seq<Ref>, v: seq<Ref>)
    requires Spine(a, Other(w)) && far.N?
    ensures u != [] && v != []
    ensures All(Append(a, In(w, x, red, far, c)), Make(w, son, s, sr, E)) == u + [x] + v
    ensures All(Append(a, In(w, s, red, far, c)), Repaint(son, false)) == u + v
  {
    if w == R {
      u, v := Pre(c) + Seq(far), [s] + Seq(son) + Post(a) + Post(c);
      SwapSeqRight(a, c, far, x, red, s, sr, son);
    } else {
      u, v := Pre(c) + Pre(a) + Seq(son) + [s], Seq(far) + Post(c);
      SwapSeqLeft(a, c, far, x, red, s, sr, son);
    }
  }

  lemma CtxParts(x: Ref, red: bool, far: Tree, c: Ctx)
    ensures Pre(In(R, x, red, far, c)) == (Pre(c) + Seq(far)) + [x] && Post(In(R, x, red, far, c)) == Post(c)
    ensures Pre(In(L, x, red, far, c)) == Pre(c) && Post(In(L, x, red, far, c)) == [x] + (Seq(far) + Post(c))
  {
    Assoc([x], Seq(far), Post(c));
  }

  lemma Assoc(a: seq<Ref>, b: seq<Ref>, c: seq<Ref>)
    ensures a + b + c == a + (b + c)
  {
  }

  lemma SonParts(son: Tree, s: Ref, sr: bool)
    ensures Seq(Repaint(son, false)) == Seq(son)
    ensures Seq(Make(R, son, s, sr, E)) == [s] + Seq(son) && Seq(Make(L, son, s, sr, E)) == Seq(son) + [s]
  {
  }

  lemma SpineLeft(a: Ctx, b: Ctx)
    requires Spine(a, L)
    ensures Pre(Append(a, b)) == Pre(b) && Post(Append(a, b)) == Post(a) + Post(b)
  {
    AppendSeq(a, b);
    SpineSeq(a, b, L);
  }

  lemma SpineRight(a: Ctx, b: Ctx)
    requires Spine(a, R)
    ensures Pre(Append(a, b)) == Pre(b) + Pre(a) && Post(Append(a, b)) == Post(b)
  {
    AppendSeq(a, b);
    SpineSeq(a, b, R);
  }

  lemma SwapSeqRight(a: Ctx, c: Ctx, far: Tree, x: Ref, red: bool, s: Ref, sr: bool, son: Tree)
    requires Spine(a, L)
    ensures var u, v := Pre(c) + Seq(far), [s] + Seq(son) + Post(a) + Post(c);
            && All(Append(a, In(R, x, red, far, c)), Make(R, son, s, sr, E)) == u + [x] + v
            && All(Append(a, In(R, s, red, far, c)), Repaint(son, false)) == u + v
  {
    hide Pre, Post, Seq, Append, Make, Spine, Repaint;
    SpineLeft(a, In(R, x, red, far, c));
    SpineLeft(a, In(R, s, red, far, c));
    CtxParts(x, red, far, c);
    CtxParts(s, red, far, c);
    SonParts(son, s, sr);
    MovedAfter(Pre(c) + Seq(far), x, s, Seq(son), Post(a), Post(c));
  }

  lemma SwapSeqLeft(a: Ctx, c: Ctx, far: Tree, x: Ref, red: bool, s: Ref, sr: bool, son: Tree)
    requires Spine(a, R)
    ensures var u, v := Pre(c) + Pre(a) + Seq(son) + [s], Seq(far) + Post(c);
            && All(Append(a, In(L, x, red, far, c)), Make(L, son, s, sr, E)) == u + [x] + v
            && All(Append(a, In(L, s, red, far, c)), Repaint(son, false)) == u + v
  {
    hide Pre, Post, Seq, Append, Make, Spine, Repaint;
    SpineRight(a, In(L, x, red, far, c));
    SpineRight(a, In(L, s, red, far, c));
    CtxParts(x, red, far, c);
    CtxParts(s, red, far, c);
    SonParts(son, s, sr);
    MovedBefore(Pre(c) + Pre(a), x, s, Seq(son), Seq(far) + Post(c));
  }

  lemma MovedAfter(a: seq<Ref>, x: Ref, s: Ref, q: seq<Ref>, p: seq<Ref>, r: seq<Ref>)
    ensures (a + [x]) + ([s] + q) + (p + r) == a + [x] + ([s] + q + p + r)
    ensures (a + [s]) + q + (p + r) == a + ([s] + q + p + r)
  {
  }

  lemma MovedBefore(a: seq<Ref>, x: Ref, s: Ref, q: seq<Ref>, r: seq<Ref>)
    ensures a + (q + [s]) + ([x] + r) == (a + q + [s]) + [x] + r
    ensures a + q + ([s] + r) == (a + q + [s]) + r
  {
  }
}
