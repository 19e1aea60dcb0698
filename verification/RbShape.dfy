/**
 Red-black trees as values (compat/rbtree/rb.c without its pointers): the in-order sequence,
 the colour rules, and a focus inside a tree, i.e. a subtree together with what surrounds it.
 */
module RbShape {

  /** Nodes are named by positive numbers; zero is the sentinel (NULL). */
  type Ref = nat

  datatype Dir = L | R

  function Other(d: Dir): (o: Dir)
  {
    if d == L then R else L
  }

  datatype Tree = E | N(left: Tree, id: Ref, red: bool, right: Tree)

  /** The nodes above a focus, innermost first; `dir` is the side on which the focus hangs. */
  datatype Ctx = Top | In(dir: Dir, id: Ref, red: bool, sib: Tree, up: Ctx)

  /** A node with `near` on side `d` and `far` on the other. */
  function Make(d: Dir, near: Tree, id: Ref, red: bool, far: Tree): (t: Tree)
  {
    if d == L then N(near, id, red, far) else N(far, id, red, near)
  }

  function Side(t: Tree, d: Dir): (s: Tree)
    requires t.N?
  {
    if d == L then t.left else t.right
  }

  function Plug(c: Ctx, t: Tree): (r: Tree)
  {
    match c
    case Top => t
    case In(d, id, red, sib, up) => Plug(up, Make(d, t, id, red, sib))
  }

  // ---------------------------------------------------------------------------
  // In-order sequence
  // ---------------------------------------------------------------------------

  function Seq(t: Tree): (s: seq<Ref>)
  {
    match t
    case E => []
    case N(l, id, _, r) => Seq(l) + [id] + Seq(r)
  }

  /** What comes before the focus. */
  function Pre(c: Ctx): (s: seq<Ref>)
  {
    match c
    case Top => []
    case In(d, id, _, sib, up) => if d == L then Pre(up) else Pre(up) + Seq(sib) + [id]
  }

  /** What comes after the focus. */
  function Post(c: Ctx): (s: seq<Ref>)
  {
    match c
    case Top => []
    case In(d, id, _, sib, up) => if d == L then [id] + Seq(sib) + Post(up) else Post(up)
  }

  /** The whole in-order sequence, seen from a focus. */
  function All(c: Ctx, t: Tree): (s: seq<Ref>)
  {
    Pre(c) + Seq(t) + Post(c)
  }

  /** Moving the focus between a node and its child does not change the sequence. */
  lemma AllUp(d: Dir, t: Tree, id: Ref, red: bool, sib: Tree, up: Ctx)
    ensures All(In(d, id, red, sib, up), t) == All(up, Make(d, t, id, red, sib))
  {
    if d == L {
      Regroup(Pre(up), Seq(t), [id] + Seq(sib), Post(up));
      assert Seq(t) + ([id] + Seq(sib)) == Seq(t) + [id] + Seq(sib);
    } else {
      Regroup(Pre(up), Seq(sib) + [id], Seq(t), Post(up));
      assert Pre(up) + (Seq(sib) + [id]) == Pre(up) + Seq(sib) + [id];
    }
  }

  lemma Regroup(a: seq<Ref>, b: seq<Ref>, c: seq<Ref>, d: seq<Ref>)
    ensures a + b + (c + d) == a + (b + c) + d == (a + b) + c + d
  {
  }

  lemma {:induction false} AllIsSeq(c: Ctx, t: Tree)
    ensures All(c, t) == Seq(Plug(c, t))
  {
    if c.In? {
      AllUp(c.dir, t, c.id, c.red, c.sib, c.up);
      AllIsSeq(c.up, Make(c.dir, t, c.id, c.red, c.sib));
    }
  }

  /** The node above the focus is the in-order neighbour on its side. */
  lemma Neighbour(c: Ctx)
    requires c.In?
    ensures c.dir == L ==> Post(c) != [] && Post(c)[0] == c.id
    ensures c.dir == R ==> Pre(c) != [] && Pre(c)[|Pre(c)| - 1] == c.id
  {
  }

  // ---------------------------------------------------------------------------
  // Colour rules
  // ---------------------------------------------------------------------------

  predicate Black(t: Tree)
  {
    t.E? || !t.red
  }

  /** No red node has a red child, and every path down has `n` black nodes. */
  ghost predicate Well(t: Tree, n: nat)
  {
    match t
    case E => n == 0
    case N(l, _, red, r) =>
      if red then Black(l) && Black(r) && Well(l, n) && Well(r, n)
      else n > 0 && Well(l, n - 1) && Well(r, n - 1)
  }

  /** A focus under which a red subtree may hang: below a black node. */
  predicate TakesRed(c: Ctx)
  {
    c.In? && !c.red
  }

  /** The surroundings obey the rules if the focus has black height `n`. */
  ghost predicate CtxWell(c: Ctx, n: nat)
  {
    match c
    case Top => true
    case In(_, _, red, sib, up) =>
      && Well(sib, n)
      && (red ==> Black(sib) && TakesRed(up))
      && CtxWell(up, if red then n else n + 1)
  }

  /** The tree around the focus is a red-black tree. */
  ghost predicate Good(c: Ctx, t: Tree, n: nat)
  {
    CtxWell(c, n) && Well(t, n) && (Black(t) || TakesRed(c))
  }

  /** Black root, no red child of a red node, equal black heights. */
  ghost predicate RedBlack(t: Tree)
  {
    Black(t) && exists n :: Well(t, n)
  }

  lemma GoodUp(d: Dir, t: Tree, id: Ref, red: bool, sib: Tree, up: Ctx, n: nat)
    ensures Good(In(d, id, red, sib, up), t, n) && (red ==> Black(t))
       ==> Good(up, Make(d, t, id, red, sib), if red then n else n + 1)
  {
  }

  lemma GoodDown(d: Dir, t: Tree, id: Ref, red: bool, sib: Tree, up: Ctx, m: nat)
    requires Good(up, Make(d, t, id, red, sib), m)
    ensures red || m > 0
    ensures Good(In(d, id, red, sib, up), t, if red then m else m - 1)
  {
  }

  lemma {:induction false} GoodIsRedBlack(c: Ctx, t: Tree, n: nat)
    requires Good(c, t, n)
    ensures RedBlack(Plug(c, t))
  {
    if c.In? {
      var m := if c.red then n else n + 1;
      GoodUp(c.dir, t, c.id, c.red, c.sib, c.up, n);
      GoodIsRedBlack(c.up, Make(c.dir, t, c.id, c.red, c.sib), m);
    }
  }

  /** In a red-black tree every focus has a black height with which it is good. */
  lemma {:induction false} RedBlackIsGood(c: Ctx, t: Tree) returns (n: nat)
    requires RedBlack(Plug(c, t))
    ensures Good(c, t, n)
  {
    if c.Top? {
      n :| Well(t, n);
    } else {
      var m := RedBlackIsGood(c.up, Make(c.dir, t, c.id, c.red, c.sib));
      GoodDown(c.dir, t, c.id, c.red, c.sib, c.up, m);
      n := if c.red then m else m - 1;
    }
  }

  // ---------------------------------------------------------------------------
  // Height
  // ---------------------------------------------------------------------------

  function Depth(t: Tree): (d: nat)
  {
    match t
    case E => 0
    case N(l, _, _, r) => 1 + if Depth(l) > Depth(r) then Depth(l) else Depth(r)
  }

  function Pow2(n: nat): (p: nat)
    ensures p > 0
  {
    if n == 0 then 1 else 2 * Pow2(n - 1)
  }

  lemma {:induction false} Pow2Grows(a: nat, b: nat)
    requires a <= b
    ensures Pow2(a) <= Pow2(b)
    decreases b
  {
    if a < b {
      Pow2Grows(a, b - 1);
    }
  }

  lemma {:induction false} Pow2Twice(n: nat)
    ensures Pow2(2 * n) == Pow2(n) * Pow2(n)
  {
    if n > 0 {
      Pow2Twice(n - 1);
      assert Pow2(2 * n) == 2 * Pow2(2 * n - 1) == 4 * Pow2(2 * (n - 1));
      assert Pow2(n) * Pow2(n) == 2 * Pow2(n - 1) * (2 * Pow2(n - 1));
    }
  }

  lemma {:induction false} ManyNodes(t: Tree, n: nat)
    requires Well(t, n)
    ensures |Seq(t)| + 1 >= Pow2(n)
  {
    if t.N? {
      var m := if t.red then n else n - 1;
      ManyNodes(t.left, m);
      ManyNodes(t.right, m);
    }
  }

  lemma {:induction false} ShortPaths(t: Tree, n: nat)
    requires Well(t, n)
    ensures Depth(t) <= 2 * n + if Black(t) then 0 else 1
  {
    if t.N? {
      var m := if t.red then n else n - 1;
      ShortPaths(t.left, m);
      ShortPaths(t.right, m);
    }
  }

  /** Paths have at most 2 * log2(size + 1) nodes. */
  lemma HeightBound(t: Tree)
    requires RedBlack(t)
    ensures Pow2(Depth(t)) <= (|Seq(t)| + 1) * (|Seq(t)| + 1)
  {
    var n: nat :| Well(t, n);
    ManyNodes(t, n);
    ShortPaths(t, n);
    Pow2Grows(Depth(t), 2 * n);
    Pow2Twice(n);
    Squares(Pow2(n), |Seq(t)| + 1);
  }

  lemma Squares(a: nat, b: nat)
    requires a <= b
    ensures a * a <= b * b
  {
    assert a * a <= a * b <= b * b;
  }
}
