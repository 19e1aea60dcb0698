/**
 The rebalancing cases of compat/rbtree/rb.c on trees as values: each case either restores the
 colour rules or moves the one violation closer to the root; none changes the in-order sequence.
 */
module RbRules {
  import opened RbShape

  /** rb_tree_reparent_nodes: the child on side `w` and its father swap places and colours. */
  function Rotated(w: Dir, t: Tree): (r: Tree)
    requires t.N? && Side(t, w).N?
  {
    var x := Side(t, w);
    Make(w, Side(x, w), x.id, t.red, Make(w, Side(x, Other(w)), t.id, x.red, Side(t, Other(w))))
  }

  function Painted(t: Tree, red: bool): (r: Tree)
    requires t.N?
  {
    t.(red := red)
  }

  lemma RotatedSeq(w: Dir, t: Tree)
    requires t.N? && Side(t, w).N?
    ensures Seq(Rotated(w, t)) == Seq(t)
  {
    var x := Side(t, w);
    if w == L {
      assert Seq(t) == Seq(x.left) + [x.id] + Seq(x.right) + [t.id] + Seq(t.right);
    } else {
      assert Seq(t) == Seq(t.left) + [t.id] + Seq(x.left) + [x.id] + Seq(x.right);
    }
  }

  // ---------------------------------------------------------------------------
  // Insertion
  // ---------------------------------------------------------------------------

  /** The only violation is a red focus below a red node. */
  ghost predicate RedRed(c: Ctx, t: Tree, n: nat)
  {
    CtxWell(c, n) && Well(t, n) && !Black(t) && c.In? && c.red
  }

  /** There is a black grandfather then. */
  lemma HasGrandpa(c: Ctx, t: Tree, n: nat)
    requires RedRed(c, t, n)
    ensures c.up.In? && !c.up.red && Well(c.sib, n) && Black(c.sib) && Well(c.up.sib, n) && CtxWell(c.up.up, n + 1)
  {
    assert CtxWell(c.up, n);
  }

  /** The grandfather's subtree as it stands. */
  function Family(c: Ctx, t: Tree): (r: Tree)
    requires c.In? && c.up.In?
  {
    Make(c.up.dir, Make(c.dir, t, c.id, c.red, c.sib), c.up.id, c.up.red, c.up.sib)
  }

  /** Case 1: father and uncle become black, the grandfather `red`. */
  function Inverted(c: Ctx, t: Tree, red: bool): (r: Tree)
    requires c.In? && c.up.In? && c.up.sib.N?
  {
    Make(c.up.dir, Make(c.dir, t, c.id, false, c.sib), c.up.id, red, Painted(c.up.sib, false))
  }

  lemma InvertedOk(c: Ctx, t: Tree, n: nat)
    requires RedRed(c, t, n) && !Black(c.up.sib)
    ensures c.up.up.Top? ==> Good(Top, Inverted(c, t, false), n + 2)
    ensures TakesRed(c.up.up) ==> Good(c.up.up, Inverted(c, t, true), n + 1)
    ensures c.up.up.In? && c.up.up.red ==> RedRed(c.up.up, Inverted(c, t, true), n + 1)
  {
    HasGrandpa(c, t, n);
  }

  /** Case 2 leads to case 3. */
  lemma InnerToOuter(c: Ctx, t: Tree, n: nat)
    requires RedRed(c, t, n) && c.up.In? && c.dir == Other(c.up.dir)
    ensures var f := Make(c.dir, t, c.id, c.red, c.sib);
            var w, r := c.up.dir, Rotated(c.dir, f);
            r.N? && Side(r, w).N? && Side(r, w).id == c.id
            && RedRed(In(w, r.id, r.red, Side(r, Other(w)), c.up), Side(r, w), n)
  {
    HasGrandpa(c, t, n);
  }

  /** Case 3: one rotation at the grandfather restores the rules. */
  lemma OuterOk(c: Ctx, t: Tree, n: nat)
    requires RedRed(c, t, n) && c.up.In? && c.dir == c.up.dir && Black(c.up.sib)
    ensures Good(c.up.up, Rotated(c.up.dir, Family(c, t)), n + 1)
  {
    HasGrandpa(c, t, n);
  }

  // ---------------------------------------------------------------------------
  // Removal
  // ---------------------------------------------------------------------------

  /** The only violation is that the focus is one black node short. */
  ghost predicate Deficit(c: Ctx, t: Tree, n: nat)
  {
    CtxWell(c, n + 1) && Well(t, n) && Black(t) && c.In?
  }

  function Father(c: Ctx, t: Tree): (r: Tree)
    requires c.In?
  {
    Make(c.dir, t, c.id, c.red, c.sib)
  }

  /** There is a brother then, and a red one has two black sons. */
  lemma HasBrother(c: Ctx, t: Tree, n: nat)
    requires Deficit(c, t, n)
    ensures c.sib.N?
    ensures c.sib.red ==> !c.red && c.sib.left.N? && c.sib.right.N? && Black(c.sib.left) && Black(c.sib.right)
  {
    assert Well(c.sib, n + 1);
    if c.sib.red {
      assert Well(c.sib.left, n + 1) && Well(c.sib.right, n + 1);
    }
  }

  /** Case 1: a red brother takes the father's place; the new brother is black. */
  lemma RedBrother(c: Ctx, t: Tree, n: nat)
    requires Deficit(c, t, n) && c.sib.N? && c.sib.red
    ensures var w, o := c.dir, Other(c.dir);
            var r := Rotated(o, Father(c, t));
            r.N? && Side(r, w).N? && Side(r, w).id == c.id && Side(r, w).red && Side(Side(r, w), w) == t
            && var s := Side(Side(r, w), o);
            s.N? && !s.red && Deficit(In(w, c.id, true, s, In(w, r.id, r.red, Side(r, o), c.up)), t, n)
  {
    HasBrother(c, t, n);
  }

  /** Case 2: father, brother and nephews are black; the deficit moves up, or leaves at the root. */
  lemma AllBlack(c: Ctx, t: Tree, n: nat)
    requires Deficit(c, t, n) && !c.red && c.sib.N? && !c.sib.red && Black(c.sib.left) && Black(c.sib.right)
    ensures var r := Father(c.(sib := Painted(c.sib, true)), t);
            if c.up.Top? then Good(c.up, r, n + 1) else Deficit(c.up, r, n + 1)
  {
  }

  /** Case 2b: a red father and a black brother exchange their colours. */
  lemma RedFather(c: Ctx, t: Tree, n: nat)
    requires Deficit(c, t, n) && c.red && c.sib.N? && !c.sib.red && Black(c.sib.left) && Black(c.sib.right)
    ensures Good(c.up, Father(c.(red := false, sib := Painted(c.sib, true)), t), n + 1)
  {
  }

  /** Case 3: a red near nephew takes the brother's place, and case 4 is reached. */
  lemma NearNephew(c: Ctx, t: Tree, n: nat)
    requires Deficit(c, t, n) && c.sib.N? && !c.sib.red
    requires !Black(Side(c.sib, c.dir)) && Black(Side(c.sib, Other(c.dir)))
    ensures var b := Rotated(c.dir, c.sib);
            Deficit(c.(sib := b), t, n) && b.N? && !b.red && Side(b, Other(c.dir)).N? && Side(b, Other(c.dir)).red
  {
    var x := Side(c.sib, c.dir);
    assert Well(x, n) && Well(x.left, n) && Well(x.right, n) && Well(Side(c.sib, Other(c.dir)), n);
    assert Black(x.left) && Black(x.right);
    var b := Rotated(c.dir, c.sib);
    assert Well(Side(b, Other(c.dir)), n) && Well(b, n + 1);
  }

  /** The brother with its far son painted black. */
  function FarBlack(c: Ctx): (b: Tree)
    requires c.In? && c.sib.N? && Side(c.sib, Other(c.dir)).N?
  {
    Make(c.dir, Side(c.sib, c.dir), c.sib.id, c.sib.red, Painted(Side(c.sib, Other(c.dir)), false))
  }

  /** The father's subtree after case 4. */
  function Lifted(c: Ctx, t: Tree): (r: Tree)
    requires c.In? && c.sib.N? && Side(c.sib, Other(c.dir)).N?
  {
    Rotated(Other(c.dir), Father(c.(sib := FarBlack(c)), t))
  }

  /** Case 4: a red far nephew becomes black and the brother takes the father's place. */
  lemma FarNephew(c: Ctx, t: Tree, n: nat)
    requires Deficit(c, t, n) && c.sib.N? && !c.sib.red && !Black(Side(c.sib, Other(c.dir)))
    ensures Good(c.up, Lifted(c, t), if c.red then n + 1 else n + 2)
  {
    var near, far := Side(c.sib, c.dir), Side(c.sib, Other(c.dir));
    assert Well(near, n) && Well(far, n) && Well(Painted(far, false), n + 1);
    var p := Make(Other(c.dir), near, c.id, false, t);
    assert Well(p, n + 1);
    assert Rotated(Other(c.dir), Father(c.(sib := FarBlack(c)), t)) == Make(Other(c.dir), Painted(far, false), c.sib.id, c.red, p);
    assert CtxWell(c.up, if c.red then n + 1 else n + 2);
  }
}
