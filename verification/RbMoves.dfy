/**
 What the loops of compat/rbtree/rb.c read and write, seen from a focus: the fields of the
 focused node, steps down and up, repainting of relatives, rotations above the focus.
 */
module RbMoves {
  import opened RbShape
  import opened RbRules
  import opened RbHeap
  import opened RbSwap

  /** RB_BLACK_P. */
  predicate BlackRef(h: Heap, x: Ref)
    requires Known(h, x)
  {
    x == 0 || !h.nodes[x].red
  }

  // ---------------------------------------------------------------------------
  // Reading
  // ---------------------------------------------------------------------------

  /** The memory of a focused node. */
  lemma FocusNode(h: Heap, c: Ctx, t: Tree)
    requires Focus(h, c, t) && t.N?
    ensures t.id != 0 && LinksKnown(h, t.id)
    ensures h.nodes[t.id] == Node(RefOf(t.left), RefOf(t.right), FatherOf(c), PosOf(c), t.red)
  {
    MiddleIsFocus(h, c, t.left, t.id, t.red, t.right);
    MiddleKnown(h, c, t.left, t.id, t.red, t.right);
  }

  /** A sentinel pointer means an empty subtree. */
  lemma SideIsEmpty(h: Heap, c: Ctx, t: Tree, d: Dir)
    requires Focus(h, c, t) && t.N? && RefOf(Side(t, d)) == 0
    ensures Side(t, d) == E
  {
    StepDown(h, c, t, d);
    if Side(t, d).N? {
      FocusNode(h, Below(c, t, d), Side(t, d));
    }
  }

  /** The root of a tree, as a colour test sees it. */
  lemma FocusColour(h: Heap, c: Ctx, t: Tree)
    requires Focus(h, c, t)
    ensures Known(h, RefOf(t)) && (BlackRef(h, RefOf(t)) <==> Black(t))
  {
    if t.N? {
      FocusNode(h, c, t);
    }
  }

  /** The surroundings of the child on side `d`. */
  function Below(c: Ctx, t: Tree, d: Dir): (r: Ctx)
    requires t.N?
  {
    In(d, t.id, t.red, Side(t, Other(d)), c)
  }

  lemma StepDown(h: Heap, c: Ctx, t: Tree, d: Dir)
    requires Focus(h, c, t) && t.N?
    ensures Focus(h, Below(c, t, d), Side(t, d))
    ensures Plug(Below(c, t, d), Side(t, d)) == Plug(c, t) && All(Below(c, t, d), Side(t, d)) == All(c, t)
  {
    MakeSides(t, d);
    FocusUp(h, d, Side(t, d), t.id, t.red, Side(t, Other(d)), c);
    AllUp(d, Side(t, d), t.id, t.red, Side(t, Other(d)), c);
  }

  lemma StepUp(h: Heap, c: Ctx, t: Tree)
    requires Focus(h, c, t) && c.In?
    ensures Focus(h, c.up, Father(c, t)) && Plug(c.up, Father(c, t)) == Plug(c, t) && All(c.up, Father(c, t)) == All(c, t)
  {
    FocusUp(h, c.dir, t, c.id, c.red, c.sib, c.up);
    AllUp(c.dir, t, c.id, c.red, c.sib, c.up);
  }

  /** The memory around a focus that is not the root. */
  lemma FatherNode(h: Heap, c: Ctx, t: Tree)
    requires Focus(h, c, t) && c.In?
    ensures c.id != 0 && LinksKnown(h, c.id)
    ensures Child(h.nodes[c.id], c.dir) == RefOf(t) && Child(h.nodes[c.id], Other(c.dir)) == RefOf(c.sib)
    ensures h.nodes[c.id].father == FatherOf(c.up) && h.nodes[c.id].pos == PosOf(c.up) && h.nodes[c.id].red == c.red
    ensures t.N? ==> RefOf(t) != RefOf(c.sib)
    ensures h.root == c.id <==> c.up.Top?
  {
    StepUp(h, c, t);
    FocusNode(h, c.up, Father(c, t));
    assert t.N? ==> t.id in Ids(t);
    assert c.sib.N? ==> c.sib.id in Ids(c.sib);
    RootId(h, c.up, c.id);
  }

  /** The root pointer leads to the outermost node. */
  lemma {:induction false} OutermostIsRoot(m: map<Ref, Node>, c: Ctx, hole: Ref, root: Ref)
    requires RepCtx(m, c, hole, root) && c.In?
    ensures root in CtxIds(c)
  {
    if c.up.In? {
      OutermostIsRoot(m, c.up, c.id, root);
    }
  }

  lemma RootId(h: Heap, c: Ctx, x: Ref)
    requires RepCtx(h.nodes, c, x, h.root) && x !in CtxIds(c)
    ensures h.root == x <==> c.Top?
  {
    if c.In? {
      OutermostIsRoot(h.nodes, c, x, h.root);
    }
  }

  lemma FocusRoot(h: Heap, c: Ctx, t: Tree)
    requires Focus(h, c, t) && t.N?
    ensures h.root == t.id <==> c.Top?
  {
    assert t.id in Ids(t);
    RootId(h, c, t.id);
  }

  // ---------------------------------------------------------------------------
  // Repainting relatives
  // ---------------------------------------------------------------------------

  lemma RepaintFather(h: Heap, c: Ctx, t: Tree, red: bool)
    requires Focus(h, c, t) && c.In?
    ensures c.id in h.nodes && Focus(SetRed(h, c.id, red), c.(red := red), t)
  {
    StepUp(h, c, t);
    var f := Father(c, t);
    Repainted(h, c.up, f, red);
    assert Painted(f, red) == Make(c.dir, t, c.id, red, c.sib);
    FocusUp(SetRed(h, c.id, red), c.dir, t, c.id, red, c.sib, c.up);
  }

  /** The focus on the brother instead. */
  function Across(c: Ctx, t: Tree): (r: Ctx)
    requires c.In?
  {
    In(Other(c.dir), c.id, c.red, t, c.up)
  }

  lemma FocusAcross(h: Heap, c: Ctx, t: Tree)
    requires c.In?
    ensures Focus(h, c, t) <==> Focus(h, Across(c, t), c.sib)
  {
    FocusUp(h, c.dir, t, c.id, c.red, c.sib, c.up);
    FocusUp(h, Other(c.dir), c.sib, c.id, c.red, t, c.up);
    assert Make(c.dir, t, c.id, c.red, c.sib) == Make(Other(c.dir), c.sib, c.id, c.red, t);
  }

  lemma RepaintBrother(h: Heap, c: Ctx, t: Tree, red: bool)
    requires Focus(h, c, t) && c.In? && c.sib.N?
    ensures c.sib.id in h.nodes && Focus(SetRed(h, c.sib.id, red), c.(sib := Painted(c.sib, red)), t)
  {
    FocusAcross(h, c, t);
    Repainted(h, Across(c, t), c.sib, red);
    FocusAcross(SetRed(h, c.sib.id, red), c.(sib := Painted(c.sib, red)), t);
  }

  /** Another brother subtree. */
  lemma BrotherChanged(h: Heap, c: Ctx, t: Tree, b: Tree)
    requires c.In? && Focus(h, Across(c, t), b)
    ensures Focus(h, c.(sib := b), t)
  {
    FocusAcross(h, c.(sib := b), t);
  }

  // ---------------------------------------------------------------------------
  // The cases of insertion
  // ---------------------------------------------------------------------------

  lemma SeqParts(d: Dir, near: Tree, id: Ref, red: bool, far: Tree)
    ensures Seq(Make(d, near, id, red, far)) == if d == L then Seq(near) + [id] + Seq(far) else Seq(far) + [id] + Seq(near)
  {
  }

  lemma InvertedSeq(c: Ctx, t: Tree, red: bool)
    requires c.In? && c.up.In? && c.up.sib.N?
    ensures Seq(Inverted(c, t, red)) == Seq(Family(c, t))
  {
    SeqParts(c.dir, t, c.id, c.red, c.sib);
    SeqParts(c.dir, t, c.id, false, c.sib);
    SeqParts(c.up.dir, Make(c.dir, t, c.id, c.red, c.sib), c.up.id, c.up.red, c.up.sib);
    SeqParts(c.up.dir, Make(c.dir, t, c.id, false, c.sib), c.up.id, red, Painted(c.up.sib, false));
  }

  lemma FamilySeq(c: Ctx, t: Tree)
    requires c.In? && c.up.In?
    ensures All(c.up.up, Family(c, t)) == All(c, t)
  {
    AllUp(c.dir, t, c.id, c.red, c.sib, c.up);
    AllUp(c.up.dir, Make(c.dir, t, c.id, c.red, c.sib), c.up.id, c.up.red, c.up.sib, c.up.up);
  }

  /** Case 1 in memory: uncle and father black, then the grandfather red. */
  lemma InvertMemory(h: Heap, c: Ctx, t: Tree)
    requires Focus(h, c, t) && c.In? && c.up.In? && c.up.sib.N?
    ensures {c.id, c.up.id, c.up.sib.id} <= h.nodes.Keys
    ensures var h1 := SetRed(SetRed(h, c.up.sib.id, false), c.id, false);
            && Focus(h1, c.up.up, Inverted(c, t, c.up.red))
            && Focus(SetRed(h1, c.up.id, true), c.up.up, Inverted(c, t, true))
    ensures All(c.up.up, Inverted(c, t, c.up.red)) == All(c.up.up, Inverted(c, t, true)) == All(c, t)
  {
    hide Focus, All, Seq;
    var f, up := Father(c, t), c.up;
    StepUp(h, c, t);
    FatherNode(h, c, t);
    FatherNode(h, up, f);
    RepaintBrother(h, up, f, false);
    var ha, upa := SetRed(h, up.sib.id, false), up.(sib := Painted(up.sib, false));
    FocusUp(ha, c.dir, t, c.id, c.red, c.sib, upa);
    RepaintFather(ha, In(c.dir, c.id, c.red, c.sib, upa), t, false);
    var h1, c1 := SetRed(ha, c.id, false), In(c.dir, c.id, false, c.sib, upa);
    StepUp(h1, c1, t);
    StepUp(h1, upa, Father(c1, t));
    assert Father(upa, Father(c1, t)) == Inverted(c, t, up.red);
    Repainted(h1, up.up, Inverted(c, t, up.red), true);
    assert Painted(Inverted(c, t, up.red), true) == Inverted(c, t, true);
    InvertedAll(c, t);
  }

  lemma InvertedAll(c: Ctx, t: Tree)
    requires c.In? && c.up.In? && c.up.sib.N?
    ensures All(c.up.up, Inverted(c, t, c.up.red)) == All(c.up.up, Inverted(c, t, true)) == All(c, t)
  {
    InvertedSeq(c, t, c.up.red);
    InvertedSeq(c, t, true);
    FamilySeq(c, t);
  }

  lemma RedRedParts(c: Ctx, t: Tree, n: nat)
    requires RedRed(c, t, n)
    ensures t.N? && c.In?
  {
  }

  /** What is read after the colours have moved up. */
  lemma InvertedRoot(h: Heap, c: Ctx, t: Tree, red: bool)
    requires c.In? && c.up.In? && c.up.sib.N? && Focus(h, c.up.up, Inverted(c, t, red))
    ensures Inverted(c, t, red).N? && Inverted(c, t, red).id == c.up.id && (h.root == c.up.id <==> c.up.up.Top?)
    ensures c.up.id in h.nodes && h.nodes[c.up.id].father == FatherOf(c.up.up)
    ensures c.up.up.In? ==> c.up.up.id in h.nodes && h.nodes[c.up.up.id].red == c.up.up.red
  {
    var x, up := Inverted(c, t, red), c.up.up;
    FocusRoot(h, up, x);
    FocusNode(h, up, x);
    if up.In? {
      FatherNode(h, up, x);
    }
  }

  lemma RotatedIsNode(w: Dir, t: Tree)
    requires t.N? && Side(t, w).N?
    ensures Rotated(w, t).N?
  {
  }

  /** What the loop of rb_tree_insert_rebalance reads: father, grandfather, side and uncle. */
  lemma GrandpaReads(h: Heap, c: Ctx, t: Tree, n: nat)
    requires Focus(h, c, t) && RedRed(c, t, n)
    ensures t.N? && c.In? && c.up.In? && !c.up.red
    ensures t.id in h.nodes && h.nodes[t.id].father == c.id && c.id in h.nodes && c.up.id in h.nodes
    ensures h.nodes[c.id].father == c.up.id && h.nodes[c.id].red
    ensures c.up.dir == if c.id == h.nodes[c.up.id].right then R else L
    ensures Child(h.nodes[c.up.id], Other(c.up.dir)) == RefOf(c.up.sib) && Known(h, RefOf(c.up.sib))
    ensures BlackRef(h, RefOf(c.up.sib)) <==> Black(c.up.sib)
    ensures Child(h.nodes[c.id], c.dir) == t.id && Child(h.nodes[c.id], Other(c.dir)) != t.id
  {
    HasGrandpa(c, t, n);
    FocusNode(h, c, t);
    FatherNode(h, c, t);
    StepUp(h, c, t);
    FatherNode(h, c.up, Father(c, t));
    FocusAcross(h, c.up, Father(c, t));
    FocusColour(h, Across(c.up, Father(c, t)), c.up.sib);
  }

  lemma RotateAll(h: Heap, c: Ctx, t: Tree, w: Dir)
    requires Focus(h, c, t) && t.N? && Side(t, w).N?
    ensures Rotatable(h, t.id, w) && Focus(Rotate(h, t.id, w), c, Rotated(w, t)) && All(c, Rotated(w, t)) == All(c, t)
  {
    RotateOk(h, c, t, w);
    RotatedSeq(w, t);
  }

  /** In a red-black tree the root pointer leads to a black node, so that painting it black changes nothing. */
  lemma {:induction false} RootIsBlack(h: Heap, c: Ctx, t: Tree, n: nat)
    requires Focus(h, c, t) && Good(c, t, n) && (t.N? || c.In?)
    ensures h.root in h.nodes && SetRed(h, h.root, false) == h
    decreases c
  {
    if c.In? {
      StepUp(h, c, t);
      GoodUp(c.dir, t, c.id, c.red, c.sib, c.up, n);
      RootIsBlack(h, c.up, Father(c, t), if c.red then n else n + 1);
    } else {
      FocusNode(h, c, t);
      FocusRoot(h, c, t);
    }
  }

  // ---------------------------------------------------------------------------
  // The cases of removal
  // ---------------------------------------------------------------------------

  /** What the loop of rb_tree_removal_rebalance reads: the brother exists, and its sons' colours. */
  lemma BrotherReads(h: Heap, c: Ctx, t: Tree, n: nat)
    requires Focus(h, c, t) && Deficit(c, t, n)
    ensures c.In? && c.id in h.nodes && h.nodes[c.id].red == c.red
    ensures Child(h.nodes[c.id], c.dir) == RefOf(t) && Known(h, RefOf(t)) && BlackRef(h, RefOf(t))
    ensures c.sib.N? && c.sib.id in h.nodes && h.nodes[c.sib.id].red == c.sib.red
    ensures Child(h.nodes[c.id], Other(c.dir)) == c.sib.id && LinksKnown(h, c.sib.id)
    ensures h.nodes[c.sib.id].left == RefOf(c.sib.left) && h.nodes[c.sib.id].right == RefOf(c.sib.right)
    ensures BlackRef(h, RefOf(c.sib.left)) <==> Black(c.sib.left)
    ensures BlackRef(h, RefOf(c.sib.right)) <==> Black(c.sib.right)
    ensures h.root == c.id <==> c.up.Top?
    ensures h.nodes[c.id].father == FatherOf(c.up) && h.nodes[c.id].pos == PosOf(c.up)
  {
    HasBrother(c, t, n);
    FatherNode(h, c, t);
    FocusColour(h, c, t);
    FocusAcross(h, c, t);
    var a := Across(c, t);
    FocusNode(h, a, c.sib);
    StepDown(h, a, c.sib, L);
    FocusColour(h, Below(a, c.sib, L), c.sib.left);
    StepDown(h, a, c.sib, R);
    FocusColour(h, Below(a, c.sib, R), c.sib.right);
  }

  lemma UpReads(h: Heap, c: Ctx, t: Tree)
    requires Focus(h, c, t) && t.N?
    ensures t.id in h.nodes && h.nodes[t.id].father == FatherOf(c) && h.nodes[t.id].pos == PosOf(c)
  {
    FocusNode(h, c, t);
  }

  lemma BrotherSeq(c: Ctx, t: Tree, red: bool, b: Tree)
    requires c.In? && Seq(b) == Seq(c.sib)
    ensures All(c.(red := red, sib := b), t) == All(c, t)
  {
  }

  /** Case 1 in memory. */
  lemma RedBrotherMemory(h: Heap, c: Ctx, t: Tree, n: nat) returns (c': Ctx)
    requires Focus(h, c, t) && Deficit(c, t, n) && c.sib.N? && c.sib.red
    ensures Rotatable(h, c.id, Other(c.dir)) && Focus(Rotate(h, c.id, Other(c.dir)), c', t) && All(c', t) == All(c, t)
    ensures Deficit(c', t, n) && c'.In? && c'.id == c.id && c'.dir == c.dir && c'.red && c'.sib.N? && !c'.sib.red
  {
    var w, f := c.dir, Father(c, t);
    hide Focus, All, Rotated, Rotate, Deficit;
    StepUp(h, c, t);
    RedBrother(c, t, n);
    RotateAll(h, c.up, f, Other(w));
    var h', r := Rotate(h, c.id, Other(w)), Rotated(Other(w), f);
    StepDown(h', c.up, r, w);
    StepDown(h', Below(c.up, r, w), Side(r, w), w);
    c' := Below(Below(c.up, r, w), Side(r, w), w);
  }

  /** Case 3 in memory. */
  lemma NearNephewMemory(h: Heap, c: Ctx, t: Tree)
    requires Focus(h, c, t) && c.In? && c.sib.N? && Side(c.sib, c.dir).N?
    ensures Rotatable(h, c.sib.id, c.dir)
    ensures Focus(Rotate(h, c.sib.id, c.dir), c.(sib := Rotated(c.dir, c.sib)), t)
    ensures All(c.(sib := Rotated(c.dir, c.sib)), t) == All(c, t)
  {
    FocusAcross(h, c, t);
    RotateAll(h, Across(c, t), c.sib, c.dir);
    RotatedSeq(c.dir, c.sib);
    BrotherChanged(Rotate(h, c.sib.id, c.dir), c, t, Rotated(c.dir, c.sib));
    BrotherSeq(c, t, c.red, Rotated(c.dir, c.sib));
  }

  /** The far nephew is painted black. */
  lemma FarBlackMemory(h: Heap, c: Ctx, t: Tree)
    requires Focus(h, c, t) && c.In? && c.sib.N? && Side(c.sib, Other(c.dir)).N?
    ensures var far := Side(c.sib, Other(c.dir));
            && far.id in h.nodes && Focus(SetRed(h, far.id, false), c.(sib := FarBlack(c)), t)
            && c.sib.id in h.nodes && Child(h.nodes[c.sib.id], Other(c.dir)) == far.id
    ensures All(c.(sib := FarBlack(c)), t) == All(c, t)
  {
    hide Focus;
    var a, o := Across(c, t), Other(c.dir);
    var far := Side(c.sib, o);
    FocusAcross(h, c, t);
    FocusNode(h, a, c.sib);
    StepDown(h, a, c.sib, o);
    Repainted(h, Below(a, c.sib, o), far, false);
    var h' := SetRed(h, far.id, false);
    StepUp(h', Below(a, c.sib, o), Painted(far, false));
    assert Father(Below(a, c.sib, o), Painted(far, false)) == FarBlack(c);
    BrotherChanged(h', c, t, FarBlack(c));
    FarBlackSeq(c);
    BrotherSeq(c, t, c.red, FarBlack(c));
  }

  lemma FarBlackSeq(c: Ctx)
    requires c.In? && c.sib.N? && Side(c.sib, Other(c.dir)).N?
    ensures Seq(FarBlack(c)) == Seq(c.sib)
  {
    var far := Side(c.sib, Other(c.dir));
    assert Seq(Painted(far, false)) == Seq(far);
  }

  /** Case 4 in memory, after the painting. */
  lemma FarNephewMemory(h: Heap, c: Ctx, t: Tree, n: nat)
    requires Deficit(c, t, n) && c.sib.N? && !c.sib.red && !Black(Side(c.sib, Other(c.dir)))
    requires Focus(h, c.(sib := FarBlack(c)), t)
    ensures var r := Lifted(c, t);
            && Rotatable(h, c.id, Other(c.dir)) && Focus(Rotate(h, c.id, Other(c.dir)), c.up, r)
            && Good(c.up, r, if c.red then n + 1 else n + 2) && All(c.up, r) == All(c.(sib := FarBlack(c)), t)
  {
    FarNephew(c, t, n);
    var c' := c.(sib := FarBlack(c));
    StepUp(h, c', t);
    RotateAll(h, c.up, Father(c', t), Other(c.dir));
  }

  /** Case 2 in memory. */
  lemma AllBlackMemory(h: Heap, c: Ctx, t: Tree, n: nat)
    requires Focus(h, c, t) && Deficit(c, t, n) && !c.red && c.sib.N? && !c.sib.red && Black(c.sib.left) && Black(c.sib.right)
    ensures var r := Father(c.(sib := Painted(c.sib, true)), t);
            && c.sib.id in h.nodes && Focus(SetRed(h, c.sib.id, true), c.up, r) && All(c.up, r) == All(c, t)
            && if c.up.Top? then Good(c.up, r, n + 1) else Deficit(c.up, r, n + 1)
  {
    var c' := c.(sib := Painted(c.sib, true));
    AllBlack(c, t, n);
    RepaintBrother(h, c, t, true);
    BrotherSeq(c, t, c.red, Painted(c.sib, true));
    StepUp(SetRed(h, c.sib.id, true), c', t);
  }

  /** Case 2b in memory. */
  lemma RedFatherMemory(h: Heap, c: Ctx, t: Tree, n: nat)
    requires Focus(h, c, t) && Deficit(c, t, n) && c.red && c.sib.N? && !c.sib.red && Black(c.sib.left) && Black(c.sib.right)
    ensures var r := Father(c.(red := false, sib := Painted(c.sib, true)), t);
            && {c.id, c.sib.id} <= h.nodes.Keys && Focus(SetRed(SetRed(h, c.id, false), c.sib.id, true), c.up, r)
            && All(c.up, r) == All(c, t) && Good(c.up, r, n + 1)
  {
    var c1 := c.(red := false);
    var c2 := c1.(sib := Painted(c.sib, true));
    RedFather(c, t, n);
    RepaintFather(h, c, t, false);
    var h1 := SetRed(h, c.id, false);
    RepaintBrother(h1, c1, t, true);
    BrotherSeq(c, t, false, Painted(c.sib, true));
    StepUp(SetRed(h1, c.sib.id, true), c2, t);
  }
}
