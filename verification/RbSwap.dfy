/**
 rb_tree_swap_prune_and_rebalance of compat/rbtree/rb.c, up to the rebalancing: the in-order
 neighbour of a node with two children takes its place.
 */
module RbSwap {
  import opened RbShape
  import opened RbRules
  import opened RbHeap

  // ---------------------------------------------------------------------------
  // The writes of the source
  // ---------------------------------------------------------------------------

  /** The only child that a stand-in can have. */
  function SonOf(h: Heap, self: Ref, s: Ref): (son: Ref)
    requires s in h.nodes
  {
    var sw := h.nodes[s].pos;
    if h.nodes[s].father == self then Child(h.nodes[s], sw) else Child(h.nodes[s], Other(sw))
  }

  /** `s` takes over the child of `self` on side `d`. */
  function TakeChild(h: Heap, self: Ref, s: Ref, d: Dir): (r: Heap)
    requires self in h.nodes && s in h.nodes && Known(h, Child(h.nodes[self], d))
  {
    var x := Child(h.nodes[self], d);
    Fathered(SetChild(h, s, d, x), x, s)
  }

  /** RB_COPY_PROPERTIES, the father, and the pointer down from the father. */
  function TakePlace(h: Heap, self: Ref, s: Ref): (r: Heap)
    requires self in h.nodes && s in h.nodes && Known(h, h.nodes[self].father)
  {
    var n := h.nodes[self];
    var h1 := SetFather(SetRed(SetPos(h, s, n.pos), s, n.red), s, n.father);
    Without(SetChild(h1, n.father, n.pos, s), self)
  }

  /** All pointers that the swap follows lead to nodes. */
  predicate Swappable(h: Heap, self: Ref, s: Ref)
  {
    && self != 0 && s != 0 && self != s && s in h.nodes && LinksKnown(h, self) && Known(h, h.nodes[s].father)
    && Known(h, SonOf(h, self, s))
  }

  /** Severing the stand-in from its father. */
  function Severed(h: Heap, s: Ref, son: Ref, sf: Ref, sw: Dir): (r: Heap)
    requires Known(h, son) && Known(h, sf)
    ensures r.nodes.Keys == h.nodes.Keys
  {
    var h1 := if son != 0 && h.nodes[son].red then SetRed(h, son, false) else h;
    var h2 := if son != 0 && h.nodes[son].red then SetPos(SetFather(h1, son, sf), son, sw) else h1;
    SetChild(h2, sf, sw, son)
  }

  function SwapPrune(h: Heap, self: Ref, s: Ref): (r: Heap)
    requires Swappable(h, self, s)
  {
    var sw, so, sf, son := h.nodes[s].pos, Other(h.nodes[s].pos), h.nodes[s].father, SonOf(h, self, s);
    if sf == self then
      var h1 := if son != 0 && h.nodes[son].red then SetRed(h, son, false) else h;
      TakePlace(TakeChild(h1, self, s, so), self, s)
    else
      TakePlace(TakeChild(TakeChild(Severed(h, s, son, sf, sw), self, s, so), self, s, sw), self, s)
  }

  // ---------------------------------------------------------------------------
  // The swap is a removal followed by a replacement
  // ---------------------------------------------------------------------------

  /** The nodes involved: `far` and `near` are the children of `self`, `g` its father, `son` the stand-in's child. */
  ghost predicate Cast(h: Heap, self: Ref, s: Ref, w: Dir, near: Ref, far: Ref, g: Ref, sf: Ref, son: Ref)
  {
    && self in h.nodes && s in h.nodes && self != 0 && s != 0 && self != s
    && Child(h.nodes[self], w) == near && Child(h.nodes[self], Other(w)) == far && h.nodes[self].father == g
    && h.nodes[s].father == sf && near != 0 && far != 0 && sf != 0
    && near in h.nodes && far in h.nodes && sf in h.nodes && Known(h, g) && Known(h, son)
    && far != self && far != s && near != self && near != far && sf != s && sf != far
    && (son != 0 ==> son != self && son != s && son != near && son != far && son != sf && h.nodes[son].red)
    && (g != 0 ==> g != self && g != s && g != near && g != far && g != sf && g != son)
  }

  ghost predicate ReplacedBy(h: Heap, r: Heap, x: Ref, s: Ref)
    requires LinksKnown(h, x)
  {
    var n := h.nodes[x];
    ReplaceOf(h, r, x, s, n.left, n.right, n.father, n.pos, n.red)
  }

  ghost predicate Took(k: Heap, r: Heap, s: Ref, d: Dir, x: Ref)
  {
    && s in k.nodes && Known(k, x) && r.root == k.root && r.nodes.Keys == k.nodes.Keys
    && r.nodes[s] == WithChild(k.nodes[s], d, x)
    && (x != 0 ==> r.nodes[x] == k.nodes[x].(father := s))
    && SameOn(k.nodes, r.nodes, k.nodes.Keys - {s, x})
  }

  lemma TakeEffect(k: Heap, self: Ref, s: Ref, d: Dir, x: Ref)
    requires self in k.nodes && s in k.nodes && s != 0 && x == Child(k.nodes[self], d) && Known(k, x) && x != s
    ensures Took(k, TakeChild(k, self, s, d), s, d, x)
  {
  }

  /** `r` is `k` with `s` in the place of `self`, whose children it already has. */
  ghost predicate Placed(k: Heap, r: Heap, self: Ref, s: Ref)
  {
    && self in k.nodes && s in k.nodes && Known(k, k.nodes[self].father)
    && var n := k.nodes[self];
    && r.nodes.Keys == k.nodes.Keys - {self}
    && r.root == (if n.father == 0 then s else k.root)
    && (s in r.nodes && r.nodes[s] == k.nodes[s].(father := n.father, pos := n.pos, red := n.red))
    && (n.father != 0 ==> n.father in r.nodes && r.nodes[n.father] == WithChild(k.nodes[n.father], n.pos, s))
    && SameOn(k.nodes, r.nodes, k.nodes.Keys - {self, s, n.father})
  }

  lemma PlaceEffect(k: Heap, self: Ref, s: Ref)
    requires self in k.nodes && s in k.nodes && Known(k, k.nodes[self].father)
    requires s != 0 && s != self && k.nodes[self].father != s && k.nodes[self].father != self
    ensures Placed(k, TakePlace(k, self, s), self, s)
  {
  }

  /** A stand-in with the right children that takes the place is a replacement. */
  lemma PlacedIsReplaced(b: Heap, k: Heap, r: Heap, self: Ref, s: Ref, l: Ref, rt: Ref, g: Ref)
    requires LinksKnown(b, self) && s !in b.nodes && Spread(self, s, l, rt, g)
    requires b.nodes[self].left == l && b.nodes[self].right == rt && b.nodes[self].father == g
    requires k.root == b.root && k.nodes.Keys == b.nodes.Keys + {s}
    requires k.nodes[self].father == g && k.nodes[self].pos == b.nodes[self].pos && k.nodes[self].red == b.nodes[self].red
    requires k.nodes[s].left == l && k.nodes[s].right == rt
    requires (l != 0 ==> k.nodes[l] == b.nodes[l].(father := s)) && (rt != 0 ==> k.nodes[rt] == b.nodes[rt].(father := s))
    requires SameOn(b.nodes, k.nodes, b.nodes.Keys - {l, rt, self}) && Placed(k, r, self, s)
    ensures ReplacedBy(b, r, self, s)
  {
  }

  /** What the stand-in takes over in single steps is what a replacement takes over. */
  lemma TakeAll(k: Heap, self: Ref, s: Ref, d: Dir, near: Ref, far: Ref, g: Ref)
    requires self in k.nodes && s in k.nodes && Spread(self, s, near, far, g) && near != 0 && far != 0
    requires Child(k.nodes[self], d) == near && Child(k.nodes[self], Other(d)) == far && k.nodes[self].father == g
    requires near in k.nodes && far in k.nodes && Known(k, g)
    ensures LinksKnown(Without(k, s), self)
    ensures ReplacedBy(Without(k, s), TakePlace(TakeChild(TakeChild(k, self, s, d), self, s, Other(d)), self, s), self, s)
  {
    hide TakeChild, TakePlace, ReplacedBy, Placed;
    var k1 := TakeChild(k, self, s, d);
    TakeEffect(k, self, s, d, near);
    assert k1.nodes[self] == k.nodes[self];
    TakeEffect(k1, self, s, Other(d), far);
    var k2 := TakeChild(k1, self, s, Other(d));
    assert k2.nodes[self] == k.nodes[self];
    PlaceEffect(k2, self, s);
    var n := k.nodes[self];
    PlacedIsReplaced(Without(k, s), k2, TakePlace(k2, self, s), self, s, n.left, n.right, g);
  }

  lemma SeveredIsSplice(h: Heap, s: Ref, son: Ref)
    requires s in h.nodes && Known(h, h.nodes[s].father) && Known(h, son) && (son != 0 ==> h.nodes[son].red)
    ensures Without(Severed(h, s, son, h.nodes[s].father, h.nodes[s].pos), s) == Splice(h, s, son, false)
  {
    var f, p := h.nodes[s].father, h.nodes[s].pos;
    if son != 0 {
      assert SetPos(SetFather(SetRed(h, son, false), son, f), son, p) == SetRed(Adopt(h, son, f, p), son, false);
    }
  }

  /** The stand-in is deeper down. */
  lemma SwapDeep(h: Heap, self: Ref, s: Ref, w: Dir, near: Ref, far: Ref, g: Ref, sf: Ref, son: Ref)
    requires Cast(h, self, s, w, near, far, g, sf, son) && near != s && sf != self
    requires Links(h.nodes, s, w, son, 0, sf, Other(w), h.nodes[s].red)
    ensures Swappable(h, self, s) && LinksKnown(Splice(h, s, son, false), self)
    ensures ReplacedBy(Splice(h, s, son, false), SwapPrune(h, self, s), self, s)
  {
    hide ReplacedBy;
    var k := Severed(h, s, son, sf, Other(w));
    SeveredIsSplice(h, s, son);
    SeveredKeeps(h, self, s, w, near, far, g, sf, son);
    TakeAll(k, self, s, w, near, far, g);
    hide Severed, TakeChild, TakePlace, Splice;
  }

  lemma SeveredKeeps(h: Heap, self: Ref, s: Ref, w: Dir, near: Ref, far: Ref, g: Ref, sf: Ref, son: Ref)
    requires Cast(h, self, s, w, near, far, g, sf, son) && near != s && sf != self
    ensures var k := Severed(h, s, son, sf, Other(w));
            k.nodes.Keys == h.nodes.Keys && k.nodes[self] == h.nodes[self]
  {
  }

  /** The stand-in is a child of the node. */
  lemma SwapChild(h: Heap, self: Ref, s: Ref, w: Dir, far: Ref, g: Ref, son: Ref)
    requires Cast(h, self, s, w, s, far, g, self, son) && Links(h.nodes, s, w, son, 0, self, w, h.nodes[s].red)
    requires son != 0 ==> h.nodes[son].father == s && h.nodes[son].pos == w
    ensures Swappable(h, self, s) && LinksKnown(Splice(h, s, son, false), self)
    ensures ReplacedBy(Splice(h, s, son, false), SwapPrune(h, self, s), self, s)
  {
    hide Splice, TakeChild, TakePlace, ReplacedBy, Placed;
    var b := Splice(h, s, son, false);
    SpliceEffect(h, s, son, false, self, w);
    var h1 := if son != 0 then SetRed(h, son, false) else h;
    TakeEffect(h1, self, s, Other(w), far);
    var k := TakeChild(h1, self, s, Other(w));
    assert k.nodes[self] == h.nodes[self];
    PlaceEffect(k, self, s);
    assert b.nodes[self] == WithChild(h.nodes[self], w, son);
    var n := b.nodes[self];
    PlacedIsReplaced(b, k, TakePlace(k, self, s), self, s, n.left, n.right, g);
  }

  // ---------------------------------------------------------------------------
  // Nested surroundings
  // ---------------------------------------------------------------------------

  /** The surroundings `a` inside the surroundings `b`. */
  function Append(a: Ctx, b: Ctx): (c: Ctx)
  {
    match a
    case Top => b
    case In(d, id, red, sib, up) => In(d, id, red, sib, Append(up, b))
  }

  lemma {:induction false} FocusAppend(h: Heap, a: Ctx, b: Ctx, t: Tree)
    ensures Focus(h, Append(a, b), t) <==> Focus(h, b, Plug(a, t))
  {
    if a.In? {
      FocusUp(h, a.dir, t, a.id, a.red, a.sib, Append(a.up, b));
      FocusAppend(h, a.up, b, Make(a.dir, t, a.id, a.red, a.sib));
    }
  }

  lemma {:induction false} AppendIds(a: Ctx, b: Ctx)
    ensures CtxIds(Append(a, b)) == CtxIds(a) + CtxIds(b)
    ensures DistinctCtx(Append(a, b)) ==> CtxIds(a) !! CtxIds(b)
    ensures a.In? ==> FatherOf(Append(a, b)) == a.id && PosOf(Append(a, b)) == a.dir && a.id in CtxIds(a)
  {
    if a.In? {
      AppendIds(a.up, b);
    }
  }

  lemma {:induction false} PlugRoot(a: Ctx, t: Tree)
    requires t.N?
    ensures Plug(a, t).N? && (if a.Top? then Plug(a, t).id == t.id else Plug(a, t).id in CtxIds(a))
  {
    if a.In? {
      PlugRoot(a.up, Make(a.dir, t, a.id, a.red, a.sib));
    }
  }

  /** On the way to the neighbour of `self` on side `w`: first to that side, then always to the other. */
  ghost predicate Spine(a: Ctx, d: Dir)
  {
    a.In? ==> a.dir == d && Spine(a.up, d)
  }

  // ---------------------------------------------------------------------------
  // The swap in terms of trees
  // ---------------------------------------------------------------------------

  lemma SonLinks(h: Heap, c: Ctx, w: Dir, son: Tree, x: Ref, red: bool)
    requires Single(h, c, w, son, x, red)
    ensures son.N? ==> Links(h.nodes, son.id, L, RefOf(son.left), RefOf(son.right), x, w, son.red)
  {
  }

  /** Before the swap: the focus is the stand-in `s`, and `self` is above it. */
  ghost predicate Ready(h: Heap, a: Ctx, c: Ctx, w: Dir, far: Tree, self: Ref, red: bool, s: Ref, sr: bool, son: Tree)
  {
    && Focus(h, Append(a, In(w, self, red, far, c)), Make(w, son, s, sr, E))
    && Spine(a, Other(w)) && far.N? && (son.N? ==> son.red)
  }

  lemma ReadyCast(h: Heap, a: Ctx, c: Ctx, w: Dir, far: Tree, self: Ref, red: bool, s: Ref, sr: bool, son: Tree)
    requires Ready(h, a, c, w, far, self, red, s, sr, son)
    ensures var ctx := Append(a, In(w, self, red, far, c));
            Cast(h, self, s, w, RefOf(Plug(a, Make(w, son, s, sr, E))), far.id, FatherOf(c), FatherOf(ctx), RefOf(son))
  {
    hide Rep, Ids, Distinct, RepCtx, DistinctCtx, Focus;
    var b := In(w, self, red, far, c);
    var ctx, st := Append(a, b), Make(w, son, s, sr, E);
    SingleIsFocus(h, ctx, w, son, s, sr);
    SingleKnown(h, ctx, w, son, s, sr);
    SonLinks(h, ctx, w, son, s, sr);
    AppendIds(a, b);
    PlugRoot(a, st);
    FocusAppend(h, a, b, st);
    var p := Plug(a, st);
    RefIsInside(far, c);
    RefIsInside(son, ctx);
    SelfLinks(h, c, w, p, self, red, far);
  }

  lemma SelfLinks(h: Heap, c: Ctx, w: Dir, near: Tree, self: Ref, red: bool, far: Tree)
    requires Focus(h, In(w, self, red, far, c), near)
    ensures Links(h.nodes, self, w, RefOf(near), RefOf(far), FatherOf(c), PosOf(c), red)
    ensures Ids(far) <= h.nodes.Keys && CtxIds(c) <= h.nodes.Keys && Ids(near) <= h.nodes.Keys
    ensures 0 !in Ids(far) && 0 !in CtxIds(c) && 0 !in Ids(near)
    ensures self !in Ids(near) && self !in Ids(far) && self !in CtxIds(c)
    ensures Ids(near) !! Ids(far) && Ids(near) !! CtxIds(c) && Ids(far) !! CtxIds(c)
  {
    IdsKnown(h.nodes, far, self, Other(w));
    IdsKnown(h.nodes, near, self, w);
    CtxIdsKnown(h.nodes, c, self, h.root);
  }

  /** In memory, the stand-in is taken out and then takes the place of `self`. */
  lemma SwapEffect(h: Heap, a: Ctx, c: Ctx, w: Dir, far: Tree, self: Ref, red: bool, s: Ref, sr: bool, son: Tree)
    requires Ready(h, a, c, w, far, self, red, s, sr, son)
    ensures s in h.nodes && s != 0 && Known(h, h.nodes[s].father) && Known(h, RefOf(son))
    ensures s !in Splice(h, s, RefOf(son), false).nodes
    ensures Swappable(h, self, s) && LinksKnown(Splice(h, s, RefOf(son), false), self)
    ensures ReplacedBy(Splice(h, s, RefOf(son), false), SwapPrune(h, self, s), self, s)
  {
    var b := In(w, self, red, far, c);
    var ctx, st := Append(a, b), Make(w, son, s, sr, E);
    ReadyCast(h, a, c, w, far, self, red, s, sr, son);
    SingleIsFocus(h, ctx, w, son, s, sr);
    SonLinks(h, ctx, w, son, s, sr);
    AppendIds(a, b);
    PlugRoot(a, st);
    assert s !in Splice(h, s, RefOf(son), false).nodes;
    hide Focus, Rep, Ids, Distinct, RepCtx, DistinctCtx, SwapPrune, Splice, ReplacedBy;
    if a.Top? {
      SwapChild(h, self, s, w, far.id, FatherOf(c), RefOf(son));
    } else {
      RootIsInside(h, a, b, w, son, s, sr);
      SwapDeep(h, self, s, w, Plug(a, st).id, far.id, FatherOf(c), a.id, RefOf(son));
    }
  }

  lemma RootIsInside(h: Heap, a: Ctx, b: Ctx, w: Dir, son: Tree, s: Ref, sr: bool)
    requires Focus(h, Append(a, b), Make(w, son, s, sr, E)) && a.In? && b.In?
    ensures RefOf(Plug(a, Make(w, son, s, sr, E))) != s && a.id != b.id
  {
    SingleIsFocus(h, Append(a, b), w, son, s, sr);
    AppendIds(a, b);
    PlugRoot(a, Make(w, son, s, sr, E));
    assert a.id in CtxIds(a) && b.id in CtxIds(b);
  }

  /** The stand-in has taken the place of `self`, and its son the place of the stand-in. */
  lemma SwapOk(h: Heap, a: Ctx, c: Ctx, w: Dir, far: Tree, self: Ref, red: bool, s: Ref, sr: bool, son: Tree)
    requires Ready(h, a, c, w, far, self, red, s, sr, son)
    ensures Swappable(h, self, s)
    ensures Focus(SwapPrune(h, self, s), Append(a, In(w, s, red, far, c)), Repaint(son, false))
  {
    hide Focus, SwapPrune, Splice, Swappable, Plug, Append, Make, ReplacedBy;
    var b := In(w, self, red, far, c);
    SwapEffect(h, a, c, w, far, self, red, s, sr, son);
    var r := SwapPrune(h, self, s);
    SpliceOk(h, Append(a, b), w, son, s, sr, false);
    var h1 := Splice(h, s, RefOf(son), false);
    var p := Plug(a, Repaint(son, false));
    FocusAppend(h1, a, b, Repaint(son, false));
    FocusUp(h1, w, p, self, red, far, c);
    TakesPlace(h1, r, c, w, p, self, red, far, s);
    FocusUp(r, w, p, s, red, far, c);
    FocusAppend(r, a, In(w, s, red, far, c), Repaint(son, false));
  }

  lemma TakesPlace(h: Heap, r: Heap, c: Ctx, w: Dir, near: Tree, self: Ref, red: bool, far: Tree, s: Ref)
    requires Focus(h, c, Make(w, near, self, red, far)) && LinksKnown(h, self) && ReplacedBy(h, r, self, s)
    requires s !in h.nodes && s != 0
    ensures Focus(r, c, Make(w, near, s, red, far))
  {
    var t := Make(w, near, self, red, far);
    MiddleIsFocus(h, c, t.left, self, red, t.right);
    MiddleKnown(h, c, t.left, self, red, t.right);
    ReplaceOk(h, r, c, t.left, self, red, t.right, s);
  }
}
