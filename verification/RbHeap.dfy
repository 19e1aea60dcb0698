/**
 The nodes of compat/rbtree/rb.c in memory: child pointers, father pointer, position and colour.
 A focus of a tree (RbShape) is related to the memory that represents it, and every relinking
 step of the source is shown to turn the memory of one focus into that of another.
 */
module RbHeap {
  import opened RbShape
  import opened RbRules

  datatype Node = Node(left: Ref, right: Ref, father: Ref, pos: Dir, red: bool)

  /** All nodes of a tree and its root pointer. The father of the root is the tree head, written zero. */
  datatype Heap = Heap(nodes: map<Ref, Node>, root: Ref)

  function Child(n: Node, d: Dir): (x: Ref)
  {
    if d == L then n.left else n.right
  }

  function WithChild(n: Node, d: Dir, x: Ref): (r: Node)
    ensures Child(r, d) == x && Child(r, Other(d)) == Child(n, Other(d))
    ensures r.father == n.father && r.pos == n.pos && r.red == n.red
  {
    if d == L then n.(left := x) else n.(right := x)
  }

  // ---------------------------------------------------------------------------
  // Representation
  // ---------------------------------------------------------------------------

  function RefOf(t: Tree): (x: Ref)
  {
    if t.E? then 0 else t.id
  }

  ghost function Ids(t: Tree): (s: set<Ref>)
  {
    match t
    case E => {}
    case N(l, id, _, r) => {id} + Ids(l) + Ids(r)
  }

  ghost function CtxIds(c: Ctx): (s: set<Ref>)
  {
    match c
    case Top => {}
    case In(_, id, _, sib, up) => {id} + Ids(sib) + CtxIds(up)
  }

  ghost predicate Distinct(t: Tree)
  {
    match t
    case E => true
    case N(l, id, _, r) => id !in Ids(l) && id !in Ids(r) && Ids(l) !! Ids(r) && Distinct(l) && Distinct(r)
  }

  ghost predicate DistinctCtx(c: Ctx)
  {
    match c
    case Top => true
    case In(_, id, _, sib, up) =>
      && id !in Ids(sib) && id !in CtxIds(up) && Ids(sib) !! CtxIds(up) && Distinct(sib) && DistinctCtx(up)
  }

  function FatherOf(c: Ctx): (x: Ref)
  {
    if c.Top? then 0 else c.id
  }

  function PosOf(c: Ctx): (d: Dir)
  {
    if c.Top? then L else c.dir
  }

  /** The node has these children, this father, position and colour. */
  ghost predicate Links(m: map<Ref, Node>, id: Ref, d: Dir, near: Ref, far: Ref, f: Ref, p: Dir, red: bool)
  {
    && id != 0 && id in m
    && Child(m[id], d) == near && Child(m[id], Other(d)) == far
    && m[id].father == f && m[id].pos == p && m[id].red == red
  }

  /** The memory holds the tree `t`, hanging on side `p` of `f`. */
  ghost predicate Rep(m: map<Ref, Node>, t: Tree, f: Ref, p: Dir)
  {
    match t
    case E => true
    case N(l, id, red, r) =>
      Links(m, id, L, RefOf(l), RefOf(r), f, p, red) && Rep(m, l, id, L) && Rep(m, r, id, R)
  }

  /** The memory holds the surroundings `c` of a focus at `hole`. */
  ghost predicate RepCtx(m: map<Ref, Node>, c: Ctx, hole: Ref, root: Ref)
  {
    match c
    case Top => root == hole
    case In(d, id, red, sib, up) =>
      && Links(m, id, d, hole, RefOf(sib), FatherOf(up), PosOf(up), red)
      && Rep(m, sib, id, Other(d)) && RepCtx(m, up, id, root)
  }

  /** The memory holds exactly the tree around the focus, every node once. */
  ghost predicate Focus(h: Heap, c: Ctx, t: Tree)
  {
    && Rep(h.nodes, t, FatherOf(c), PosOf(c)) && RepCtx(h.nodes, c, RefOf(t), h.root)
    && Distinct(t) && DistinctCtx(c) && Ids(t) !! CtxIds(c)
    && h.nodes.Keys == Ids(t) + CtxIds(c)
  }

  // ---------------------------------------------------------------------------
  // Unfolding, independent of the side
  // ---------------------------------------------------------------------------

  lemma MakeRep(m: map<Ref, Node>, d: Dir, near: Tree, id: Ref, red: bool, far: Tree, f: Ref, p: Dir)
    ensures Rep(m, Make(d, near, id, red, far), f, p)
       <==> Links(m, id, d, RefOf(near), RefOf(far), f, p, red) && Rep(m, near, id, d) && Rep(m, far, id, Other(d))
  {
  }

  lemma MakeIds(d: Dir, near: Tree, id: Ref, red: bool, far: Tree)
    ensures Ids(Make(d, near, id, red, far)) == {id} + Ids(near) + Ids(far)
    ensures Distinct(Make(d, near, id, red, far))
       <==> id !in Ids(near) && id !in Ids(far) && Ids(near) !! Ids(far) && Distinct(near) && Distinct(far)
    ensures RefOf(Make(d, near, id, red, far)) == id
  {
  }

  lemma MakeSides(t: Tree, d: Dir)
    requires t.N?
    ensures t == Make(d, Side(t, d), t.id, t.red, Side(t, Other(d)))
  {
  }

  /** Moving the focus between a child and its father. */
  lemma FocusUp(h: Heap, d: Dir, t: Tree, id: Ref, red: bool, sib: Tree, up: Ctx)
    ensures Focus(h, In(d, id, red, sib, up), t) <==> Focus(h, up, Make(d, t, id, red, sib))
  {
    MakeRep(h.nodes, d, t, id, red, sib, FatherOf(up), PosOf(up));
    MakeIds(d, t, id, red, sib);
    var c := In(d, id, red, sib, up);
    assert CtxIds(c) == {id} + Ids(sib) + CtxIds(up);
    assert Ids(t) + CtxIds(c) == ({id} + Ids(t) + Ids(sib)) + CtxIds(up);
  }

  lemma {:induction false} FocusIsWhole(h: Heap, c: Ctx, t: Tree)
    ensures Focus(h, c, t) <==> Focus(h, Top, Plug(c, t))
  {
    if c.In? {
      FocusUp(h, c.dir, t, c.id, c.red, c.sib, c.up);
      FocusIsWhole(h, c.up, Make(c.dir, t, c.id, c.red, c.sib));
    }
  }

  // ---------------------------------------------------------------------------
  // Frames
  // ---------------------------------------------------------------------------

  ghost predicate SameOn(m: map<Ref, Node>, m': map<Ref, Node>, s: set<Ref>)
  {
    forall x :: x in s ==> x in m && x in m' && m[x] == m'[x]
  }

  lemma {:induction false} RepFrame(m: map<Ref, Node>, m': map<Ref, Node>, t: Tree, f: Ref, p: Dir)
    requires Rep(m, t, f, p) && SameOn(m, m', Ids(t))
    ensures Rep(m', t, f, p)
  {
    if t.N? {
      assert t.id in Ids(t);
      RepFrame(m, m', t.left, t.id, L);
      RepFrame(m, m', t.right, t.id, R);
    }
  }

  lemma {:induction false} RepCtxFrame(m: map<Ref, Node>, m': map<Ref, Node>, c: Ctx, hole: Ref, root: Ref)
    requires RepCtx(m, c, hole, root) && SameOn(m, m', CtxIds(c))
    ensures RepCtx(m', c, hole, root)
  {
    if c.In? {
      assert c.id in CtxIds(c);
      RepFrame(m, m', c.sib, c.id, Other(c.dir));
      RepCtxFrame(m, m', c.up, c.id, root);
    }
  }

  /** A subtree is hung elsewhere by changing its root's father and position. */
  lemma Rehung(m: map<Ref, Node>, m': map<Ref, Node>, t: Tree, f: Ref, p: Dir, f': Ref, p': Dir)
    requires Rep(m, t, f, p) && Distinct(t) && SameOn(m, m', Ids(t) - {RefOf(t)})
    requires t.N? ==> t.id in m' && m'[t.id] == m[t.id].(father := f', pos := p')
    ensures Rep(m', t, f', p')
  {
    if t.N? {
      RepFrame(m, m', t.left, t.id, L);
      RepFrame(m, m', t.right, t.id, R);
    }
  }

  /** Another subtree is hung below the innermost node of the surroundings. */
  lemma HoleSet(h: Heap, h': Heap, c: Ctx, hole: Ref, hole': Ref)
    requires RepCtx(h.nodes, c, hole, h.root) && DistinctCtx(c)
    requires SameOn(h.nodes, h'.nodes, CtxIds(c) - {FatherOf(c)})
    requires if c.Top? then h'.root == hole'
             else h'.root == h.root && c.id in h.nodes && c.id in h'.nodes
                  && h'.nodes[c.id] == WithChild(h.nodes[c.id], c.dir, hole')
    ensures RepCtx(h'.nodes, c, hole', h'.root)
  {
    if c.In? {
      RepFrame(h.nodes, h'.nodes, c.sib, c.id, Other(c.dir));
      RepCtxFrame(h.nodes, h'.nodes, c.up, c.id, h.root);
    }
  }

  lemma {:induction false} IdsKnown(m: map<Ref, Node>, t: Tree, f: Ref, p: Dir)
    requires Rep(m, t, f, p)
    ensures 0 !in Ids(t) && Ids(t) <= m.Keys
  {
    if t.N? {
      IdsKnown(m, t.left, t.id, L);
      IdsKnown(m, t.right, t.id, R);
    }
  }

  lemma {:induction false} CtxIdsKnown(m: map<Ref, Node>, c: Ctx, hole: Ref, root: Ref)
    requires RepCtx(m, c, hole, root)
    ensures 0 !in CtxIds(c) && CtxIds(c) <= m.Keys
  {
    if c.In? {
      IdsKnown(m, c.sib, c.id, Other(c.dir));
      CtxIdsKnown(m, c.up, c.id, root);
    }
  }

  // ---------------------------------------------------------------------------
  // Memory writes
  // ---------------------------------------------------------------------------

  /** father->rb_nodes[d] = x, where the father may be the tree head. */
  function SetChild(h: Heap, f: Ref, d: Dir, x: Ref): (r: Heap)
    requires f == 0 || f in h.nodes
  {
    if f == 0 then h.(root := x) else h.(nodes := h.nodes[f := WithChild(h.nodes[f], d, x)])
  }

  function SetFather(h: Heap, x: Ref, f: Ref): (r: Heap)
    requires x in h.nodes
  {
    h.(nodes := h.nodes[x := h.nodes[x].(father := f)])
  }

  function SetPos(h: Heap, x: Ref, p: Dir): (r: Heap)
    requires x in h.nodes
  {
    h.(nodes := h.nodes[x := h.nodes[x].(pos := p)])
  }

  function SetRed(h: Heap, x: Ref, red: bool): (r: Heap)
    requires x in h.nodes
  {
    h.(nodes := h.nodes[x := h.nodes[x].(red := red)])
  }

  /** Repainting the root of the focus. */
  lemma Repainted(h: Heap, c: Ctx, t: Tree, red: bool)
    requires Focus(h, c, t) && t.N?
    ensures t.id in h.nodes && Focus(SetRed(h, t.id, red), c, Painted(t, red))
  {
    var h', t' := SetRed(h, t.id, red), Painted(t, red);
    RepFrame(h.nodes, h'.nodes, t.left, t.id, L);
    RepFrame(h.nodes, h'.nodes, t.right, t.id, R);
    RepCtxFrame(h.nodes, h'.nodes, c, t.id, h.root);
    assert Ids(t') == Ids(t);
  }

  // ---------------------------------------------------------------------------
  // rb_tree_reparent_nodes
  // ---------------------------------------------------------------------------

  /** A pointer is the sentinel or leads to a node. */
  predicate Known(h: Heap, x: Ref)
  {
    x == 0 || x in h.nodes
  }

  /** The pointers that a rotation at `y` reads. */
  predicate Rotatable(h: Heap, y: Ref, w: Dir)
  {
    && y in h.nodes && Known(h, h.nodes[y].father)
    && var x := Child(h.nodes[y], w);
    x in h.nodes && Known(h, Child(h.nodes[x], Other(w)))
  }

  /** RB_SWAP_PROPERTIES. */
  function SwapProperties(h: Heap, a: Ref, b: Ref): (r: Heap)
    requires a in h.nodes && b in h.nodes
  {
    var p, q := h.nodes[a], h.nodes[b];
    h.(nodes := h.nodes[a := p.(pos := q.pos, red := q.red)][b := q.(pos := p.pos, red := p.red)])
  }

  /** The subtree at `x`, if there is one, gets a new father and position. */
  function Adopt(h: Heap, x: Ref, f: Ref, p: Dir): (r: Heap)
    requires Known(h, x)
  {
    if x == 0 then h else SetPos(SetFather(h, x, f), x, p)
  }

  function Rotate(h: Heap, y: Ref, w: Dir): (r: Heap)
    requires Rotatable(h, y, w)
  {
    var o, grandpa, x := Other(w), h.nodes[y].father, Child(h.nodes[y], w);
    var inner := Child(h.nodes[x], o);
    var h1 := SetChild(h, grandpa, h.nodes[y].pos, x);
    var h2 := SetChild(h1, y, w, inner);
    var h3 := SetChild(h2, x, o, y);
    var h4 := SetFather(SetFather(h3, x, grandpa), y, x);
    var h5 := SetPos(SwapProperties(h4, x, y), y, o);
    Adopt(h5, inner, y, w)
  }

  /** The nodes after a rotation, one by one. */
  ghost predicate RotationOf(h: Heap, r: Heap, y: Ref, w: Dir, g: Ref, x: Ref, b: Ref)
    requires y in h.nodes && x in h.nodes && Known(h, g) && Known(h, b)
  {
    var o, p := Other(w), h.nodes[y].pos;
    && r.nodes.Keys == h.nodes.Keys
    && r.root == (if g == 0 then x else h.root)
    && Links(r.nodes, x, w, Child(h.nodes[x], w), y, g, p, h.nodes[y].red)
    && Links(r.nodes, y, w, b, Child(h.nodes[y], o), x, o, h.nodes[x].red)
    && (b != 0 ==> r.nodes[b] == h.nodes[b].(father := y, pos := w))
    && (g != 0 ==> r.nodes[g] == WithChild(h.nodes[g], p, x))
    && SameOn(h.nodes, r.nodes, h.nodes.Keys - {x, y, b, g})
  }

  lemma RotateEffect(h: Heap, y: Ref, w: Dir, g: Ref, x: Ref, b: Ref)
    requires Rotatable(h, y, w) && y != 0 && x != 0 && x != y && g != x && g != y && b != x && b != y && (b == g ==> b == 0)
    requires g == h.nodes[y].father && x == Child(h.nodes[y], w) && b == Child(h.nodes[x], Other(w))
    ensures RotationOf(h, Rotate(h, y, w), y, w, g, x, b)
  {
  }

  /** The rotation in memory is the rotation of the tree, wherever the focus is. */
  lemma RotateOk(h: Heap, c: Ctx, t: Tree, w: Dir)
    requires Focus(h, c, t) && t.N? && Side(t, w).N?
    ensures Rotatable(h, t.id, w) && Focus(Rotate(h, t.id, w), c, Rotated(w, t))
  {
    var xt, o := Side(t, w), Other(w);
    RotateParts(h, c, w, Side(xt, w), xt.id, xt.red, Side(xt, o), t.id, t.red, Side(t, o));
  }

  /** A focus on a node `y` and its child `x` on side `w`, taken apart. */
  ghost predicate Pair(h: Heap, c: Ctx, w: Dir, a: Tree, x: Ref, xr: bool, b: Tree, y: Ref, yr: bool, z: Tree)
  {
    var m, o := h.nodes, Other(w);
    && Links(m, y, w, x, RefOf(z), FatherOf(c), PosOf(c), yr) && Links(m, x, w, RefOf(a), RefOf(b), y, w, xr)
    && Rep(m, a, x, w) && Rep(m, b, x, o) && Rep(m, z, y, o) && RepCtx(m, c, y, h.root)
    && Distinct(a) && Distinct(b) && Distinct(z) && DistinctCtx(c)
    && Separate(x, y, Ids(a), Ids(b), Ids(z), CtxIds(c))
    && m.Keys == {x, y} + Ids(a) + Ids(b) + Ids(z) + CtxIds(c)
  }

  ghost predicate Separate(x: Ref, y: Ref, a: set<Ref>, b: set<Ref>, z: set<Ref>, c: set<Ref>)
  {
    && x != y && x !in a + b + z + c && y !in a + b + z + c
    && a !! b && a !! z && a !! c && b !! z && b !! c && z !! c
  }

  lemma PairIsFocus(h: Heap, c: Ctx, w: Dir, a: Tree, x: Ref, xr: bool, b: Tree, y: Ref, yr: bool, z: Tree)
    ensures Focus(h, c, Make(w, Make(w, a, x, xr, b), y, yr, z)) <==> Pair(h, c, w, a, x, xr, b, y, yr, z)
  {
    hide Rep, Ids, Distinct, RepCtx, CtxIds, DistinctCtx, Make, Links;
    MakeIds(w, Make(w, a, x, xr, b), y, yr, z);
    MakeIds(w, a, x, xr, b);
    MakeRep(h.nodes, w, Make(w, a, x, xr, b), y, yr, z, FatherOf(c), PosOf(c));
    MakeRep(h.nodes, w, a, x, xr, b, y, w);
  }

  /** Nodes that may be the same only if they are no nodes. */
  lemma PairIsRotatable(h: Heap, c: Ctx, w: Dir, a: Tree, x: Ref, xr: bool, b: Tree, y: Ref, yr: bool, z: Tree)
    requires Pair(h, c, w, a, x, xr, b, y, yr, z)
    ensures Rotatable(h, y, w) && y != 0 && x != 0 && Known(h, FatherOf(c)) && Known(h, RefOf(b))
    ensures FatherOf(c) != x && FatherOf(c) != y && RefOf(b) != x && RefOf(b) != y && (RefOf(b) == FatherOf(c) ==> RefOf(b) == 0)
  {
    IdsKnown(h.nodes, b, x, Other(w));
    CtxIdsKnown(h.nodes, c, y, h.root);
    assert c.In? ==> c.id in CtxIds(c);
    assert b.N? ==> b.id in Ids(b);
  }

  /** The parts after the rotation: two subtrees untouched, the inner one rehung, another child above. */
  lemma RotatedReps(h: Heap, r: Heap, c: Ctx, w: Dir, a: Tree, x: Ref, xr: bool, b: Tree, y: Ref, yr: bool, z: Tree)
    requires Pair(h, c, w, a, x, xr, b, y, yr, z)
    requires Known(h, FatherOf(c)) && Known(h, RefOf(b)) && RotationOf(h, r, y, w, FatherOf(c), x, RefOf(b))
    ensures Rep(r.nodes, a, x, w) && Rep(r.nodes, b, y, w) && Rep(r.nodes, z, y, Other(w)) && RepCtx(r.nodes, c, x, r.root)
  {
    RotatedFrames(h, r, c, w, a, x, xr, b, y, yr, z);
    RefIsInside(b, c);
    OutsideZero(h, c, w, a, x, xr, b, y, yr, z);
    PairLinks(h, c, w, a, x, xr, b, y, yr, z);
    hide Rep, Ids, Distinct, RepCtx, CtxIds, DistinctCtx, SameOn, Links, Separate;
    var m, m' := h.nodes, r.nodes;
    RepFrame(m, m', a, x, w);
    RepFrame(m, m', z, y, Other(w));
    Rehung(m, m', b, x, Other(w), y, w);
    HoleSet(h, r, c, y, x);
  }

  lemma RotatedPair(h: Heap, r: Heap, c: Ctx, w: Dir, a: Tree, x: Ref, xr: bool, b: Tree, y: Ref, yr: bool, z: Tree)
    requires Pair(h, c, w, a, x, xr, b, y, yr, z)
    requires Known(h, FatherOf(c)) && Known(h, RefOf(b)) && RotationOf(h, r, y, w, FatherOf(c), x, RefOf(b))
    ensures Pair(r, c, Other(w), z, y, xr, b, x, yr, a)
  {
    hide Rep, Ids, Distinct, RepCtx, CtxIds, DistinctCtx, SameOn, Links, Separate;
    RotatedReps(h, r, c, w, a, x, xr, b, y, yr, z);
    RotatedLinks(h, r, c, w, a, x, xr, b, y, yr, z);
    SeparateTurned(x, y, Ids(a), Ids(b), Ids(z), CtxIds(c));
  }

  lemma SeparateTurned(x: Ref, y: Ref, a: set<Ref>, b: set<Ref>, z: set<Ref>, c: set<Ref>)
    requires Separate(x, y, a, b, z, c)
    ensures Separate(y, x, z, b, a, c) && {x, y} + a + b + z + c == {y, x} + z + b + a + c
  {
  }

  lemma SameOnPart(m: map<Ref, Node>, m': map<Ref, Node>, s: set<Ref>, part: set<Ref>)
    requires SameOn(m, m', s) && part <= s
    ensures SameOn(m, m', part)
  {
  }

  lemma RefIsInside(t: Tree, c: Ctx)
    ensures t.N? ==> RefOf(t) in Ids(t)
    ensures c.In? ==> FatherOf(c) in CtxIds(c)
  {
  }

  lemma OutsideZero(h: Heap, c: Ctx, w: Dir, a: Tree, x: Ref, xr: bool, b: Tree, y: Ref, yr: bool, z: Tree)
    requires Pair(h, c, w, a, x, xr, b, y, yr, z)
    ensures 0 !in Ids(a) && 0 !in Ids(b) && 0 !in Ids(z) && 0 !in CtxIds(c) && x != 0 && y != 0
  {
    IdsKnown(h.nodes, a, x, w);
    IdsKnown(h.nodes, b, x, Other(w));
    IdsKnown(h.nodes, z, y, Other(w));
    CtxIdsKnown(h.nodes, c, y, h.root);
  }

  lemma RotatedFrames(h: Heap, r: Heap, c: Ctx, w: Dir, a: Tree, x: Ref, xr: bool, b: Tree, y: Ref, yr: bool, z: Tree)
    requires Pair(h, c, w, a, x, xr, b, y, yr, z)
    requires SameOn(h.nodes, r.nodes, h.nodes.Keys - {x, y, RefOf(b), FatherOf(c)})
    ensures SameOn(h.nodes, r.nodes, Ids(a)) && SameOn(h.nodes, r.nodes, Ids(z))
    ensures SameOn(h.nodes, r.nodes, Ids(b) - {RefOf(b)}) && SameOn(h.nodes, r.nodes, CtxIds(c) - {FatherOf(c)})
  {
    hide Rep, Ids, Distinct, RepCtx, CtxIds, DistinctCtx, SameOn, Links;
    var m, m' := h.nodes, r.nodes;
    var same := m.Keys - {x, y, RefOf(b), FatherOf(c)};
    RefIsInside(b, c);
    OutsideZero(h, c, w, a, x, xr, b, y, yr, z);
    SameOnPart(m, m', same, Ids(a));
    SameOnPart(m, m', same, Ids(z));
    SameOnPart(m, m', same, Ids(b) - {RefOf(b)});
    SameOnPart(m, m', same, CtxIds(c) - {FatherOf(c)});
  }

  lemma RotatedLinks(h: Heap, r: Heap, c: Ctx, w: Dir, a: Tree, x: Ref, xr: bool, b: Tree, y: Ref, yr: bool, z: Tree)
    requires Pair(h, c, w, a, x, xr, b, y, yr, z)
    requires Known(h, FatherOf(c)) && Known(h, RefOf(b)) && RotationOf(h, r, y, w, FatherOf(c), x, RefOf(b))
    ensures Links(r.nodes, x, Other(w), y, RefOf(a), FatherOf(c), PosOf(c), yr)
    ensures Links(r.nodes, y, Other(w), RefOf(z), RefOf(b), x, Other(w), xr)
  {
    hide Rep, Ids, Distinct, RepCtx, CtxIds, DistinctCtx, SameOn, Separate;
  }

  lemma RotateParts(h: Heap, c: Ctx, w: Dir, a: Tree, x: Ref, xr: bool, b: Tree, y: Ref, yr: bool, z: Tree)
    requires Focus(h, c, Make(w, Make(w, a, x, xr, b), y, yr, z))
    ensures Rotatable(h, y, w) && Focus(Rotate(h, y, w), c, Make(w, a, x, yr, Make(w, b, y, xr, z)))
  {
    hide Focus, Pair, Rotate, RotationOf;
    PairIsFocus(h, c, w, a, x, xr, b, y, yr, z);
    PairIsRotatable(h, c, w, a, x, xr, b, y, yr, z);
    PairLinks(h, c, w, a, x, xr, b, y, yr, z);
    RotateEffect(h, y, w, FatherOf(c), x, RefOf(b));
    RotatedPair(h, Rotate(h, y, w), c, w, a, x, xr, b, y, yr, z);
    PairIsFocus(Rotate(h, y, w), c, Other(w), z, y, xr, b, x, yr, a);
  }

  lemma PairLinks(h: Heap, c: Ctx, w: Dir, a: Tree, x: Ref, xr: bool, b: Tree, y: Ref, yr: bool, z: Tree)
    requires Pair(h, c, w, a, x, xr, b, y, yr, z)
    ensures y in h.nodes && x in h.nodes && x != y
    ensures h.nodes[y].father == FatherOf(c) && h.nodes[y].pos == PosOf(c) && Child(h.nodes[y], w) == x && Child(h.nodes[x], Other(w)) == RefOf(b)
  {
  }

  // ---------------------------------------------------------------------------
  // A node enters
  // ---------------------------------------------------------------------------

  /** A childless node is initialised and hung on side `p` of `f`. */
  function AddLeaf(h: Heap, x: Ref, f: Ref, p: Dir, red: bool): (r: Heap)
    requires Known(h, f)
  {
    SetChild(h.(nodes := h.nodes[x := Node(0, 0, f, p, red)]), f, p, x)
  }

  lemma AddLeafOk(h: Heap, c: Ctx, x: Ref, red: bool)
    requires Focus(h, c, E) && x != 0 && x !in h.nodes
    ensures Known(h, FatherOf(c)) && Focus(AddLeaf(h, x, FatherOf(c), PosOf(c), red), c, N(E, x, red, E))
  {
    CtxIdsKnown(h.nodes, c, 0, h.root);
    RefIsInside(E, c);
    var r, t := AddLeaf(h, x, FatherOf(c), PosOf(c), red), N(E, x, red, E);
    hide RepCtx, CtxIds, DistinctCtx;
    assert SameOn(h.nodes, r.nodes, CtxIds(c) - {FatherOf(c)});
    HoleSet(h, r, c, 0, x);
    assert Links(r.nodes, x, L, 0, 0, FatherOf(c), PosOf(c), red);
    assert Rep(r.nodes, t, FatherOf(c), PosOf(c));
    assert Ids(t) == {x} && Distinct(t);
    assert r.nodes.Keys == {x} + CtxIds(c);
  }

  // ---------------------------------------------------------------------------
  // A node with at most one child leaves
  // ---------------------------------------------------------------------------

  function Without(h: Heap, x: Ref): (r: Heap)
  {
    h.(nodes := h.nodes - {x})
  }

  /** `x` leaves, and `son`, in the colour `red`, takes its place. */
  function Splice(h: Heap, x: Ref, son: Ref, red: bool): (r: Heap)
    requires x in h.nodes && Known(h, h.nodes[x].father) && Known(h, son)
  {
    var f, p := h.nodes[x].father, h.nodes[x].pos;
    var h1 := Adopt(h, son, f, p);
    var h2 := if son == 0 then h1 else SetRed(h1, son, red);
    Without(SetChild(h2, f, p, son), x)
  }

  function Repaint(t: Tree, red: bool): (r: Tree)
  {
    if t.E? then E else Painted(t, red)
  }

  /** A focus on a node with at most one child, taken apart. */
  ghost predicate Single(h: Heap, c: Ctx, w: Dir, son: Tree, x: Ref, red: bool)
  {
    && Links(h.nodes, x, w, RefOf(son), 0, FatherOf(c), PosOf(c), red)
    && Rep(h.nodes, son, x, w) && RepCtx(h.nodes, c, x, h.root)
    && Distinct(son) && DistinctCtx(c) && x !in Ids(son) && x !in CtxIds(c) && Ids(son) !! CtxIds(c)
    && h.nodes.Keys == {x} + Ids(son) + CtxIds(c)
  }

  lemma SingleIsFocus(h: Heap, c: Ctx, w: Dir, son: Tree, x: Ref, red: bool)
    ensures Focus(h, c, Make(w, son, x, red, E)) <==> Single(h, c, w, son, x, red)
  {
    MakeIds(w, son, x, red, E);
    MakeRep(h.nodes, w, son, x, red, E, FatherOf(c), PosOf(c));
  }

  /** The son takes the place of a leaving node, wherever the focus is. */
  lemma SpliceOk(h: Heap, c: Ctx, w: Dir, son: Tree, x: Ref, red: bool, colour: bool)
    requires Focus(h, c, Make(w, son, x, red, E))
    ensures x in h.nodes && Known(h, h.nodes[x].father) && Known(h, RefOf(son))
    ensures Focus(Splice(h, x, RefOf(son), colour), c, Repaint(son, colour))
  {
    hide Focus, Splice;
    SingleIsFocus(h, c, w, son, x, red);
    SingleKnown(h, c, w, son, x, red);
    SpliceEffect(h, x, RefOf(son), colour, FatherOf(c), PosOf(c));
    SplicedFocus(h, Splice(h, x, RefOf(son), colour), c, w, son, x, red, colour);
  }

  lemma SingleKnown(h: Heap, c: Ctx, w: Dir, son: Tree, x: Ref, red: bool)
    requires Single(h, c, w, son, x, red)
    ensures x in h.nodes && h.nodes[x].father == FatherOf(c) && h.nodes[x].pos == PosOf(c)
    ensures Known(h, FatherOf(c)) && Known(h, RefOf(son)) && x != 0 && 0 !in Ids(son) && 0 !in CtxIds(c)
    ensures FatherOf(c) != x && RefOf(son) != x && (FatherOf(c) == RefOf(son) ==> RefOf(son) == 0)
  {
    IdsKnown(h.nodes, son, x, w);
    CtxIdsKnown(h.nodes, c, x, h.root);
    RefIsInside(son, c);
  }

  /** The nodes after `x` has left, one by one. */
  ghost predicate SpliceOf(h: Heap, r: Heap, x: Ref, f: Ref, p: Dir, son: Ref, colour: bool)
    requires Known(h, f) && Known(h, son)
  {
    && r.nodes.Keys == h.nodes.Keys - {x}
    && r.root == (if f == 0 then son else h.root)
    && (son != 0 ==> son in r.nodes && r.nodes[son] == h.nodes[son].(father := f, pos := p, red := colour))
    && (f != 0 ==> f in r.nodes && r.nodes[f] == WithChild(h.nodes[f], p, son))
    && SameOn(h.nodes, r.nodes, h.nodes.Keys - {x, son, f})
  }

  lemma SpliceEffect(h: Heap, x: Ref, son: Ref, colour: bool, f: Ref, p: Dir)
    requires x in h.nodes && f == h.nodes[x].father && p == h.nodes[x].pos && Known(h, f) && Known(h, son)
    requires x != 0 && f != x && son != x && (f == son ==> son == 0)
    ensures SpliceOf(h, Splice(h, x, son, colour), x, f, p, son, colour)
  {
  }

  lemma SplicedFrames(h: Heap, r: Heap, c: Ctx, w: Dir, son: Tree, x: Ref, red: bool)
    requires Single(h, c, w, son, x, red)
    requires SameOn(h.nodes, r.nodes, h.nodes.Keys - {x, RefOf(son), FatherOf(c)})
    ensures SameOn(h.nodes, r.nodes, Ids(son) - {RefOf(son)}) && SameOn(h.nodes, r.nodes, CtxIds(c) - {FatherOf(c)})
  {
    hide Rep, Ids, Distinct, RepCtx, CtxIds, DistinctCtx, SameOn, Links;
    var same := h.nodes.Keys - {x, RefOf(son), FatherOf(c)};
    RefIsInside(son, c);
    SingleKnown(h, c, w, son, x, red);
    SameOnPart(h.nodes, r.nodes, same, Ids(son) - {RefOf(son)});
    SameOnPart(h.nodes, r.nodes, same, CtxIds(c) - {FatherOf(c)});
  }

  /** The son's subtree in its new place and colour. */
  lemma MovedSon(m: map<Ref, Node>, m': map<Ref, Node>, son: Tree, x: Ref, w: Dir, f: Ref, p: Dir, colour: bool)
    requires Rep(m, son, x, w) && Distinct(son) && SameOn(m, m', Ids(son) - {RefOf(son)})
    requires son.N? ==> son.id in m' && m'[son.id] == m[son.id].(father := f, pos := p, red := colour)
    ensures Rep(m', Repaint(son, colour), f, p)
    ensures Ids(Repaint(son, colour)) == Ids(son) && Distinct(Repaint(son, colour)) && RefOf(Repaint(son, colour)) == RefOf(son)
  {
    if son.N? {
      RepFrame(m, m', son.left, son.id, L);
      RepFrame(m, m', son.right, son.id, R);
    }
  }

  lemma SplicedFocus(h: Heap, r: Heap, c: Ctx, w: Dir, son: Tree, x: Ref, red: bool, colour: bool)
    requires Single(h, c, w, son, x, red) && Known(h, FatherOf(c)) && Known(h, RefOf(son))
    requires SpliceOf(h, r, x, FatherOf(c), PosOf(c), RefOf(son), colour)
    ensures Focus(r, c, Repaint(son, colour))
  {
    hide Rep, Ids, Distinct, RepCtx, CtxIds, DistinctCtx, SameOn, Links, Repaint;
    SingleKnown(h, c, w, son, x, red);
    RefIsInside(son, c);
    SplicedFrames(h, r, c, w, son, x, red);
    MovedSon(h.nodes, r.nodes, son, x, w, FatherOf(c), PosOf(c), colour);
    HoleSet(h, r, c, x, RefOf(son));
    assert r.nodes.Keys == Ids(son) + CtxIds(c);
  }

  // ---------------------------------------------------------------------------
  // Another node takes the place of a node
  // ---------------------------------------------------------------------------

  function Fathered(h: Heap, x: Ref, f: Ref): (r: Heap)
    requires Known(h, x)
  {
    if x == 0 then h else SetFather(h, x, f)
  }

  /** The pointers of the node `x`. */
  predicate LinksKnown(h: Heap, x: Ref)
  {
    x in h.nodes && Known(h, h.nodes[x].father) && Known(h, h.nodes[x].left) && Known(h, h.nodes[x].right)
  }

  /** The nodes after `s` has taken the place of `x`, one by one. */
  ghost predicate ReplaceOf(h: Heap, r: Heap, x: Ref, s: Ref, l: Ref, rt: Ref, f: Ref, p: Dir, red: bool)
    requires Known(h, l) && Known(h, rt) && Known(h, f)
  {
    && r.nodes.Keys == h.nodes.Keys - {x} + {s}
    && r.root == (if f == 0 then s else h.root)
    && r.nodes[s] == Node(l, rt, f, p, red)
    && (l != 0 ==> l in r.nodes && r.nodes[l] == h.nodes[l].(father := s))
    && (rt != 0 ==> rt in r.nodes && r.nodes[rt] == h.nodes[rt].(father := s))
    && (f != 0 ==> f in r.nodes && r.nodes[f] == WithChild(h.nodes[f], p, s))
    && SameOn(h.nodes, r.nodes, h.nodes.Keys - {x, l, rt, f})
  }

  /** The pointers of a node lead to different nodes. */
  ghost predicate Spread(x: Ref, s: Ref, l: Ref, rt: Ref, f: Ref)
  {
    && x != 0 && s != 0 && s != x && l != x && rt != x && f != x && l != s && rt != s && f != s
    && (l == rt ==> l == 0) && (l == f ==> l == 0) && (rt == f ==> rt == 0)
  }

  /** A focus on a node, taken apart. */
  ghost predicate Middle(h: Heap, c: Ctx, l: Tree, x: Ref, red: bool, rt: Tree)
  {
    && Links(h.nodes, x, L, RefOf(l), RefOf(rt), FatherOf(c), PosOf(c), red)
    && Rep(h.nodes, l, x, L) && Rep(h.nodes, rt, x, R) && RepCtx(h.nodes, c, x, h.root)
    && Distinct(l) && Distinct(rt) && DistinctCtx(c)
    && Parted(x, Ids(l), Ids(rt), CtxIds(c)) && h.nodes.Keys == {x} + Ids(l) + Ids(rt) + CtxIds(c)
  }

  ghost predicate Parted(x: Ref, l: set<Ref>, rt: set<Ref>, c: set<Ref>)
  {
    x !in l && x !in rt && x !in c && l !! rt && l !! c && rt !! c
  }

  lemma MiddleIsFocus(h: Heap, c: Ctx, l: Tree, x: Ref, red: bool, rt: Tree)
    ensures Focus(h, c, N(l, x, red, rt)) <==> Middle(h, c, l, x, red, rt)
  {
    hide Rep, Ids, Distinct, RepCtx, CtxIds, DistinctCtx, Links;
    MakeIds(L, l, x, red, rt);
    MakeRep(h.nodes, L, l, x, red, rt, FatherOf(c), PosOf(c));
  }

  lemma MiddleKnown(h: Heap, c: Ctx, l: Tree, x: Ref, red: bool, rt: Tree)
    requires Middle(h, c, l, x, red, rt)
    ensures LinksKnown(h, x) && h.nodes[x] == Node(RefOf(l), RefOf(rt), FatherOf(c), PosOf(c), red)
    ensures 0 !in Ids(l) && 0 !in Ids(rt) && 0 !in CtxIds(c)
    ensures forall s :: s != 0 && s !in h.nodes ==> Spread(x, s, RefOf(l), RefOf(rt), FatherOf(c))
  {
    IdsKnown(h.nodes, l, x, L);
    IdsKnown(h.nodes, rt, x, R);
    CtxIdsKnown(h.nodes, c, x, h.root);
    RefIsInside(l, c);
    RefIsInside(rt, c);
  }

  lemma ReplacedFrames(h: Heap, r: Heap, c: Ctx, l: Tree, x: Ref, red: bool, rt: Tree)
    requires Middle(h, c, l, x, red, rt)
    requires SameOn(h.nodes, r.nodes, h.nodes.Keys - {x, RefOf(l), RefOf(rt), FatherOf(c)})
    ensures SameOn(h.nodes, r.nodes, Ids(l) - {RefOf(l)}) && SameOn(h.nodes, r.nodes, Ids(rt) - {RefOf(rt)})
    ensures SameOn(h.nodes, r.nodes, CtxIds(c) - {FatherOf(c)})
  {
    hide Rep, Ids, Distinct, RepCtx, CtxIds, DistinctCtx, SameOn, Links;
    var same := h.nodes.Keys - {x, RefOf(l), RefOf(rt), FatherOf(c)};
    RefIsInside(l, c);
    RefIsInside(rt, c);
    MiddleKnown(h, c, l, x, red, rt);
    SameOnPart(h.nodes, r.nodes, same, Ids(l) - {RefOf(l)});
    SameOnPart(h.nodes, r.nodes, same, Ids(rt) - {RefOf(rt)});
    SameOnPart(h.nodes, r.nodes, same, CtxIds(c) - {FatherOf(c)});
  }

  lemma RootPos(m: map<Ref, Node>, t: Tree, f: Ref, p: Dir)
    requires Rep(m, t, f, p) && t.N?
    ensures t.id in m && m[t.id].pos == p
  {
  }

  lemma ReplacedReps(h: Heap, r: Heap, c: Ctx, l: Tree, x: Ref, red: bool, rt: Tree, s: Ref)
    requires Middle(h, c, l, x, red, rt) && s !in h.nodes && s != 0
    requires Known(h, RefOf(l)) && Known(h, RefOf(rt)) && Known(h, FatherOf(c))
    requires ReplaceOf(h, r, x, s, RefOf(l), RefOf(rt), FatherOf(c), PosOf(c), red)
    ensures Rep(r.nodes, l, s, L) && Rep(r.nodes, rt, s, R) && RepCtx(r.nodes, c, s, r.root)
  {
    ReplacedFrames(h, r, c, l, x, red, rt);
    RefIsInside(l, c);
    MiddleKnown(h, c, l, x, red, rt);
    hide Ids, Distinct, RepCtx, CtxIds, DistinctCtx, SameOn, Links, Parted, Rep;
    if l.N? {
      RootPos(h.nodes, l, x, L);
    }
    if rt.N? {
      RootPos(h.nodes, rt, x, R);
    }
    Rehung(h.nodes, r.nodes, l, x, L, s, L);
    Rehung(h.nodes, r.nodes, rt, x, R, s, R);
    HoleSet(h, r, c, x, s);
  }

  /** A node takes over all links of another, wherever the focus is. */
  lemma ReplaceOk(h: Heap, r: Heap, c: Ctx, l: Tree, x: Ref, red: bool, rt: Tree, s: Ref)
    requires Focus(h, c, N(l, x, red, rt)) && s !in h.nodes && s != 0
    requires Known(h, RefOf(l)) && Known(h, RefOf(rt)) && Known(h, FatherOf(c))
    requires ReplaceOf(h, r, x, s, RefOf(l), RefOf(rt), FatherOf(c), PosOf(c), red)
    ensures Focus(r, c, N(l, s, red, rt))
  {
    hide Focus, Rep, Ids, Distinct, RepCtx, CtxIds, DistinctCtx, SameOn;
    MiddleIsFocus(h, c, l, x, red, rt);
    MiddleKnown(h, c, l, x, red, rt);
    ReplacedReps(h, r, c, l, x, red, rt, s);
    assert r.nodes.Keys == {s} + Ids(l) + Ids(rt) + CtxIds(c);
    assert Parted(s, Ids(l), Ids(rt), CtxIds(c));
    MiddleIsFocus(r, c, l, s, red, rt);
  }
}
