/** The red-black tree of compat/rbtree/rb.c: its operations on the nodes in memory. */
module RbTree {
  import opened Common
  import opened RbShape
  import opened RbRules
  import opened RbHeap
  import opened RbSwap
  import opened RbMoves
  import opened RbOrder
  import opened RbWalk

  /** A cached extreme that is `self` becomes `heir`. */
  function HandedOver(extreme: Ref, self: Ref, heir: Ref): (r: Ref)
  {
    if extreme == self then heir else extreme
  }

  class RbTree {
    const compare: Compare
    var h: Heap
    /** rbt_minmax; without meaning in an empty tree. */
    var min: Ref
    var max: Ref
    ghost var tree: Tree

    /** The nodes in order. */
    ghost function Contents(): (s: seq<Ref>)
      reads this
    {
      Seq(tree)
    }

    ghost predicate Ok()
      reads this
    {
      && IsOrder(compare) && Focus(h, Top, tree) && RedBlack(tree)
      && Sorted(compare, Seq(tree)) && ExtremesOf(min, max, Seq(tree))
    }

    /** rb_tree_init. */
    constructor (cmp: Compare)
      requires IsOrder(cmp)
      ensures Ok() && Contents() == [] && compare == cmp
    {
      compare, h, min, max, tree := cmp, Heap(map[], 0), 0, 0, E;
      new;
      assert Well(E, 0);
    }

    // -------------------------------------------------------------------------
    // Searching
    // -------------------------------------------------------------------------

    /** A search has come down to `t`: all else is on the right side of the key. */
    ghost predicate Searching(diff: Ref -> int, c: Ctx, t: Tree)
      reads this
    {
      Focus(h, c, t) && Plug(c, t) == tree && All(c, t) == Seq(tree) && Split(diff, Pre(c), Post(c))
    }

    lemma SearchDown(diff: Ref -> int, c: Ctx, t: Tree, d: Dir)
      requires Searching(diff, c, t) && t.N? && Cut(diff, Seq(tree))
      requires if d == R then diff(t.id) < 0 else diff(t.id) > 0
      ensures Searching(diff, Below(c, t, d), Side(t, d))
      ensures t.id in h.nodes && Child(h.nodes[t.id], d) == RefOf(Side(t, d))
      ensures Depth(Side(t, d)) < Depth(t)
    {
      FocusNode(h, c, t);
      StepDown(h, c, t, d);
      SearchStep(diff, c, t, d);
    }

    lemma SearchStart(diff: Ref -> int)
      requires Ok()
      ensures Searching(diff, Top, tree) && h.root == RefOf(tree)
      ensures forall x :: x in Seq(tree) <==> x in h.nodes
      ensures 0 !in Seq(tree)
    {
      hide IsOrder, Sorted, RedBlack, ExtremesOf;
      SeqIsMemory(h, tree);
    }

    lemma SearchHit(diff: Ref -> int, c: Ctx, t: Tree)
      requires Searching(diff, c, t) && t.N? && diff(t.id) == 0 && Cut(diff, Seq(tree))
      ensures t.id in Seq(tree) && t.id != 0 && IsGeq(diff, Seq(tree), t.id) && IsLeq(diff, Seq(tree), t.id)
    {
      FocusNode(h, c, t);
      Around(c, t);
      CutHit(diff, Pre(c) + Seq(t.left), t.id, Seq(t.right) + Post(c));
    }

    /** rb_tree_find_node: exactly the node equal to the key, on a path of logarithmic length. */
    method Find(diff: Ref -> int) returns (x: Ref, ghost steps: nat)
      requires Ok() && Cut(diff, Contents())
      ensures x == 0 ==> forall y :: y in Contents() ==> diff(y) != 0
      ensures x != 0 ==> x in Contents() && diff(x) == 0
      ensures Pow2(steps) <= (|Contents()| + 1) * (|Contents()| + 1)
    {
      hide IsOrder, Sorted, ExtremesOf, Focus, Searching, RedBlack, Cut;
      SearchStart(diff);
      HeightBound(tree);
      ghost var c, t := Top, tree;
      x, steps := h.root, 0;
      while x != 0
        invariant Searching(diff, c, t) && x == RefOf(t) && steps + Depth(t) <= Depth(tree)
        decreases t
      {
        steps := steps + 1;
        if diff(x) == 0 {
          SearchHit(diff, c, t);
          Pow2Grows(steps, Depth(tree));
          return;
        }
        ghost var d := if diff(x) < 0 then R else L;
        SearchDown(diff, c, t, d);
        x := Child(h.nodes[x], if diff(x) < 0 then R else L);
        c, t := Below(c, t, d), Side(t, d);
      }
      SearchMiss(diff, c, t);
      Pow2Grows(steps, Depth(tree));
    }

    lemma SearchMiss(diff: Ref -> int, c: Ctx, t: Tree)
      requires Ok() && Searching(diff, c, t) && RefOf(t) == 0
      ensures t == E && forall y :: y in Seq(tree) ==> diff(y) != 0
      ensures IsGeq(diff, Seq(tree), FirstOf(Post(c))) && IsLeq(diff, Seq(tree), LastOf(Pre(c)))
    {
      hide IsOrder, Sorted, RedBlack, ExtremesOf;
      SeqIsMemory(h, tree);
      if t.N? {
        FocusNode(h, c, t);
      }
      SearchEnd(diff, c);
    }

    /** rb_tree_find_node_geq: the least node that is not below the key. */
    method FindGeq(diff: Ref -> int) returns (x: Ref)
      requires Ok() && Cut(diff, Contents())
      ensures IsGeq(diff, Contents(), x)
    {
      hide IsOrder, Sorted, ExtremesOf, Focus, Searching, RedBlack, Cut, IsGeq;
      SearchStart(diff);
      ghost var c, t := Top, tree;
      var parent, last := h.root, 0;
      while parent != 0
        invariant Searching(diff, c, t) && parent == RefOf(t) && last == FirstOf(Post(c))
        decreases t
      {
        if diff(parent) == 0 {
          SearchHit(diff, c, t);
          return parent;
        }
        ghost var d := if diff(parent) < 0 then R else L;
        SearchDown(diff, c, t, d);
        if diff(parent) > 0 {
          last := parent;
        }
        parent := Child(h.nodes[parent], if diff(parent) < 0 then R else L);
        c, t := Below(c, t, d), Side(t, d);
      }
      SearchMiss(diff, c, t);
      return last;
    }

    /** rb_tree_find_node_leq: the greatest node that is not above the key. */
    method FindLeq(diff: Ref -> int) returns (x: Ref)
      requires Ok() && Cut(diff, Contents())
      ensures IsLeq(diff, Contents(), x)
    {
      hide IsOrder, Sorted, ExtremesOf, Focus, Searching, RedBlack, Cut, IsLeq;
      SearchStart(diff);
      ghost var c, t := Top, tree;
      var parent, last := h.root, 0;
      while parent != 0
        invariant Searching(diff, c, t) && parent == RefOf(t) && last == LastOf(Pre(c))
        decreases t
      {
        if diff(parent) == 0 {
          SearchHit(diff, c, t);
          return parent;
        }
        ghost var d := if diff(parent) < 0 then R else L;
        SearchDown(diff, c, t, d);
        if diff(parent) < 0 {
          last := parent;
        }
        parent := Child(h.nodes[parent], if diff(parent) < 0 then R else L);
        c, t := Below(c, t, d), Side(t, d);
      }
      SearchMiss(diff, c, t);
      return last;
    }

    // -------------------------------------------------------------------------
    // Insertion
    // -------------------------------------------------------------------------

    /** The loop of rb_tree_insert_rebalance: as long as the uncle is red, the colours move up. */
    method RaiseRed(self0: Ref, ghost c0: Ctx, ghost t0: Tree, ghost n0: nat)
      returns (done: bool, self: Ref, father: Ref, grandpa: Ref, which: Dir, ghost c: Ctx, ghost t: Tree, ghost n: nat)
      requires Focus(h, c0, t0) && RedRed(c0, t0, n0) && self0 == t0.id
      modifies this`h
      ensures Focus(h, c, t) && All(c, t) == All(c0, t0)
      ensures done ==> Good(c, t, n)
      ensures !done ==> RedRed(c, t, n) && self == t.id && father == c.id && c.up.In?
                        && grandpa == c.up.id && which == c.up.dir && Black(c.up.sib)
    {
      hide Focus, RedRed, Good, All, Inverted;
      c, t, n, self, done := c0, t0, n0, self0, false;
      RedRedParts(c, t, n);
      GrandpaReads(h, c, t, n);
      father := h.nodes[self].father;
      while true
        invariant Focus(h, c, t) && RedRed(c, t, n) && All(c, t) == All(c0, t0)
        invariant t.N? && c.In? && self == t.id && father == c.id && !done
        decreases c
      {
        GrandpaReads(h, c, t, n);
        grandpa := h.nodes[father].father;
        which := if father == h.nodes[grandpa].right then R else L;
        var uncle := Child(h.nodes[grandpa], Other(which));
        if BlackRef(h, uncle) {
          return;
        }
        InvertMemory(h, c, t);
        InvertedOk(c, t, n);
        h := SetRed(h, uncle, false);
        h := SetRed(h, father, false);
        ghost var up, inverted := c.up.up, Inverted(c, t, c.up.red);
        InvertedRoot(h, c, t, c.up.red);
        if h.root == grandpa {
          done, c, t, n := true, up, inverted, n + 2;
          return;
        }
        h := SetRed(h, grandpa, true);
        InvertedRoot(h, c, t, true);
        c, t, n := up, Inverted(c, t, true), n + 1;
        self := grandpa;
        father := h.nodes[self].father;
        if !h.nodes[father].red {
          done := true;
          return;
        }
      }
    }

    /** Cases 2 and 3 of rb_tree_insert_rebalance: the uncle is black. */
    method RotateOut(self0: Ref, father0: Ref, grandpa: Ref, which: Dir, ghost c0: Ctx, ghost t0: Tree, ghost n0: nat)
      returns (ghost c: Ctx, ghost t: Tree, ghost n: nat)
      requires Focus(h, c0, t0) && RedRed(c0, t0, n0) && self0 == t0.id && father0 == c0.id && c0.up.In?
      requires grandpa == c0.up.id && which == c0.up.dir && Black(c0.up.sib)
      modifies this`h
      ensures Focus(h, c, t) && Good(c, t, n) && All(c, t) == All(c0, t0)
    {
      hide Focus, RedRed, Good, All, Rotated, Rotate;
      c, t, n := c0, t0, n0;
      var self, father := self0, father0;
      GrandpaReads(h, c, t, n);
      if self == Child(h.nodes[father], Other(which)) {
        ghost var f := Father(c, t);
        StepUp(h, c, t);
        RotateAll(h, c.up, f, c.dir);
        InnerToOuter(c, t, n);
        h := Rotate(h, father, Other(which));
        ghost var r := Rotated(c.dir, f);
        StepDown(h, c.up, r, which);
        c, t := Below(c.up, r, which), Side(r, which);
        self := father;
        GrandpaReads(h, c, t, n);
        father := h.nodes[self].father;
      }
      ghost var family := Family(c, t);
      StepUp(h, c, t);
      StepUp(h, c.up, Father(c, t));
      OuterOk(c, t, n);
      RotateAll(h, c.up.up, family, which);
      h := Rotate(h, grandpa, which);
      c, t, n := c.up.up, Rotated(which, family), n + 1;
      RotatedIsNode(which, family);
      RootIsBlack(h, c, t, n);
      h := SetRed(h, h.root, false);
    }

    /** rb_tree_insert_rebalance. */
    method InsertRebalance(self0: Ref, ghost c0: Ctx, ghost t0: Tree, ghost n0: nat)
      returns (ghost c: Ctx, ghost t: Tree, ghost n: nat)
      requires Focus(h, c0, t0) && RedRed(c0, t0, n0) && self0 == t0.id
      modifies this`h
      ensures Focus(h, c, t) && Good(c, t, n) && All(c, t) == All(c0, t0)
    {
      var done, self, father, grandpa, which;
      done, self, father, grandpa, which, c, t, n := RaiseRed(self0, c0, t0, n0);
      if !done {
        c, t, n := RotateOut(self, father, grandpa, which, c, t, n);
      }
    }

    /** Cases 3 and 4 of rb_tree_removal_rebalance: the brother is black and has a red son. */
    method Nephews(parent: Ref, which: Dir, brother0: Ref, ghost c0: Ctx, ghost t: Tree, ghost n: nat)
      returns (ghost c: Ctx, ghost r: Tree, ghost m: nat)
      requires Focus(h, c0, t) && Deficit(c0, t, n) && parent == c0.id && which == c0.dir
      requires c0.sib.N? && brother0 == c0.sib.id && !c0.sib.red && (!Black(c0.sib.left) || !Black(c0.sib.right))
      modifies this`h
      ensures Focus(h, c, r) && Good(c, r, m) && All(c, r) == All(c0, t)
    {
      hide Focus, All, Rotated, Rotate, Deficit, FarBlack, Good, Lifted;
      var other, brother := Other(which), brother0;
      c := c0;
      BrotherReads(h, c, t, n);
      if BlackRef(h, Child(h.nodes[brother], other)) {
        NearNephew(c, t, n);
        NearNephewMemory(h, c, t);
        h := Rotate(h, brother, which);
        c := c.(sib := Rotated(which, c.sib));
        BrotherReads(h, c, t, n);
        brother := Child(h.nodes[parent], other);
      }
      FarBlackMemory(h, c, t);
      h := SetRed(h, Child(h.nodes[brother], other), false);
      FarNephewMemory(h, c, t, n);
      h := Rotate(h, parent, other);
      r, m := Lifted(c, t), if c.red then n + 1 else n + 2;
      c := c.up;
    }

    /** rb_tree_removal_rebalance: the subtree on side `which` of `parent` is one black node short. */
    method RemovalRebalance(parent0: Ref, which0: Dir, ghost c0: Ctx, ghost t0: Tree, ghost n0: nat)
      returns (ghost c: Ctx, ghost t: Tree, ghost n: nat)
      requires Focus(h, c0, t0) && Deficit(c0, t0, n0) && parent0 == c0.id && which0 == c0.dir
      modifies this`h
      ensures Focus(h, c, t) && Good(c, t, n) && All(c, t) == All(c0, t0)
    {
      hide Focus, All, Rotate, Deficit, Good;
      var parent, which := parent0, which0;
      c, t, n := c0, t0, n0;
      BrotherReads(h, c, t, n);
      while true
        invariant Focus(h, c, t) && Deficit(c, t, n) && All(c, t) == All(c0, t0)
        invariant c.In? && parent == c.id && which == c.dir
        decreases c
      {
        BrotherReads(h, c, t, n);
        HasBrother(c, t, n);
        // the test of the loop never fails
        assert BlackRef(h, Child(h.nodes[parent], which));
        var other := Other(which);
        var brother := Child(h.nodes[parent], other);
        if !h.nodes[parent].red && BlackRef(h, h.nodes[brother].left) && BlackRef(h, h.nodes[brother].right) {
          if h.nodes[brother].red {
            ghost var c' := RedBrotherMemory(h, c, t, n);
            h := Rotate(h, parent, other);
            c := c';
            BrotherReads(h, c, t, n);
            brother := Child(h.nodes[parent], other);
          } else {
            AllBlackMemory(h, c, t, n);
            h := SetRed(h, brother, true);
            ghost var up := c.up;
            ghost var r := Father(c.(sib := Painted(c.sib, true)), t);
            if h.root == parent {
              return up, r, n + 1;
            }
            UpReads(h, up, r);
            which := h.nodes[parent].pos;
            parent := h.nodes[parent].father;
            c, t, n := up, r, n + 1;
            continue;
          }
        }
        if h.nodes[parent].red && !h.nodes[brother].red && BlackRef(h, h.nodes[brother].left) && BlackRef(h, h.nodes[brother].right) {
          RedFatherMemory(h, c, t, n);
          h := SetRed(h, parent, false);
          h := SetRed(h, brother, true);
          return c.up, Father(c.(red := false, sib := Painted(c.sib, true)), t), n + 1;
        } else {
          c, t, n := Nephews(parent, which, brother, c, t, n);
          return;
        }
      }
    }

    // -------------------------------------------------------------------------
    // rb_tree_insert_node
    // -------------------------------------------------------------------------

    /** A good focus whose sequence is sorted is a whole tree. */
    lemma Settled(c: Ctx, t: Tree, n: nat)
      requires IsOrder(compare) && Focus(h, c, t) && Good(c, t, n) && tree == Plug(c, t)
      requires Sorted(compare, All(c, t)) && ExtremesOf(min, max, All(c, t))
      ensures Ok() && Contents() == All(c, t)
    {
      hide IsOrder, Sorted, ExtremesOf, Focus;
      GoodIsRedBlack(c, t, n);
      AllIsSeq(c, t);
      FocusIsWhole(h, c, t);
    }

    /** Down to where the new node belongs, unless there is an equal one. */
    method FindPlace(x: Ref) returns (found: Ref, parent: Ref, position: Dir, ghost c: Ctx)
      requires Ok()
      ensures found != 0 ==> found in Contents() && compare(found, x) == 0
      ensures found == 0 ==> Searching(Against(compare, x), c, E) && parent == FatherOf(c) && position == PosOf(c)
    {
      SortedIsCut(compare, Seq(tree), x);
      hide IsOrder, Sorted, ExtremesOf, Focus, Searching, RedBlack, Cut;
      ghost var diff, t := Against(compare, x), tree;
      SearchStart(diff);
      var tmp := h.root;
      c, parent, position := Top, 0, L;
      while tmp != 0
        invariant Searching(diff, c, t) && tmp == RefOf(t) && parent == FatherOf(c) && position == PosOf(c)
        decreases t
      {
        var d := compare(tmp, x);
        if d == 0 {
          SearchHit(diff, c, t);
          found := tmp;
          return;
        }
        position := if d < 0 then R else L;
        SearchDown(diff, c, t, position);
        parent := tmp;
        tmp := Child(h.nodes[parent], position);
        c, t := Below(c, t, position), Side(t, position);
      }
      SearchMiss(diff, c, t);
      found := 0;
    }

    /**
     rb_tree_insert_node: an equal node, which may be the given one, is returned and nothing
     changes; otherwise the tree is a red-black tree with exactly one more node.
     */
    method Insert(x: Ref) returns (r: Ref)
      requires Ok() && x != 0
      modifies this
      ensures Ok()
      ensures (exists y :: y in old(Contents()) && compare(y, x) == 0) ==>
                r in old(Contents()) && compare(r, x) == 0 && h == old(h) && Contents() == old(Contents())
      ensures (forall y :: y in old(Contents()) ==> compare(y, x) != 0) ==>
                r == x && x !in old(Contents()) && IsInsertion(old(Contents()), x, Contents())
    {
      var found, parent, position;
      ghost var c;
      found, parent, position, c := FindPlace(x);
      if found != 0 {
        return found;
      }
      NoneEqual(x, c);
      Attach(x, parent, position, c);
      return x;
    }

    /** A search that ends at an empty place has met no equal node, and so not the node itself. */
    lemma NoneEqual(x: Ref, c: Ctx)
      requires Ok() && Searching(Against(compare, x), c, E)
      ensures x !in Contents() && forall y :: y in Contents() ==> compare(y, x) != 0
    {
      assert compare(x, x) == 0;
      SeqIsMemory(h, tree);
      LeafSeq(c, x, true);
      hide IsOrder, Sorted, ExtremesOf, RedBlack, Focus;
      SearchEnd(Against(compare, x), c);
    }

    /** The new node is hung into its place, and the tree is rebalanced if its father is red. */
    method Attach(x: Ref, parent: Ref, position: Dir, ghost c: Ctx)
      requires Ok() && x != 0 && x !in Contents()
      requires Searching(Against(compare, x), c, E) && parent == FatherOf(c) && position == PosOf(c)
      modifies this
      ensures Ok() && (forall y :: y in old(Contents()) ==> compare(y, x) != 0) && IsInsertion(old(Contents()), x, Contents())
    {
      hide Ok, IsOrder, Sorted, ExtremesOf, Focus, Searching, Good, RedRed, All, IsInsertion, AddLeaf;
      AttachFacts(x, c);
      if parent == 0 {
        AddLeafOk(h, c, x, false);
        min, max := x, x;
        h := AddLeaf(h, x, parent, position, false);
        tree := Plug(c, N(E, x, false, E));
        Settled(c, N(E, x, false, E), 1);
      } else {
        AddLeafOk(h, c, x, true);
        if position == L {
          min := HandedOver(min, parent, x);
        } else {
          max := HandedOver(max, parent, x);
        }
        var rebalance := h.nodes[parent].red;
        h := AddLeaf(h, x, parent, position, true);
        ghost var c', t', n' := c, N(E, x, true, E), 0;
        if rebalance {
          c', t', n' := InsertRebalance(x, c, N(E, x, true, E), 0);
        }
        tree := Plug(c', t');
        Settled(c', t', n');
      }
    }

    /** The sequence, the colours and the extremes when a leaf enters. */
    lemma AttachFacts(x: Ref, c: Ctx)
      requires Ok() && x != 0 && x !in Contents() && Searching(Against(compare, x), c, E)
      ensures Focus(h, c, E) && x !in h.nodes && IsOrder(compare) && (forall y :: y in Contents() ==> compare(y, x) != 0)
      ensures c.Top? <==> FatherOf(c) == 0
      ensures c.In? ==> c.id in h.nodes && h.nodes[c.id].red == c.red
      ensures var s := All(c, N(E, x, true, E));
              && All(c, N(E, x, false, E)) == s && Sorted(compare, s) && IsInsertion(Contents(), x, s)
              && (c.Top? ==> ExtremesOf(x, x, s) && Good(c, N(E, x, false, E), 1))
              && (c.In? && c.dir == L ==> ExtremesOf(HandedOver(min, c.id, x), max, s))
              && (c.In? && c.dir == R ==> ExtremesOf(min, HandedOver(max, c.id, x), s))
              && (c.In? ==> if c.red then RedRed(c, N(E, x, true, E), 0) else Good(c, N(E, x, true, E), 0))
    {
      PlaceKnown(x, c);
      SortedIsNoDup(compare, Seq(tree));
      hide IsOrder, Sorted, Focus, RedBlack, Good, RedRed, Searching, IsInsertion, NoDup, Split;
      LeafSeq(c, x, true);
      LeafSeq(c, x, false);
      SortedInsert(compare, Pre(c), x, Post(c));
      InsertedBetween(Pre(c), x, Post(c));
      var n := RedBlackIsGood(c, E);
      LeafIn(c, x, n);
      if c.In? {
        FatherNode(h, c, E);
        InsertExtremes(c, x, min, max);
      } else {
        assert Pre(c) + [x] + Post(c) == [x];
      }
    }

    lemma PlaceKnown(x: Ref, c: Ctx)
      requires Ok() && Searching(Against(compare, x), c, E) && x !in Contents()
      ensures x !in h.nodes && Seq(tree) == Pre(c) + Post(c) && Plug(c, E) == tree && Focus(h, c, E)
      ensures Split(Against(compare, x), Pre(c), Post(c)) && forall y :: y in Seq(tree) ==> compare(y, x) != 0
    {
      SeqIsMemory(h, tree);
      LeafSeq(c, x, true);
      hide IsOrder, Sorted, ExtremesOf, RedBlack, Focus;
      SearchEnd(Against(compare, x), c);
    }

    // -------------------------------------------------------------------------
    // rb_tree_iterate
    // -------------------------------------------------------------------------

    /** rb_tree_iterate without a node: the cached extreme. */
    method Extreme(d: Dir) returns (x: Ref)
      requires Ok()
      ensures x == if d == L then FirstOf(Contents()) else LastOf(Contents())
    {
      hide IsOrder, Sorted, RedBlack;
      SeqIsMemory(h, tree);
      if h.root == 0 {
        EmptyRoot();
        return 0;
      }
      EmptyRoot();
      return if d == L then min else max;
    }

    lemma EmptyRoot()
      requires Ok()
      ensures h.root == 0 <==> Seq(tree) == []
    {
      hide IsOrder, Sorted, RedBlack, ExtremesOf;
      if tree.N? {
        FocusNode(h, Top, tree);
      }
    }

    /** Down one step to side `d` and then to the other side as far as possible. */
    method Innermost(self: Ref, d: Dir, ghost c: Ctx, ghost t: Tree) returns (x: Ref, ghost a: Ctx, ghost s: Tree)
      requires Focus(h, c, t) && t.N? && t.id == self && Side(t, d).N?
      ensures s.N? && x == s.id && Spine(a, Other(d)) && Side(s, Other(d)) == E
      ensures Focus(h, Append(a, Below(c, t, d)), s) && Plug(Append(a, Below(c, t, d)), s) == Plug(c, t)
      ensures All(Append(a, Below(c, t, d)), s) == All(c, t)
    {
      hide Focus, All, Plug;
      FocusNode(h, c, t);
      StepDown(h, c, t, d);
      x, a, s := Child(h.nodes[self], d), Top, Side(t, d);
      ghost var b := Below(c, t, d);
      FocusNode(h, b, s);
      while Child(h.nodes[x], Other(d)) != 0
        invariant s.N? && x == s.id && Spine(a, Other(d)) && x in h.nodes
        invariant Child(h.nodes[x], Other(d)) == RefOf(Side(s, Other(d)))
        invariant Focus(h, Append(a, b), s) && Plug(Append(a, b), s) == Plug(c, t) && All(Append(a, b), s) == All(c, t)
        decreases s
      {
        StepDown(h, Append(a, b), s, Other(d));
        x := Child(h.nodes[x], Other(d));
        a, s := Below(a, s, Other(d)), Side(s, Other(d));
        FocusNode(h, Append(a, b), s);
      }
      SideIsEmpty(h, Append(a, b), s, Other(d));
    }

    /** Up as long as the node hangs on side `d`. */
    method Outermost(self: Ref, d: Dir, ghost c0: Ctx, ghost t0: Tree) returns (x: Ref)
      requires Focus(h, c0, t0) && t0.N? && t0.id == self && Side(t0, d) == E
      ensures IsNeighbour(All(c0, t0), self, d, x)
    {
      hide Focus, All, IsNeighbour, AtEdge;
      ghost var c, t := c0, t0;
      x := self;
      EdgeStart(t, d);
      FocusNode(h, c, t);
      FocusRoot(h, c, t);
      while x != h.root
        invariant Focus(h, c, t) && t.N? && t.id == x && All(c, t) == All(c0, t0) && AtEdge(t, d, self)
        invariant x in h.nodes && (x == h.root <==> c.Top?)
        invariant h.nodes[x].father == FatherOf(c) && h.nodes[x].pos == PosOf(c)
        decreases c
      {
        if h.nodes[x].pos == Other(d) {
          EdgeNeighbour(c, t, d, self);
          return h.nodes[x].father;
        }
        EdgeUp(c, t, d, self);
        StepUp(h, c, t);
        x := h.nodes[x].father;
        c, t := c.up, Father(c, t);
        FocusNode(h, c, t);
        FocusRoot(h, c, t);
      }
      EdgeNeighbour(c, t, d, self);
      return 0;
    }

    /** rb_tree_iterate: exactly the in-order neighbour, or nothing at the end. */
    method Iterate(self: Ref, d: Dir) returns (x: Ref)
      requires Ok() && self in Contents()
      ensures IsNeighbour(Contents(), self, d, x)
    {
      hide IsOrder, Sorted, RedBlack, ExtremesOf, Focus, All, IsNeighbour, Spine;
      ghost var c, t := Locate(Top, tree, self);
      FocusIsWhole(h, c, t);
      AllIsSeq(c, t);
      FocusNode(h, c, t);
      if Child(h.nodes[self], d) == 0 {
        SideIsEmpty(h, c, t, d);
        x := Outermost(self, d, c, t);
      } else {
        ghost var a, s;
        x, a, s := Innermost(self, d, c, t);
        InnermostIsNeighbour(c, t, d, a, s);
      }
    }

    // -------------------------------------------------------------------------
    // rb_tree_remove_node
    // -------------------------------------------------------------------------

    lemma Taken(s: seq<Ref>, self: Ref, a: seq<Ref>, b: seq<Ref>)
      requires s == a + [self] + b && IsOrder(compare) && Sorted(compare, s)
      ensures Sorted(compare, a + b) && Erased(s, self) == a + b && NoDup(s)
    {
      SortedIsNoDup(compare, s);
      SortedParts(compare, a, self, b);
      MiddleIsNew(a, self, b);
      ErasedMiddle(a, self, b);
    }

    /** The focus of a call is inside the tree, which is good there. */
    ghost predicate Removing(c: Ctx, t: Tree, n: nat)
      reads this
    {
      Ok() && Focus(h, c, t) && Good(c, t, n) && All(c, t) == Seq(tree)
    }

    /** What is read when the focused node is to leave. */
    lemma RemovalReads(c: Ctx, t: Tree, n: nat)
      requires Removing(c, t, n) && t.N?
      ensures LinksKnown(h, t.id) && h.nodes[t.id] == Node(RefOf(t.left), RefOf(t.right), FatherOf(c), PosOf(c), t.red)
      ensures (h.root == t.id <==> c.Top?) && Focus(h, c, t) && IsOrder(compare)
    {
      hide IsOrder, Sorted, RedBlack, Good, ExtremesOf, All;
      FocusNode(h, c, t);
      FocusRoot(h, c, t);
    }

    /** The sequence, the colours and the extremes when a leaf leaves. */
    lemma PruneFacts(c: Ctx, self: Ref, red: bool, n: nat)
      requires Removing(c, N(E, self, red, E), n)
      ensures Sorted(compare, All(c, E)) && Erased(Seq(tree), self) == All(c, E)
      ensures if red || c.Top? then Good(c, E, 0) else Deficit(c, E, 0)
      ensures c.Top? ==> All(c, E) == []
      ensures c.In? && c.dir == L ==> ExtremesOf(if min == self then c.id else min, max, All(c, E))
      ensures c.In? && c.dir == R ==> ExtremesOf(min, if max == self then c.id else max, All(c, E))
    {
      hide IsOrder, Sorted, Focus, RedBlack, ExtremesOf, Erased, NoDup;
      LeafSeq(c, self, red);
      LeafOut(c, self, red, n);
      Taken(Seq(tree), self, Pre(c), Post(c));
      if c.In? {
        PruneExtremes(c, self, min, max);
      }
    }

    /** rb_tree_prune_node: a childless node leaves. */
    method PruneNode(self: Ref, rebalance: bool, ghost c0: Ctx, ghost red: bool, ghost n0: nat)
      requires Removing(c0, N(E, self, red, E), n0) && rebalance == (!red && c0.In?)
      modifies this
      ensures Ok() && Contents() == Erased(old(Contents()), self)
    {
      hide Ok, Removing, IsOrder, Sorted, Focus, Good, Deficit, All, Erased, Splice;
      ghost var c, t, n := c0, E, 0;
      RemovalReads(c, N(E, self, red, E), n0);
      PruneFacts(c, self, red, n0);
      var which, father, was_root := h.nodes[self].pos, h.nodes[self].father, h.root == self;
      SpliceOk(h, c, L, E, self, red, false);
      h := Splice(h, self, 0, false);
      if which == L && min == self {
        min := father;
        if was_root {
          max := father;
        }
      } else if which == R && max == self {
        max := father;
      }
      if rebalance {
        c, t, n := RemovalRebalance(father, which, c, E, 0);
      }
      tree := Plug(c, t);
      Settled(c, t, n);
    }

    /** The sequence, the colours and the extremes when a node with one child leaves. */
    lemma BranchFacts(c: Ctx, w: Dir, son: Tree, self: Ref, red: bool, n: nat)
      requires son.N? && Removing(c, Make(w, son, self, red, E), n)
      ensures !red && Good(c, Painted(son, false), n)
      ensures var s := All(c, Painted(son, false));
              && Sorted(compare, s) && Erased(Seq(tree), self) == s
              && (c.Top? ==> ExtremesOf(if w == R then son.id else min, if w == L then son.id else max, s))
              && (c.In? && c.dir == L ==> ExtremesOf(if min == self then son.id else min, max, s))
              && (c.In? && c.dir == R ==> ExtremesOf(min, if max == self then son.id else max, s))
    {
      hide IsOrder, Sorted, Focus, RedBlack, ExtremesOf, Erased, NoDup;
      BranchOut(c, w, son, self, red, n);
      assert son == N(E, son.id, true, E) && Painted(son, false) == N(E, son.id, false, E);
      BranchSeq(c, w, son.id, self, red, true);
      BranchSeq(c, w, son.id, self, red, false);
      BranchTaken(Seq(tree), self, w, son.id, c);
      BranchExtremes(c, w, son.id, self, min, max);
      assert c.Top? ==> Pre(c) + [son.id] + Post(c) == [son.id];
    }

    /** rb_tree_prune_blackred_branch: a black node with one red son leaves. */
    method PruneBlackRed(self: Ref, which: Dir, ghost c: Ctx, ghost son: Tree, ghost red: bool, ghost n: nat)
      requires son.N? && Removing(c, Make(which, son, self, red, E), n)
      modifies this
      ensures Ok() && Contents() == Erased(old(Contents()), self)
    {
      hide Ok, Removing, IsOrder, Sorted, Focus, Good, All, Erased, Splice;
      RemovalReads(c, Make(which, son, self, red, E), n);
      BranchFacts(c, which, son, self, red, n);
      var y, position, was_root := Child(h.nodes[self], which), h.nodes[self].pos, h.root == self;
      SpliceOk(h, c, which, son, self, red, h.nodes[self].red);
      h := Splice(h, self, y, h.nodes[self].red);
      if was_root {
        if which == R {
          min := y;
        } else {
          max := y;
        }
      } else if position == L && min == self {
        min := y;
      } else if position == R && max == self {
        max := y;
      }
      tree := Plug(c, Painted(son, false));
      Settled(c, Painted(son, false), n);
    }

    lemma BranchTaken(s: seq<Ref>, self: Ref, which: Dir, y: Ref, c: Ctx)
      requires s == Pre(c) + (if which == L then [y, self] else [self, y]) + Post(c) && IsOrder(compare) && Sorted(compare, s)
      ensures Sorted(compare, Pre(c) + [y] + Post(c)) && Erased(s, self) == Pre(c) + [y] + Post(c) && NoDup(s)
    {
      hide IsOrder, Sorted;
      if which == L {
        assert s == (Pre(c) + [y]) + [self] + Post(c);
        Taken(s, self, Pre(c) + [y], Post(c));
      } else {
        assert s == Pre(c) + [self] + ([y] + Post(c));
        Taken(s, self, Pre(c), [y] + Post(c));
        assert Pre(c) + ([y] + Post(c)) == Pre(c) + [y] + Post(c);
      }
    }

    /** The stand-in `s` is the neighbour of the focused node on side `w`. */
    ghost predicate StandingIn(c: Ctx, t: Tree, w: Dir, a: Ctx, s: Tree)
      reads this
    {
      && t.N? && t.left.N? && t.right.N? && s.N? && Spine(a, Other(w)) && Side(s, Other(w)) == E
      && Focus(h, Append(a, Below(c, t, w)), s) && All(Append(a, Below(c, t, w)), s) == Seq(tree)
      && RedBlack(Plug(Append(a, Below(c, t, w)), s))
    }

    /** The sequence, the colours and the extremes when a node with two children leaves. */
    lemma SwapFacts(c: Ctx, t: Tree, w: Dir, a: Ctx, s: Tree)
      requires Ok() && StandingIn(c, t, w, a, s)
      ensures Ready(h, a, c, w, Side(t, Other(w)), t.id, t.red, s.id, s.red, Side(s, w))
      ensures var ctx, son := Append(a, In(w, s.id, t.red, Side(t, Other(w)), c)), Side(s, w);
              && Sorted(compare, All(ctx, Repaint(son, false))) && Erased(Seq(tree), t.id) == All(ctx, Repaint(son, false))
              && ExtremesOf(min, max, All(ctx, Repaint(son, false))) && min != t.id && max != t.id
              && (son.N? ==> son.red)
              && if s.red || son.N? then Good(ctx, Repaint(son, false), if s.red then 0 else 1) else Deficit(ctx, E, 0)
    {
      hide IsOrder, Sorted, Focus, RedBlack, ExtremesOf, Erased, NoDup, All;
      var far, son := Side(t, Other(w)), Side(s, w);
      MakeSides(s, w);
      var n := RedBlackIsGood(Append(a, Below(c, t, w)), s);
      SwapOut(a, c, w, far, t.id, t.red, s.id, s.red, son, n);
      var u, v := SwapSeq(a, c, w, far, t.id, t.red, s.id, s.red, son);
      Taken(Seq(tree), t.id, u, v);
      InsideExtremes(u, t.id, v, min, max);
    }

    /** What is read at the stand-in: whether its place needs rebalancing, and where. */
    lemma StandinReads(c: Ctx, t: Tree, w: Dir, a: Ctx, s: Tree)
      requires Ok() && StandingIn(c, t, w, a, s)
      ensures s.id in h.nodes && h.nodes[s.id].red == s.red && Known(h, SonOf(h, t.id, s.id))
      ensures SonOf(h, t.id, s.id) == RefOf(Side(s, w)) && (BlackRef(h, RefOf(Side(s, w))) <==> Black(Side(s, w)))
      ensures h.nodes[s.id].father == (if a.Top? then t.id else a.id) && h.nodes[s.id].pos == (if a.Top? then w else Other(w))
      ensures (a.In? ==> a.id != t.id) && Spine(a, Other(w)) && LinksKnown(h, t.id)
    {
      hide IsOrder, Sorted, RedBlack, ExtremesOf, All, Focus;
      var b := Below(c, t, w);
      FocusNode(h, Append(a, b), s);
      StepDown(h, Append(a, b), s, w);
      FocusColour(h, Below(Append(a, b), s, w), Side(s, w));
      MakeSides(s, w);
      FocusAppend(h, a, b, s);
      FatherNode(h, b, Plug(a, s));
      if a.In? {
        RootIsInside(h, a, b, w, Side(s, w), s.id, s.red);
      }
    }

    /** rb_tree_swap_prune_and_rebalance: a node with two children leaves, and its neighbour takes its place. */
    method SwapPruneAndRebalance(self: Ref, standin: Ref, w: Dir, ghost c0: Ctx, ghost t0: Tree, ghost a: Ctx, ghost s: Tree)
      requires t0.N? && s.N? && Ok() && StandingIn(c0, t0, w, a, s) && self == t0.id && standin == s.id
      modifies this
      ensures Ok() && Contents() == Erased(old(Contents()), self)
    {
      hide IsOrder, Sorted, Focus, Good, Deficit, All, Erased, RedBlack, ExtremesOf, StandingIn, SwapPrune, Ready, SonOf, Append, Spine;
      ghost var far, son := Side(t0, Other(w)), Side(s, w);
      SwapFacts(c0, t0, w, a, s);
      StandinReads(c0, t0, w, a, s);
      SwapOk(h, a, c0, w, far, self, t0.red, standin, s.red, son);
      ghost var c, t, n := Append(a, In(w, standin, t0.red, far, c0)), Repaint(son, false), if s.red then 0 else 1;
      var which := h.nodes[standin].pos;
      var father := if h.nodes[standin].father == self then standin else h.nodes[standin].father;
      var rebalance := !h.nodes[standin].red && BlackRef(h, SonOf(h, self, standin));
      var position, above := h.nodes[self].pos, h.nodes[self].father;
      h := SwapPrune(h, self, standin);
      if position == L {
        min := HandedOver(min, self, above);
      } else {
        max := HandedOver(max, self, above);
      }
      if rebalance {
        SpineTop(a, In(w, standin, t0.red, far, c0), w);
        c, t, n := RemovalRebalance(father, which, c, E, 0);
      }
      tree := Plug(c, t);
      Settled(c, t, n);
    }

    lemma SpineTop(a: Ctx, b: Ctx, w: Dir)
      requires Spine(a, Other(w))
      ensures a.Top? ==> Append(a, b) == b
      ensures a.In? ==> Append(a, b).In? && Append(a, b).id == a.id && Append(a, b).dir == Other(w)
    {
    }

    /** Where the node is, and that it is in a red-black tree there. */
    lemma Located(self: Ref) returns (c: Ctx, t: Tree, n: nat)
      requires Ok() && self in Contents()
      ensures t.N? && t.id == self && Plug(c, t) == tree && Removing(c, t, n)
    {
      hide IsOrder, Sorted, ExtremesOf, Focus, RedBlack, Good;
      c, t := Locate(Top, tree, self);
      FocusIsWhole(h, c, t);
      AllIsSeq(c, t);
      n := RedBlackIsGood(c, t);
    }

    lemma OneChild(c: Ctx, t: Tree, d: Dir)
      requires Focus(h, c, t) && t.N? && RefOf(Side(t, d)) == 0
      ensures t == Make(Other(d), Side(t, Other(d)), t.id, t.red, E)
    {
      SideIsEmpty(h, c, t, d);
    }

    /** rb_tree_remove_node: exactly this node leaves, and what is left is a red-black tree. */
    method Remove(self: Ref)
      requires Ok() && self in Contents()
      modifies this
      ensures Ok() && Contents() == Erased(old(Contents()), self)
    {
      hide Ok, Removing, IsOrder, Sorted, ExtremesOf, Focus, RedBlack, Good, Erased, All, Spine, Plug;
      ghost var c, t, n := Located(self);
      RemovalReads(c, t, n);
      var node := h.nodes[self];
      if node.left == 0 && node.right == 0 {
        OneChild(c, t, L);
        OneChild(c, t, R);
        PruneNode(self, !node.red && h.root != self, c, t.red, n);
        return;
      }
      if node.left == 0 || node.right == 0 {
        var which := if node.left == 0 then R else L;
        OneChild(c, t, Other(which));
        PruneBlackRed(self, which, c, Side(t, which), t.red, n);
        return;
      }
      var w := Other(node.pos);
      ghost var a, s;
      var standin;
      standin, a, s := Innermost(self, w, c, t);
      FoundStandin(c, t, n, w, a, s);
      SwapPruneAndRebalance(self, standin, w, c, t, a, s);
    }

    lemma FoundStandin(c: Ctx, t: Tree, n: nat, w: Dir, a: Ctx, s: Tree)
      requires Removing(c, t, n) && t.N? && t.left.N? && t.right.N? && Plug(c, t) == tree
      requires s.N? && Spine(a, Other(w)) && Side(s, Other(w)) == E
      requires Focus(h, Append(a, Below(c, t, w)), s) && Plug(Append(a, Below(c, t, w)), s) == Plug(c, t)
      requires All(Append(a, Below(c, t, w)), s) == All(c, t)
      ensures Ok() && StandingIn(c, t, w, a, s)
    {
    }

    // -------------------------------------------------------------------------
    // RB_TREE_FOREACH_SAFE
    // -------------------------------------------------------------------------

    /** A loop that fetches the next node before it removes the current one visits all nodes once, in order. */
    method RemoveAll() returns (visited: seq<Ref>)
      requires Ok()
      modifies this
      ensures Ok() && Contents() == [] && visited == old(Contents())
    {
      hide Ok, Seq;
      visited := [];
      var n := Extreme(L);
      NoZero();
      ghost var all := Contents();
      while n != 0
        invariant Ok() && n == FirstOf(Contents()) && all == visited + Contents()
        decreases |Contents()|
      {
        NoZero();
        ghost var s := Contents();
        var next := Iterate(n, R);
        FirstNext(next);
        visited := visited + [n];
        Remove(n);
        assert Contents() == s[1..];
        assert s == [s[0]] + s[1..];
        n := next;
      }
      NoZero();
    }

    lemma NoZero()
      requires Ok()
      ensures 0 !in Contents()
      ensures FirstOf(Contents()) == 0 <==> Contents() == []
    {
      hide IsOrder, Sorted, ExtremesOf, RedBlack;
      SeqIsMemory(h, tree);
    }

    lemma FirstNext(next: Ref)
      requires Ok() && Contents() != [] && IsNeighbour(Contents(), Contents()[0], R, next)
      ensures next == FirstOf(Contents()[1..])
    {
      hide ExtremesOf, RedBlack, Focus, Seq;
      SortedIsNoDup(compare, Contents());
    }
  }
}
