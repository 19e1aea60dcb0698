/**
 Insertion and deletion in the radix tree (rn_insert, rn_addroute and rn_delete of
 compat/net_radix/radix.c): they keep the structural invariant and change the set of stored
 routes by exactly the one route.
 */
module RadixUpdate {
  import opened Common
  import opened Radix

  // ---------------------------------------------------------------------------
  // Sorted chains and annotation lists
  // ---------------------------------------------------------------------------

  function InsertEntry(chain: seq<Entry>, e: Entry): (r: seq<Entry>)
  {
    if chain == [] || chain[0].plen < e.plen then [e] + chain
    else [chain[0]] + InsertEntry(chain[1..], e)
  }

  function InsertMask(masks: seq<Route>, q: Route): (r: seq<Route>)
  {
    if masks == [] || masks[0].plen < q.plen then [q] + masks
    else [masks[0]] + InsertMask(masks[1..], q)
  }

  ghost predicate Descending(chain: seq<Entry>)
  {
    forall i, j :: 0 <= i < j < |chain| ==> chain[i].plen > chain[j].plen
  }

  lemma Consed(e: Entry, rest: seq<Entry>)
    requires Descending(rest) && forall x :: x in rest ==> x.plen < e.plen
    ensures Descending([e] + rest)
  {
    var r := [e] + rest;
    forall i, j | 0 <= i < j < |r| ensures r[i].plen > r[j].plen {
      assert r[j] == rest[j - 1] && rest[j - 1] in rest;
      assert i > 0 ==> r[i] == rest[i - 1];
    }
  }

  lemma Unconsed(chain: seq<Entry>)
    requires Descending(chain) && chain != []
    ensures Descending(chain[1..]) && forall x :: x in chain[1..] ==> x.plen < chain[0].plen
    ensures chain == [chain[0]] + chain[1..]
  {
  }

  lemma ConsedMask(q: Route, rest: seq<Route>)
    requires Sorted(rest) && forall x :: x in rest ==> x.plen < q.plen
    ensures Sorted([q] + rest)
  {
    var r := [q] + rest;
    forall i, j | 0 <= i < j < |r| ensures r[i].plen > r[j].plen {
      assert r[j] == rest[j - 1] && rest[j - 1] in rest;
      assert i > 0 ==> r[i] == rest[i - 1];
    }
  }

  lemma UnconsedMask(masks: seq<Route>)
    requires Sorted(masks) && masks != []
    ensures Sorted(masks[1..]) && forall x :: x in masks[1..] ==> x.plen < masks[0].plen
    ensures masks == [masks[0]] + masks[1..]
  {
  }

  lemma {:induction false} InsertEntryOk(chain: seq<Entry>, e: Entry)
    requires Descending(chain) && forall x :: x in chain ==> x.plen != e.plen
    ensures Descending(InsertEntry(chain, e))
    ensures forall x :: x in InsertEntry(chain, e) <==> x in chain || x == e
  {
    hide Descending;
    if chain == [] {
      Consed(e, []);
    } else {
      Unconsed(chain);
      if chain[0].plen < e.plen {
        Consed(e, chain);
      } else {
        InsertEntryOk(chain[1..], e);
        Consed(chain[0], InsertEntry(chain[1..], e));
      }
    }
  }

  lemma {:induction false} InsertMaskOk(masks: seq<Route>, q: Route)
    requires Sorted(masks) && forall x :: x in masks ==> x.plen != q.plen
    ensures Sorted(InsertMask(masks, q))
    ensures forall x :: x in InsertMask(masks, q) <==> x in masks || x == q
  {
    hide Sorted;
    if masks == [] {
      ConsedMask(q, []);
    } else {
      UnconsedMask(masks);
      if masks[0].plen < q.plen {
        ConsedMask(q, masks);
      } else {
        InsertMaskOk(masks[1..], q);
        ConsedMask(masks[0], InsertMask(masks[1..], q));
      }
    }
  }

  // ---------------------------------------------------------------------------
  // Insertion
  // ---------------------------------------------------------------------------

  /** Chain entries that a new node at bit `b` above the leaf takes over, in order. */
  function PromotedMasks(k: Key, chain: seq<Entry>, b: nat): (r: seq<Route>)
  {
    if chain == [] then []
    else if !chain[0].lifted && chain[0].plen <= b then [Route(k, chain[0].plen)] + PromotedMasks(k, chain[1..], b)
    else PromotedMasks(k, chain[1..], b)
  }

  function PromotedChain(chain: seq<Entry>, b: nat): (r: seq<Entry>)
    ensures |r| == |chain|
    ensures forall i :: 0 <= i < |chain| ==> r[i] == Entry(chain[i].plen, chain[i].lifted || chain[i].plen <= b)
  {
    seq(|chain|, i requires 0 <= i < |chain| => Entry(chain[i].plen, chain[i].lifted || chain[i].plen <= b))
  }

  /** Where an annotation list is cut: the first mask from `i` on whose index is at most `b`. */
  function CutAt(masks: seq<Route>, b: nat, i: nat): (r: nat)
    requires i <= |masks|
    ensures i <= r <= |masks|
    ensures forall k :: i <= k < r ==> masks[k].plen > b
    ensures r < |masks| ==> masks[r].plen <= b
    decreases |masks| - i
  {
    if i == |masks| || masks[i].plen <= b then i else CutAt(masks, b, i + 1)
  }

  /** The annotations that move from `t` to a new node at bit `b` above it. */
  function RaisedMasks(t: Tree, b: nat): (r: seq<Route>)
  {
    match t
    case Leaf(k, _, chain) => PromotedMasks(k, chain, b)
    case Inner(_, masks, _, _) => masks[CutAt(masks, b, 0)..]
  }

  /** `t` after its annotations of index at most `b` have moved up. */
  function Lowered(t: Tree, b: nat): (r: Tree)
  {
    match t
    case Leaf(k, s, chain) => Leaf(k, s, PromotedChain(chain, b))
    case Inner(bit, masks, l, r) => Inner(bit, masks[..CutAt(masks, b, 0)], l, r)
  }

  /** The new internal node at bit `b`, with the new leaf on one side and `t` on the other. */
  function Branch(t: Tree, q: Route, b: nat, lo: nat): (r: Tree)
  {
    var leaf := Leaf(q.key, false, [Entry(q.plen, q.plen <= b)]);
    var raised := RaisedMasks(t, b);
    var masks := if lo <= q.plen <= b then InsertMask(raised, q) else raised;
    if GoesRight(q.key, b) then Inner(b, masks, Lowered(t, b), leaf) else Inner(b, masks, leaf, Lowered(t, b))
  }

  /**
   Insertion below a node at bit `lo - 1`; `b` is the first bit in which the new key differs
   from the leaf that the search found, or the width if that leaf has the same key.
   */
  function AddIn(w: nat, t: Tree, q: Route, b: nat, lo: nat): (r: Tree)
  {
    match t
    case Leaf(k, s, chain) =>
      if b >= w then Leaf(k, s, InsertEntry(chain, Entry(q.plen, q.plen < lo))) else Branch(t, q, b, lo)
    case Inner(bit, masks, l, r) =>
      if b < bit then Branch(t, q, b, lo)
      else
        var masks' := if lo <= q.plen <= bit then InsertMask(masks, q) else masks;
        if GoesRight(q.key, bit) then Inner(bit, masks', l, AddIn(w, r, q, b, bit + 1))
        else Inner(bit, masks', AddIn(w, l, q, b, bit + 1), r)
  }

  /** rn_addroute; None when the same key and mask are already there. */
  function AddRoute(w: nat, t: Tree, q: Route): (r: Option<Tree>)
    requires |q.key| == w && Wide(w, t)
  {
    SearchIsInside(t, q.key);
    var leaf := Search(t, q.key);
    var b := FirstDiff(q.key, leaf.key, 0, w);
    if b == w && FindMask(leaf.chain, q.plen, 0).Some? then None
    else Some(AddIn(w, t, q, b, 0))
  }

  /** `b` says where the key of `q` leaves the tree. */
  ghost predicate LeavesAt(w: nat, t: Tree, q: Route, b: nat)
  {
    var lk := Search(t, q.key).key;
    if b == w then lk == q.key else DifferAt(w, lk, q.key, b)
  }

  /** The chain has an entry with this mask that is not annotated yet. */
  ghost predicate HasUnlifted(chain: seq<Entry>, p: nat)
  {
    exists i :: 0 <= i < |chain| && chain[i].plen == p && !chain[i].lifted
  }

  lemma FirstUnlifted(chain: seq<Entry>, p: nat)
    requires chain != []
    ensures HasUnlifted(chain, p) <==> (chain[0].plen == p && !chain[0].lifted) || HasUnlifted(chain[1..], p)
  {
    var rest := chain[1..];
    if i :| 0 <= i < |chain| && chain[i].plen == p && !chain[i].lifted {
      if i > 0 {
        assert rest[i - 1] == chain[i];
      }
    }
    if i :| 0 <= i < |rest| && rest[i].plen == p && !rest[i].lifted {
      assert chain[i + 1] == rest[i];
    }
  }

  lemma {:induction false} PromotedMasksOk(k: Key, chain: seq<Entry>, b: nat)
    requires Descending(chain)
    ensures Sorted(PromotedMasks(k, chain, b))
    ensures forall x :: x in PromotedMasks(k, chain, b) <==> x.key == k && x.plen <= b && HasUnlifted(chain, x.plen)
  {
    if chain != [] {
      var rest := chain[1..];
      var m, r := PromotedMasks(k, rest, b), PromotedMasks(k, chain, b);
      PromotedMasksOk(k, rest, b);
      forall x ensures x in r <==> x.key == k && x.plen <= b && HasUnlifted(chain, x.plen) {
        FirstUnlifted(chain, x.plen);
      }
      PromotedSorted(k, chain, b);
    }
  }

  lemma PromotedSorted(k: Key, chain: seq<Entry>, b: nat)
    requires Descending(chain) && chain != []
    requires var m := PromotedMasks(k, chain[1..], b);
             Sorted(m) && forall x :: x in m ==> HasUnlifted(chain[1..], x.plen)
    ensures Sorted(PromotedMasks(k, chain, b))
  {
    var rest := chain[1..];
    var m := PromotedMasks(k, rest, b);
    forall i | 0 <= i < |m| ensures chain[0].plen > m[i].plen {
      assert m[i] in m;
      assert HasUnlifted(rest, m[i].plen);
      var j :| 0 <= j < |rest| && rest[j].plen == m[i].plen && !rest[j].lifted;
      assert rest[j] == chain[j + 1];
    }
  }

  lemma ChainRoutesIn(k: Key, chain: seq<Entry>, q: Route)
    ensures q in ChainRoutes(k, chain) <==> q.key == k && exists i :: 0 <= i < |chain| && chain[i].plen == q.plen
  {
  }

  lemma {:induction false} LoweredSame(t: Tree, b: nat)
    ensures Routes(Lowered(t, b)) == Routes(t) && Keys(Lowered(t, b)) == Keys(t) && First(Lowered(t, b)) == First(t)
  {
    if t.Leaf? {
      var c := PromotedChain(t.chain, b);
      assert ChainRoutes(t.key, c) == ChainRoutes(t.key, t.chain) by {
        assert forall i :: 0 <= i < |c| ==> Route(t.key, c[i].plen) == Route(t.key, t.chain[i].plen);
      }
    }
  }

  lemma SortedParts(masks: seq<Route>, c: nat)
    requires Sorted(masks) && c <= |masks|
    ensures Sorted(masks[..c]) && Sorted(masks[c..])
  {
  }

  /** Cutting a sorted annotation list separates the indexes above `b` from the others. */
  lemma CutOk(masks: seq<Route>, b: nat)
    requires Sorted(masks)
    ensures var c := CutAt(masks, b, 0);
            && (forall q :: q in masks[..c] <==> q in masks && q.plen > b)
            && (forall q :: q in masks[c..] <==> q in masks && q.plen <= b)
  {
    var c := CutAt(masks, b, 0);
    var head, tail := masks[..c], masks[c..];
    forall q ensures q in head <==> q in masks && q.plen > b {
      Separated(masks, b, c, q);
    }
    forall q ensures q in tail <==> q in masks && q.plen <= b {
      Separated(masks, b, c, q);
    }
  }

  lemma Separated(masks: seq<Route>, b: nat, c: nat, q: Route)
    requires c <= |masks| && (forall i :: 0 <= i < c ==> masks[i].plen > b)
    requires forall i :: c <= i < |masks| ==> masks[i].plen <= b
    ensures q in masks[..c] <==> q in masks && q.plen > b
    ensures q in masks[c..] <==> q in masks && q.plen <= b
  {
    assert masks == masks[..c] + masks[c..];
  }

  lemma RaisedMasksOk(w: nat, t: Tree, b: nat, lo: nat)
    requires Valid(w, t, lo) && lo <= b && (t.Inner? ==> b < t.bit)
    ensures MasksAre(RaisedMasks(t, b), Routes(t), lo, b)
  {
    if t.Leaf? {
      PromotedMasksOk(t.key, t.chain, b);
      forall q ensures q in RaisedMasks(t, b) <==> q in Routes(t) && lo <= q.plen <= b {
        ChainRoutesIn(t.key, t.chain, q);
      }
    } else {
      CutOk(t.masks, b);
      SortedParts(t.masks, CutAt(t.masks, b, 0));
    }
  }

  lemma LoweredOk(w: nat, t: Tree, b: nat, lo: nat)
    requires Valid(w, t, lo) && lo <= b && (t.Inner? ==> b < t.bit)
    ensures Valid(w, Lowered(t, b), b + 1)
  {
    if t.Inner? {
      CutOk(t.masks, b);
      SortedParts(t.masks, CutAt(t.masks, b, 0));
      var r := Lowered(t, b);
      assert Routes(r) == Routes(t);
      assert MasksOk(r, b + 1);
    }
  }

  /** Two routes with the same index, the bits before it shared, are the same route. */
  lemma SameIndex(w: nat, m: Route, q: Route, n: nat)
    requires Normal(w, m) && Normal(w, q) && m.plen == q.plen <= n && Agree(m.key, q.key, n)
    ensures m == q
  {
    SameKey(w, m, q.key, q.plen);
  }

  lemma SideOf(w: nat, keys: set<Key>, k: Key, k': Key, bit: nat, b: bool)
    requires bit < w && Side(w, keys, k, bit, b) && Agree(k, k', bit)
    ensures Side(w, keys, k', bit, b)
  {
  }

  lemma SidePlus(w: nat, keys: set<Key>, k: Key, bit: nat, b: bool)
    requires bit < w == |k| && k[bit] == b && Side(w, keys, k, bit, b)
    ensures Side(w, keys + {k}, k, bit, b)
  {
  }

  /** What the validity of an internal node says about its parts. */
  lemma OpenNode(w: nat, t: Tree, lo: nat)
    requires Valid(w, t, lo) && t.Inner?
    ensures lo <= t.bit < w && Valid(w, t.left, t.bit + 1) && Valid(w, t.right, t.bit + 1)
    ensures Side(w, Keys(t.left), First(t.left), t.bit, false) && Side(w, Keys(t.right), First(t.left), t.bit, true)
    ensures MasksAre(t.masks, Routes(t), lo, t.bit)
    ensures Routes(t) == Routes(t.left) + Routes(t.right) && Keys(t) == Keys(t.left) + Keys(t.right)
  {
  }

  /** A node built from valid sides around a key `k` that they agree with before its bit. */
  lemma NodeOk(w: nat, bit: nat, masks: seq<Route>, l: Tree, r: Tree, lo: nat, k: Key, s: set<Route>)
    requires lo <= bit < w && Valid(w, l, bit + 1) && Valid(w, r, bit + 1)
    requires Side(w, Keys(l), k, bit, false) && Side(w, Keys(r), k, bit, true)
    requires s == Routes(l) + Routes(r) && MasksAre(masks, s, lo, bit)
    ensures Valid(w, Inner(bit, masks, l, r), lo)
  {
    RoutesAreNormal(w, l, bit + 1);
    SideOf(w, Keys(l), k, First(l), bit, false);
    SideOf(w, Keys(r), k, First(l), bit, true);
    assert MasksOk(Inner(bit, masks, l, r), lo);
  }

  /** The annotation list with the new route entered has no other route of the same index. */
  lemma EnteredMasks(w: nat, masks: seq<Route>, q: Route, n: nat, routes: set<Route>, lo: nat)
    requires MasksAre(masks, routes, lo, n)
    requires Normal(w, q) && q !in routes && forall m :: m in routes ==> Normal(w, m) && Agree(m.key, q.key, n)
    ensures MasksAre(if lo <= q.plen <= n then InsertMask(masks, q) else masks, routes + {q}, lo, n)
  {
    if lo <= q.plen <= n {
      forall m | m in masks ensures m.plen != q.plen {
        if m.plen == q.plen {
          SameIndex(w, m, q, n);
        }
      }
      InsertMaskOk(masks, q);
    }
  }

  lemma NewLeafOk(w: nat, q: Route, b: nat)
    requires Normal(w, q)
    ensures var leaf := Leaf(q.key, false, [Entry(q.plen, q.plen <= b)]);
            Valid(w, leaf, b + 1) && Routes(leaf) == {q} && Keys(leaf) == {q.key}
  {
    var leaf := Leaf(q.key, false, [Entry(q.plen, q.plen <= b)]);
    assert Route(q.key, leaf.chain[0].plen) == q;
  }

  lemma BranchRoutes(t: Tree, q: Route, b: nat, lo: nat)
    ensures Routes(Branch(t, q, b, lo)) == Routes(t) + {q} && Keys(Branch(t, q, b, lo)) == Keys(t) + {q.key}
  {
    LoweredSame(t, b);
    var leaf := Leaf(q.key, false, [Entry(q.plen, q.plen <= b)]);
    assert Routes(leaf) == {q} by {
      assert Route(q.key, leaf.chain[0].plen) == q;
    }
  }

  lemma BranchOk(w: nat, t: Tree, q: Route, b: nat, lo: nat)
    requires Valid(w, t, lo) && Normal(w, q) && q !in Routes(t)
    requires lo <= b < w && (t.Inner? ==> b < t.bit)
    requires Side(w, Keys(t), q.key, b, !q.key[b])
    ensures Valid(w, Branch(t, q, b, lo), lo)
  {
    var leaf := Leaf(q.key, false, [Entry(q.plen, q.plen <= b)]);
    var raised, low := RaisedMasks(t, b), Lowered(t, b);
    NewLeafOk(w, q, b);
    LoweredSame(t, b);
    LoweredOk(w, t, b, lo);
    RaisedMasksOk(w, t, b, lo);
    RoutesAreNormal(w, t, lo);
    EnteredMasks(w, raised, q, b, Routes(t), lo);
    var masks := if lo <= q.plen <= b then InsertMask(raised, q) else raised;
    if q.key[b] {
      assert Routes(low) + Routes(leaf) == Routes(t) + {q};
      NodeOk(w, b, masks, low, leaf, lo, q.key, Routes(t) + {q});
    } else {
      assert Routes(leaf) + Routes(low) == Routes(t) + {q};
      NodeOk(w, b, masks, leaf, low, lo, q.key, Routes(t) + {q});
    }
  }

  /** All keys below a node that `b` does not cut are on one side of the new key. */
  lemma CutSide(w: nat, t: Tree, q: Route, b: nat, lo: nat)
    requires Valid(w, t, lo) && LeavesAt(w, t, q, b) && b < w && (t.Inner? ==> b < t.bit)
    ensures Side(w, Keys(t), q.key, b, !q.key[b])
  {
    var lk := Search(t, q.key).key;
    RoutesAreNormal(w, t, lo);
    SearchIsInside(t, q.key);
    forall x | x in Keys(t) ensures |x| == w && Agree(x, q.key, b) && x[b] == !q.key[b] {
      if t.Inner? {
        KeysAgree(w, t, lo, x, lk);
      }
    }
  }

  /** A node above the cut: the new key shares all bits up to and including the node's with the leaf found. */
  lemma AboveCut(w: nat, t: Tree, q: Route, b: nat, lo: nat)
    requires Valid(w, t, lo) && t.Inner? && |q.key| == w && LeavesAt(w, t, q, b) && t.bit <= b <= w
    ensures t.bit < b && Agree(First(t.left), q.key, t.bit)
    ensures LeavesAt(w, if GoesRight(q.key, t.bit) then t.right else t.left, q, b)
  {
    var near := if GoesRight(q.key, t.bit) then t.right else t.left;
    var lk := Search(t, q.key).key;
    RoutesAreNormal(w, t.left, t.bit + 1);
    SearchIsInside(near, q.key);
    SearchIsInside(t, q.key);
    assert lk in Keys(near);
    assert lk[t.bit] == q.key[t.bit];
    KeysAgree(w, t, lo, First(t.left), lk);
  }

  /** `r` is `t` with the route `q` added. */
  ghost predicate Added(w: nat, t: Tree, q: Route, lo: nat, r: Tree)
  {
    Valid(w, r, lo) && Routes(r) == Routes(t) + {q} && Keys(r) == Keys(t) + {q.key}
  }

  lemma AddAtCut(w: nat, t: Tree, q: Route, b: nat, lo: nat)
    requires Valid(w, t, lo) && Normal(w, q) && q !in Routes(t)
    requires LeavesAt(w, t, q, b) && lo <= b < w && (t.Inner? ==> b < t.bit)
    ensures Added(w, t, q, lo, Branch(t, q, b, lo))
  {
    CutSide(w, t, q, b, lo);
    BranchOk(w, t, q, b, lo);
    BranchRoutes(t, q, b, lo);
  }

  lemma RoutesAgree(w: nat, t: Tree, lo: nat, k: Key)
    requires Valid(w, t, lo) && t.Inner? && Agree(First(t.left), k, t.bit)
    ensures forall m :: m in Routes(t) ==> Normal(w, m) && Agree(m.key, k, t.bit)
  {
    RoutesAreNormal(w, t, lo);
    RoutesAreNormal(w, t.left, t.bit + 1);
    forall m | m in Routes(t) ensures Agree(m.key, k, t.bit) {
      KeysAgree(w, t, lo, m.key, First(t.left));
    }
  }

  /** The annotation list of a node above the cut, and the sides around the new key. */
  lemma NodeAboveCut(w: nat, t: Tree, q: Route, b: nat, lo: nat)
    requires Valid(w, t, lo) && t.Inner? && Normal(w, q) && q !in Routes(t)
    requires LeavesAt(w, t, q, b) && t.bit <= b <= w
    ensures t.bit < w == |q.key|
    ensures Side(w, Keys(t.left), q.key, t.bit, false) && Side(w, Keys(t.right), q.key, t.bit, true)
    ensures MasksAre(if lo <= q.plen <= t.bit then InsertMask(t.masks, q) else t.masks, Routes(t) + {q}, lo, t.bit)
  {
    OpenNode(w, t, lo);
    hide Valid;
    AboveCut(w, t, q, b, lo);
    RoutesAgree(w, t, lo, q.key);
    EnteredMasks(w, t.masks, q, t.bit, Routes(t), lo);
    SideOf(w, Keys(t.left), First(t.left), q.key, t.bit, false);
    SideOf(w, Keys(t.right), First(t.left), q.key, t.bit, true);
  }

  /** The right side of a node gains a key that belongs there. */
  lemma GrownRight(w: nat, bit: nat, l: Tree, r: Tree, near: Tree, masks: seq<Route>, q: Route, lo: nat, s: set<Route>)
    requires lo <= bit < w == |q.key| && q.key[bit] && Valid(w, l, bit + 1)
    requires Side(w, Keys(l), q.key, bit, false) && Side(w, Keys(r), q.key, bit, true)
    requires Added(w, r, q, bit + 1, near)
    requires s == Routes(l) + Routes(r) + {q} && MasksAre(masks, s, lo, bit)
    ensures Valid(w, Inner(bit, masks, l, near), lo)
  {
    assert Routes(l) + Routes(near) == s;
    SidePlus(w, Keys(r), q.key, bit, true);
    NodeOk(w, bit, masks, l, near, lo, q.key, s);
  }

  /** The left side of a node gains a key that belongs there. */
  lemma GrownLeft(w: nat, bit: nat, l: Tree, r: Tree, near: Tree, masks: seq<Route>, q: Route, lo: nat, s: set<Route>)
    requires lo <= bit < w == |q.key| && !q.key[bit] && Valid(w, r, bit + 1)
    requires Side(w, Keys(l), q.key, bit, false) && Side(w, Keys(r), q.key, bit, true)
    requires Added(w, l, q, bit + 1, near)
    requires s == Routes(l) + Routes(r) + {q} && MasksAre(masks, s, lo, bit)
    ensures Valid(w, Inner(bit, masks, near, r), lo)
  {
    assert Routes(near) + Routes(r) == s;
    SidePlus(w, Keys(l), q.key, bit, false);
    NodeOk(w, bit, masks, near, r, lo, q.key, s);
  }

  lemma InnerSets(bit: nat, masks: seq<Route>, l: Tree, r: Tree)
    ensures Routes(Inner(bit, masks, l, r)) == Routes(l) + Routes(r) && Keys(Inner(bit, masks, l, r)) == Keys(l) + Keys(r)
  {
  }

  lemma AddRight(w: nat, t: Tree, q: Route, b: nat, lo: nat, near: Tree)
    requires Valid(w, t, lo) && t.Inner? && Normal(w, q) && q !in Routes(t)
    requires LeavesAt(w, t, q, b) && t.bit <= b <= w && GoesRight(q.key, t.bit)
    requires Added(w, t.right, q, t.bit + 1, near)
    ensures var masks := if lo <= q.plen <= t.bit then InsertMask(t.masks, q) else t.masks;
            Added(w, t, q, lo, Inner(t.bit, masks, t.left, near))
  {
    hide Valid, Side, MasksAre, Normal, LeavesAt, InsertMask, Agree, Routes, Keys;
    OpenNode(w, t, lo);
    NodeAboveCut(w, t, q, b, lo);
    var masks := if lo <= q.plen <= t.bit then InsertMask(t.masks, q) else t.masks;
    InnerSets(t.bit, masks, t.left, near);
    GrownRight(w, t.bit, t.left, t.right, near, masks, q, lo, Routes(t) + {q});
  }

  lemma AddLeft(w: nat, t: Tree, q: Route, b: nat, lo: nat, near: Tree)
    requires Valid(w, t, lo) && t.Inner? && Normal(w, q) && q !in Routes(t)
    requires LeavesAt(w, t, q, b) && t.bit <= b <= w && !GoesRight(q.key, t.bit)
    requires Added(w, t.left, q, t.bit + 1, near)
    ensures var masks := if lo <= q.plen <= t.bit then InsertMask(t.masks, q) else t.masks;
            Added(w, t, q, lo, Inner(t.bit, masks, near, t.right))
  {
    hide Valid, Side, MasksAre, Normal, LeavesAt, InsertMask, Agree, Routes, Keys;
    OpenNode(w, t, lo);
    NodeAboveCut(w, t, q, b, lo);
    var masks := if lo <= q.plen <= t.bit then InsertMask(t.masks, q) else t.masks;
    InnerSets(t.bit, masks, near, t.right);
    GrownLeft(w, t.bit, t.left, t.right, near, masks, q, lo, Routes(t) + {q});
  }

  /** Insertion below a node keeps the invariant and adds exactly the one route. */
  lemma {:induction false} AddInOk(w: nat, t: Tree, q: Route, b: nat, lo: nat)
    requires Valid(w, t, lo) && Normal(w, q) && q !in Routes(t)
    requires LeavesAt(w, t, q, b) && lo <= b <= w
    ensures Added(w, t, q, lo, AddIn(w, t, q, b, lo))
  {
    hide Valid, Normal, LeavesAt, Branch, InsertMask, InsertEntry, Routes, Keys;
    if t.Leaf? && b == w {
      LeavesAtLeaf(w, t, q);
      AddToChain(w, t, q, lo);
    } else if t.Leaf? || b < t.bit {
      if t.Inner? {
        OpenNode(w, t, lo);
      }
      AddAtCut(w, t, q, b, lo);
    } else {
      OpenNode(w, t, lo);
      NormalWidth(w, q);
      AboveCut(w, t, q, b, lo);
      if GoesRight(q.key, t.bit) {
        AddInOk(w, t.right, q, b, t.bit + 1);
        AddRight(w, t, q, b, lo, AddIn(w, t.right, q, b, t.bit + 1));
      } else {
        AddInOk(w, t.left, q, b, t.bit + 1);
        AddLeft(w, t, q, b, lo, AddIn(w, t.left, q, b, t.bit + 1));
      }
    }
  }

  lemma LeavesAtLeaf(w: nat, t: Tree, q: Route)
    requires t.Leaf? && LeavesAt(w, t, q, w)
    ensures q.key == t.key
  {
  }

  lemma NormalWidth(w: nat, q: Route)
    requires Normal(w, q)
    ensures |q.key| == w
  {
  }

  lemma AddToChain(w: nat, t: Tree, q: Route, lo: nat)
    requires Valid(w, t, lo) && t.Leaf? && Normal(w, q) && q.key == t.key && q !in Routes(t)
    ensures var r := Leaf(t.key, t.sentinel, InsertEntry(t.chain, Entry(q.plen, q.plen < lo)));
            Valid(w, r, lo) && Routes(r) == Routes(t) + {q} && Keys(r) == Keys(t) + {q.key}
  {
    var e := Entry(q.plen, q.plen < lo);
    var chain, chain' := t.chain, InsertEntry(t.chain, e);
    forall x | x in chain ensures x.plen != e.plen {
      assert Route(t.key, x.plen) in Routes(t);
    }
    InsertEntryOk(chain, e);
    forall i | 0 <= i < |chain'|
      ensures Normal(w, Route(t.key, chain'[i].plen)) && (chain'[i].lifted <==> chain'[i].plen < lo)
    {
      assert chain'[i] in chain';
    }
    forall x ensures x in ChainRoutes(t.key, chain') <==> x in ChainRoutes(t.key, chain) + {q} {
      ChainRoutesIn(t.key, chain', x);
      ChainRoutesIn(t.key, chain, x);
      SameMembers(chain, chain', e, x.plen);
    }
  }

  lemma SameMembers(chain: seq<Entry>, chain': seq<Entry>, e: Entry, p: nat)
    requires forall x :: x in chain' <==> x in chain || x == e
    ensures (exists i :: 0 <= i < |chain'| && chain'[i].plen == p)
       <==> (exists i :: 0 <= i < |chain| && chain[i].plen == p) || e.plen == p
  {
    if i :| 0 <= i < |chain'| && chain'[i].plen == p {
      assert chain'[i] in chain';
    }
    if i :| 0 <= i < |chain| && chain[i].plen == p {
      assert chain[i] in chain';
    }
    assert e in chain';
  }

  // ---------------------------------------------------------------------------
  // Deletion
  // ---------------------------------------------------------------------------

  function RemoveEntry(chain: seq<Entry>, plen: nat): (r: seq<Entry>)
  {
    if chain == [] then [] else if chain[0].plen == plen then chain[1..] else [chain[0]] + RemoveEntry(chain[1..], plen)
  }

  function RemoveMask(masks: seq<Route>, q: Route): (r: seq<Route>)
  {
    if masks == [] then [] else if masks[0] == q then masks[1..] else [masks[0]] + RemoveMask(masks[1..], q)
  }

  /** A sibling chain takes its annotations back: it and the list are walked in step. */
  function DemotedChain(k: Key, chain: seq<Entry>, masks: seq<Route>): (r: seq<Entry>)
  {
    if chain == [] then []
    else if chain[0].lifted && masks != [] && masks[0] == Route(k, chain[0].plen) then
      [Entry(chain[0].plen, false)] + DemotedChain(k, chain[1..], masks[1..])
    else [chain[0]] + DemotedChain(k, chain[1..], masks)
  }

  /** Annotations that the walk leaves over; rn_delete would log them as orphaned. */
  function Orphans(k: Key, chain: seq<Entry>, masks: seq<Route>): (r: seq<Route>)
  {
    if chain == [] then masks
    else if chain[0].lifted && masks != [] && masks[0] == Route(k, chain[0].plen) then Orphans(k, chain[1..], masks[1..])
    else Orphans(k, chain[1..], masks)
  }

  /** The sibling that takes the place of a vanishing node, with that node's annotations. */
  function Demoted(t: Tree, masks: seq<Route>): (r: Tree)
  {
    match t
    case Leaf(k, s, chain) => Leaf(k, s, DemotedChain(k, chain, masks))
    case Inner(bit, own, l, r) => Inner(bit, own + masks, l, r)
  }

  datatype Remainder = Gone | Stays(tree: Tree)

  /** The node `t` around what is left of the side that held `q`. */
  function Rejoined(t: Tree, q: Route, lo: nat, near: Remainder): (r: Remainder)
    requires t.Inner?
  {
    var masks := if lo <= q.plen <= t.bit then RemoveMask(t.masks, q) else t.masks;
    if GoesRight(q.key, t.bit) then
      match near
      case Gone => Stays(Demoted(t.left, masks))
      case Stays(x) => Stays(Inner(t.bit, masks, t.left, x))
    else
      match near
      case Gone => Stays(Demoted(t.right, masks))
      case Stays(x) => Stays(Inner(t.bit, masks, x, t.right))
  }

  function DelIn(t: Tree, q: Route, lo: nat): (r: Remainder)
  {
    match t
    case Leaf(k, s, chain) =>
      var c := RemoveEntry(chain, q.plen);
      if c == [] && !s then Gone else Stays(Leaf(k, s, c))
    case Inner(bit, _, l, r) =>
      Rejoined(t, q, lo, DelIn(if GoesRight(q.key, bit) then r else l, q, bit + 1))
  }

  /** rn_delete; None when there is no such route. */
  function DeleteRoute(t: Tree, q: Route): (r: Option<Tree>)
  {
    var leaf := Search(t, q.key);
    if leaf.key != q.key || FindMask(leaf.chain, q.plen, 0).None? then None
    else match DelIn(t, q, 0)
      case Gone => None
      case Stays(x) => Some(x)
  }

  lemma {:induction false} RemoveEntryOk(chain: seq<Entry>, p: nat)
    requires Descending(chain)
    ensures Descending(RemoveEntry(chain, p))
    ensures forall x :: x in RemoveEntry(chain, p) <==> x in chain && x.plen != p
  {
    hide Descending;
    if chain != [] {
      Unconsed(chain);
      if chain[0].plen != p {
        RemoveEntryOk(chain[1..], p);
        Consed(chain[0], RemoveEntry(chain[1..], p));
      }
    }
  }

  lemma {:induction false} RemoveMaskOk(masks: seq<Route>, q: Route)
    requires Sorted(masks)
    ensures Sorted(RemoveMask(masks, q))
    ensures forall x :: x in RemoveMask(masks, q) <==> x in masks && x != q
  {
    hide Sorted;
    if masks != [] {
      UnconsedMask(masks);
      if masks[0] != q {
        RemoveMaskOk(masks[1..], q);
        ConsedMask(masks[0], RemoveMask(masks[1..], q));
      }
    }
  }

  ghost predicate HasMask(chain: seq<Entry>, p: nat)
  {
    exists i :: 0 <= i < |chain| && chain[i].plen == p
  }

  /** The list holds exactly the chain's masks with an index in `lo..b`. */
  ghost predicate Mirrors(k: Key, chain: seq<Entry>, masks: seq<Route>, b: nat, lo: nat)
  {
    forall x :: x in masks <==> x.key == k && lo <= x.plen <= b && HasMask(chain, x.plen)
  }

  lemma FirstHasMask(chain: seq<Entry>, p: nat)
    requires chain != []
    ensures HasMask(chain, p) <==> chain[0].plen == p || HasMask(chain[1..], p)
  {
    var rest := chain[1..];
    if i :| 0 <= i < |chain| && chain[i].plen == p {
      if i > 0 {
        assert rest[i - 1] == chain[i];
      }
    }
    if i :| 0 <= i < |rest| && rest[i].plen == p {
      assert chain[i + 1] == rest[i];
    }
  }

  lemma MasksNeedChain(k: Key, chain: seq<Entry>, masks: seq<Route>, b: nat, lo: nat)
    requires Mirrors(k, chain, masks, b, lo) && masks != []
    ensures chain != []
  {
    assert masks[0] in masks;
  }

  /** A first chain entry outside `lo..b` has no part in the list. */
  lemma OtherMasks(k: Key, chain: seq<Entry>, masks: seq<Route>, b: nat, lo: nat)
    requires chain != [] && !(lo <= chain[0].plen <= b) && Mirrors(k, chain, masks, b, lo)
    ensures Mirrors(k, chain[1..], masks, b, lo)
    ensures masks != [] ==> masks[0] != Route(k, chain[0].plen)
  {
    forall x ensures x in masks <==> x.key == k && lo <= x.plen <= b && HasMask(chain[1..], x.plen) {
      FirstHasMask(chain, x.plen);
    }
    assert Route(k, chain[0].plen) !in masks;
  }

  /** The first chain entry is the first of the list. */
  lemma FirstIsHead(k: Key, chain: seq<Entry>, masks: seq<Route>, b: nat, lo: nat)
    requires Descending(chain) && Sorted(masks) && chain != [] && lo <= chain[0].plen <= b
    requires Mirrors(k, chain, masks, b, lo)
    ensures masks != [] && masks[0] == Route(k, chain[0].plen)
  {
    var m0 := Route(k, chain[0].plen);
    assert HasMask(chain, m0.plen);
    assert m0 in masks;
    var j :| 0 <= j < |masks| && masks[j] == m0;
    assert masks[0] in masks;
    var i0 :| 0 <= i0 < |chain| && chain[i0].plen == masks[0].plen;
  }

  /** Chain and list without their first elements correspond as well. */
  lemma FirstMask(k: Key, chain: seq<Entry>, masks: seq<Route>, b: nat, lo: nat)
    requires Descending(chain) && Sorted(masks) && chain != [] && masks != []
    requires masks[0] == Route(k, chain[0].plen) && Mirrors(k, chain, masks, b, lo)
    ensures Mirrors(k, chain[1..], masks[1..], b, lo)
  {
    var m0, rest, tail := masks[0], chain[1..], masks[1..];
    assert masks == [m0] + tail;
    forall x ensures x in tail <==> x.key == k && lo <= x.plen <= b && HasMask(rest, x.plen) {
      FirstHasMask(chain, x.plen);
      assert x in masks <==> x == m0 || x in tail;
      NotTwice(chain, m0.plen);
      NotTwiceMasks(masks, m0);
    }
  }

  lemma NotTwice(chain: seq<Entry>, p: nat)
    requires Descending(chain) && chain != [] && chain[0].plen == p
    ensures !HasMask(chain[1..], p)
  {
    var rest := chain[1..];
    assert forall i :: 0 <= i < |rest| ==> rest[i] == chain[i + 1];
  }

  lemma NotTwiceMasks(masks: seq<Route>, q: Route)
    requires Sorted(masks) && masks != [] && masks[0] == q
    ensures q !in masks[1..]
  {
    var rest := masks[1..];
    assert forall i :: 0 <= i < |rest| ==> rest[i] == masks[i + 1];
  }

  /** The walk in step clears exactly the flags of indexes in `lo..b` and leaves nothing over. */
  lemma {:induction false} DemotedChainOk(k: Key, chain: seq<Entry>, masks: seq<Route>, b: nat, lo: nat)
    requires Descending(chain) && Sorted(masks) && Mirrors(k, chain, masks, b, lo)
    requires forall i :: 0 <= i < |chain| ==> (chain[i].lifted <==> chain[i].plen <= b)
    ensures var r := DemotedChain(k, chain, masks);
            && |r| == |chain| && Orphans(k, chain, masks) == []
            && forall i :: 0 <= i < |chain| ==> r[i].plen == chain[i].plen && (r[i].lifted <==> chain[i].plen <= b && chain[i].plen < lo)
  {
    hide Mirrors;
    if masks != [] {
      MasksNeedChain(k, chain, masks, b, lo);
    }
    if chain != [] {
      var c0, rest := chain[0], chain[1..];
      assert forall i :: 0 <= i < |rest| ==> rest[i] == chain[i + 1];
      if lo <= c0.plen <= b {
        FirstIsHead(k, chain, masks, b, lo);
        FirstMask(k, chain, masks, b, lo);
        DemotedChainOk(k, rest, masks[1..], b, lo);
      } else {
        OtherMasks(k, chain, masks, b, lo);
        DemotedChainOk(k, rest, masks, b, lo);
      }
    }
  }

  /** The sibling of a vanishing node takes over its annotations and its place. */
  lemma DemotedOk(w: nat, t: Tree, masks: seq<Route>, b: nat, lo: nat)
    requires Valid(w, t, b + 1) && lo <= b
    requires MasksAre(masks, Routes(t), lo, b)
    ensures Valid(w, Demoted(t, masks), lo)
    ensures Routes(Demoted(t, masks)) == Routes(t) && Keys(Demoted(t, masks)) == Keys(t)
  {
    if t.Leaf? {
      DemotedLeaf(w, t, masks, b, lo);
    } else {
      var r := Demoted(t, masks);
      assert Routes(r) == Routes(t);
      assert forall x :: x in r.masks <==> x in t.masks || x in masks;
      assert forall i :: 0 <= i < |t.masks| ==> t.masks[i] in t.masks;
      assert forall i :: 0 <= i < |masks| ==> masks[i] in masks;
      assert Sorted(r.masks);
      assert MasksOk(r, lo);
    }
  }

  lemma DemotedLeaf(w: nat, t: Tree, masks: seq<Route>, b: nat, lo: nat)
    requires t.Leaf? && Valid(w, t, b + 1) && lo <= b
    requires MasksAre(masks, Routes(t), lo, b)
    ensures Valid(w, Demoted(t, masks), lo)
    ensures Routes(Demoted(t, masks)) == Routes(t) && Orphans(t.key, t.chain, masks) == []
  {
    assert Mirrors(t.key, t.chain, masks, b, lo) by {
      forall x ensures x in masks <==> x.key == t.key && lo <= x.plen <= b && HasMask(t.chain, x.plen) {
        ChainRoutesIn(t.key, t.chain, x);
      }
    }
    DemotedChainOk(t.key, t.chain, masks, b, lo);
    var c := DemotedChain(t.key, t.chain, masks);
    assert forall i :: 0 <= i < |c| ==> Route(t.key, c[i].plen) == Route(t.key, t.chain[i].plen);
  }

  /** `r` is `t` with the route `q` removed; `Gone` when nothing is left. */
  ghost predicate Removed(w: nat, t: Tree, q: Route, lo: nat, r: Remainder)
  {
    match r
    case Gone => Routes(t) == {q} && Keys(t) == {q.key}
    case Stays(x) =>
      Valid(w, x, lo) && Routes(x) == Routes(t) - {q} && Keys(t) - {q.key} <= Keys(x) <= Keys(t)
  }

  lemma RemoveFromChain(w: nat, t: Tree, q: Route, lo: nat)
    requires t.Leaf? && Valid(w, t, lo) && q in Routes(t)
    ensures Removed(w, t, q, lo, DelIn(t, q, lo))
  {
    var c := RemoveEntry(t.chain, q.plen);
    RemoveEntryOk(t.chain, q.plen);
    assert forall i :: 0 <= i < |c| ==> c[i] in c;
    forall x ensures x in ChainRoutes(t.key, c) <==> x in Routes(t) && x != q {
      ChainRoutesIn(t.key, c, x);
      ChainRoutesIn(t.key, t.chain, x);
      LessMembers(t.chain, c, q.plen, x.plen);
    }
  }

  lemma LessMembers(chain: seq<Entry>, c: seq<Entry>, q: nat, p: nat)
    requires forall x :: x in c <==> x in chain && x.plen != q
    ensures (exists i :: 0 <= i < |c| && c[i].plen == p) <==> (exists i :: 0 <= i < |chain| && chain[i].plen == p) && p != q
  {
    if i :| 0 <= i < |c| && c[i].plen == p {
      assert c[i] in c;
    }
    if i :| 0 <= i < |chain| && chain[i].plen == p {
      assert chain[i] in chain;
      assert p != q ==> chain[i] in c;
    }
  }

  /** The annotation list with the deleted route taken out. */
  lemma LeftMasks(w: nat, t: Tree, lo: nat, q: Route)
    requires Valid(w, t, lo) && t.Inner?
    ensures MasksAre(if lo <= q.plen <= t.bit then RemoveMask(t.masks, q) else t.masks, Routes(t) - {q}, lo, t.bit)
  {
    RemoveMaskOk(t.masks, q);
  }

  /** A route of the tree lies on the side that its key selects, and on no other. */
  lemma OnItsSide(w: nat, t: Tree, lo: nat, q: Route)
    requires Valid(w, t, lo) && t.Inner? && q in Routes(t)
    ensures GoesRight(q.key, t.bit) ==> q in Routes(t.right) && q !in Routes(t.left) && q.key !in Keys(t.left)
    ensures !GoesRight(q.key, t.bit) ==> q in Routes(t.left) && q !in Routes(t.right) && q.key !in Keys(t.right)
  {
    RoutesAreNormal(w, t.left, t.bit + 1);
    RoutesAreNormal(w, t.right, t.bit + 1);
  }

  lemma ShrunkRight(w: nat, t: Tree, lo: nat, q: Route, x: Tree, masks: seq<Route>)
    requires Valid(w, t, lo) && t.Inner? && q in Routes(t.right) && q !in Routes(t.left)
    requires Removed(w, t.right, q, t.bit + 1, Stays(x))
    requires MasksAre(masks, Routes(t) - {q}, lo, t.bit)
    ensures Removed(w, t, q, lo, Stays(Inner(t.bit, masks, t.left, x)))
  {
    assert Routes(t.left) + Routes(x) == Routes(t) - {q};
    assert Side(w, Keys(x), First(t.left), t.bit, true);
    NodeOk(w, t.bit, masks, t.left, x, lo, First(t.left), Routes(t) - {q});
  }

  lemma ShrunkLeft(w: nat, t: Tree, lo: nat, q: Route, x: Tree, masks: seq<Route>)
    requires Valid(w, t, lo) && t.Inner? && q in Routes(t.left) && q !in Routes(t.right)
    requires Removed(w, t.left, q, t.bit + 1, Stays(x))
    requires MasksAre(masks, Routes(t) - {q}, lo, t.bit)
    ensures Removed(w, t, q, lo, Stays(Inner(t.bit, masks, x, t.right)))
  {
    assert Routes(x) + Routes(t.right) == Routes(t) - {q};
    assert Side(w, Keys(x), First(t.left), t.bit, false);
    NodeOk(w, t.bit, masks, x, t.right, lo, First(t.left), Routes(t) - {q});
  }

  lemma Collapsed(w: nat, t: Tree, lo: nat, q: Route, far: Tree, masks: seq<Route>)
    requires Valid(w, t, lo) && t.Inner? && Valid(w, far, t.bit + 1)
    requires Routes(far) == Routes(t) - {q} && Keys(t) - {q.key} <= Keys(far) <= Keys(t)
    requires MasksAre(masks, Routes(t) - {q}, lo, t.bit)
    ensures Removed(w, t, q, lo, Stays(Demoted(far, masks)))
  {
    DemotedOk(w, far, masks, t.bit, lo);
  }

  lemma RejoinedOk(w: nat, t: Tree, q: Route, lo: nat, near: Remainder)
    requires Valid(w, t, lo) && t.Inner? && q in Routes(t)
    requires Removed(w, if GoesRight(q.key, t.bit) then t.right else t.left, q, t.bit + 1, near)
    ensures Removed(w, t, q, lo, Rejoined(t, q, lo, near))
  {
    OnItsSide(w, t, lo, q);
    LeftMasks(w, t, lo, q);
    var masks := if lo <= q.plen <= t.bit then RemoveMask(t.masks, q) else t.masks;
    if GoesRight(q.key, t.bit) {
      match near
      case Gone => Collapsed(w, t, lo, q, t.left, masks);
      case Stays(x) => ShrunkRight(w, t, lo, q, x, masks);
    } else {
      match near
      case Gone => Collapsed(w, t, lo, q, t.right, masks);
      case Stays(x) => ShrunkLeft(w, t, lo, q, x, masks);
    }
  }

  /** Deletion below a node keeps the invariant and removes exactly the one route. */
  lemma {:induction false} DelInOk(w: nat, t: Tree, q: Route, lo: nat)
    requires Valid(w, t, lo) && q in Routes(t)
    ensures Removed(w, t, q, lo, DelIn(t, q, lo))
  {
    hide Valid, Removed, Rejoined, Routes, RemoveEntry;
    if t.Leaf? {
      RemoveFromChain(w, t, q, lo);
    } else {
      var near := if GoesRight(q.key, t.bit) then t.right else t.left;
      OpenNode(w, t, lo);
      OnItsSide(w, t, lo, q);
      DelInOk(w, near, q, t.bit + 1);
      RejoinedOk(w, t, q, lo, DelIn(near, q, t.bit + 1));
    }
  }
}
