/**
 Where the nodes of the radix tree live (rn_newpair, rn_addroute and rn_delete of
 compat/net_radix/radix.c): every route brings an allocated pair, a leaf and an internal node.
 The internal node of a pair need not be the parent of its leaf, and a deletion copies internal
 nodes from pair to pair, so that the pair it returns can be freed.
 */
module RadixPairs {
  import opened Common
  import opened Radix
  import opened RadixUpdate
  import opened RadixHistory

  /** Names a pair; zero is the base allocation with the top node and the two sentinel leaves. */
  type Pair = nat

  datatype Held = Held(pair: Pair, plen: nat)

  /** A tree with, for every node, the pair that it lives in. */
  datatype Hosted =
    | HLeaf(key: Key, sentinel: bool, chain: seq<Held>)
    | HInner(bit: nat, host: Pair, left: Hosted, right: Hosted)

  // ---------------------------------------------------------------------------
  // Operations
  // ---------------------------------------------------------------------------

  function PlaceHeld(chain: seq<Held>, e: Held): (r: seq<Held>)
  {
    if chain == [] || chain[0].plen < e.plen then [e] + chain else [chain[0]] + PlaceHeld(chain[1..], e)
  }

  /** The pair of the new route: its leaf goes into a chain, or leaf and internal node both into the tree. */
  function HostNew(w: nat, t: Hosted, q: Route, p: Pair, b: nat): (r: Hosted)
  {
    match t
    case HLeaf(k, s, chain) =>
      if b >= w then HLeaf(k, s, PlaceHeld(chain, Held(p, q.plen))) else NewPair(t, q, p, b)
    case HInner(bit, host, l, r) =>
      if b < bit then NewPair(t, q, p, b)
      else if GoesRight(q.key, bit) then HInner(bit, host, l, HostNew(w, r, q, p, b))
      else HInner(bit, host, HostNew(w, l, q, p, b), r)
  }

  function NewPair(t: Hosted, q: Route, p: Pair, b: nat): (r: Hosted)
  {
    var leaf := HLeaf(q.key, false, [Held(p, q.plen)]);
    if GoesRight(q.key, b) then HInner(b, p, t, leaf) else HInner(b, p, leaf, t)
  }

  function DropHeld(chain: seq<Held>, plen: nat): (r: seq<Held>)
  {
    if chain == [] then [] else if chain[0].plen == plen then chain[1..] else [chain[0]] + DropHeld(chain[1..], plen)
  }

  /** What a deletion leaves: `heir` is the pair whose internal node becomes free for another one. */
  datatype Rest = Nothing | Kept(tree: Hosted, heir: Pair, merged: bool)

  /** The next in the chain if the head leaves, else the head, which is the base for a sentinel's chain. */
  function HeirInChain(t: Hosted, plen: nat): (p: Pair)
    requires t.HLeaf?
  {
    if t.sentinel || t.chain == [] then 0
    else if t.chain[0].plen != plen then t.chain[0].pair
    else if |t.chain| > 1 then t.chain[1].pair
    else 0
  }

  /** The route leaves its chain, or its leaf and the leaf's parent leave the tree. */
  function DropFrom(t: Hosted, q: Route): (r: Rest)
  {
    match t
    case HLeaf(k, s, chain) =>
      var c := DropHeld(chain, q.plen);
      if c == [] && !s then Nothing else Kept(HLeaf(k, s, c), HeirInChain(t, q.plen), false)
    case HInner(bit, host, l, r) =>
      var right := GoesRight(q.key, bit);
      match DropFrom(if right then r else l, q)
      case Nothing => Kept(if right then l else r, host, true)
      case Kept(x, heir, merged) => Kept(if right then HInner(bit, host, l, x) else HInner(bit, host, x, r), heir, merged)
  }

  /** An internal node that lives in `from` is copied to `to`. */
  function Moved(t: Hosted, from: Pair, to: Pair): (r: Hosted)
  {
    match t
    case HLeaf(_, _, _) => t
    case HInner(bit, host, l, r) => HInner(bit, if host == from then to else host, Moved(l, from, to), Moved(r, from, to))
  }

  function HSearch(t: Hosted, v: Key): (l: Hosted)
    ensures l.HLeaf?
  {
    match t
    case HLeaf(_, _, _) => t
    case HInner(bit, _, l, r) => if GoesRight(v, bit) then HSearch(r, v) else HSearch(l, v)
  }

  /** rn_delete of the route whose pair is `p`. */
  function HostDelete(t: Hosted, q: Route, p: Pair): (r: Rest)
  {
    match DropFrom(t, q)
    case Nothing => Nothing
    case Kept(x, heir, merged) => Kept(Moved(x, p, heir), heir, merged)
  }

  // ---------------------------------------------------------------------------
  // Invariant
  // ---------------------------------------------------------------------------

  ghost function ChainPairs(chain: seq<Held>): (s: set<Pair>)
  {
    if chain == [] then {} else {chain[0].pair} + ChainPairs(chain[1..])
  }

  /** Pairs whose leaf is in the tree. */
  ghost function Pairs(t: Hosted): (s: set<Pair>)
  {
    match t
    case HLeaf(_, _, chain) => ChainPairs(chain)
    case HInner(_, _, l, r) => Pairs(l) + Pairs(r)
  }

  /** Pairs whose internal node is in the tree. */
  ghost function Hosts(t: Hosted): (s: set<Pair>)
  {
    match t
    case HLeaf(_, _, _) => {}
    case HInner(_, host, l, r) => {host} + Hosts(l) + Hosts(r)
  }

  ghost predicate ChainOnce(chain: seq<Held>)
  {
    chain != [] ==> chain[0].pair !in ChainPairs(chain[1..]) && ChainOnce(chain[1..])
  }

  /** Every leaf lives in a pair of its own, and so does every internal node. */
  ghost predicate Once(t: Hosted)
  {
    match t
    case HLeaf(_, _, chain) => ChainOnce(chain)
    case HInner(_, host, l, r) =>
      && Once(l) && Once(r) && Pairs(l) !! Pairs(r)
      && Hosts(l) !! Hosts(r) && host !in Hosts(l) && host !in Hosts(r)
  }

  ghost function Count(chain: seq<Held>, hosts: set<Pair>): (n: nat)
  {
    if chain == [] then 0 else (if chain[0].pair in hosts then 1 else 0) + Count(chain[1..], hosts)
  }

  /** Of every chain exactly one pair hosts an internal node; of the sentinels' chains none does. */
  ghost predicate OneHostEach(t: Hosted, hosts: set<Pair>)
  {
    match t
    case HLeaf(_, sentinel, chain) => Count(chain, hosts) == if sentinel then 0 else 1
    case HInner(_, _, l, r) => OneHostEach(l, hosts) && OneHostEach(r, hosts)
  }

  ghost predicate HasSentinel(t: Hosted)
  {
    match t
    case HLeaf(_, sentinel, _) => sentinel
    case HInner(_, _, l, r) => HasSentinel(l) || HasSentinel(r)
  }

  /** The whole tree: the top node is in the base, all others in pairs of stored routes. */
  ghost predicate HostsOk(t: Hosted)
  {
    && t.HInner? && t.host == 0 && 0 !in Pairs(t) && Once(t) && HasSentinel(t.left) && HasSentinel(t.right)
    && Hosts(t) - {0} <= Pairs(t) && OneHostEach(t, Hosts(t))
  }

  // ---------------------------------------------------------------------------
  // Insertion
  // ---------------------------------------------------------------------------

  lemma {:induction false} CountOthers(chain: seq<Held>, hosts: set<Pair>, hosts': set<Pair>)
    requires forall p :: p in ChainPairs(chain) ==> (p in hosts <==> p in hosts')
    ensures Count(chain, hosts) == Count(chain, hosts')
  {
    if chain != [] {
      assert chain[0].pair in ChainPairs(chain);
      CountOthers(chain[1..], hosts, hosts');
    }
  }

  lemma {:induction false} OthersKeep(t: Hosted, hosts: set<Pair>, hosts': set<Pair>)
    requires OneHostEach(t, hosts) && forall p :: p in Pairs(t) ==> (p in hosts <==> p in hosts')
    ensures OneHostEach(t, hosts')
  {
    if t.HLeaf? {
      CountOthers(t.chain, hosts, hosts');
    } else {
      OthersKeep(t.left, hosts, hosts');
      OthersKeep(t.right, hosts, hosts');
    }
  }

  lemma {:induction false} PlacedOk(chain: seq<Held>, e: Held, hosts: set<Pair>)
    requires ChainOnce(chain) && e.pair !in ChainPairs(chain) && e.pair !in hosts
    ensures ChainOnce(PlaceHeld(chain, e)) && ChainPairs(PlaceHeld(chain, e)) == ChainPairs(chain) + {e.pair}
    ensures Count(PlaceHeld(chain, e), hosts) == Count(chain, hosts)
  {
    var r := PlaceHeld(chain, e);
    if chain == [] || chain[0].plen < e.plen {
      assert r[1..] == chain;
    } else {
      PlacedOk(chain[1..], e, hosts);
      assert r[1..] == PlaceHeld(chain[1..], e);
    }
  }

  /** The pairs whose internal node comes into use: the new one, unless the key was there. */
  ghost function Extra(w: nat, t: Hosted, q: Route, p: Pair, b: nat): (s: set<Pair>)
  {
    match t
    case HLeaf(_, _, _) => if b >= w then {} else {p}
    case HInner(bit, _, l, r) => if b < bit then {p} else Extra(w, if GoesRight(q.key, bit) then r else l, q, p, b)
  }

  lemma NewPairOk(t: Hosted, q: Route, p: Pair, b: nat, hosts: set<Pair>)
    requires Once(t) && p !in Pairs(t) && p !in Hosts(t) && p !in hosts && OneHostEach(t, hosts)
    ensures var r := NewPair(t, q, p, b);
            && Once(r) && Pairs(r) == Pairs(t) + {p} && Hosts(r) == Hosts(t) + {p} && OneHostEach(r, hosts + {p})
  {
    var leaf := HLeaf(q.key, false, [Held(p, q.plen)]);
    assert leaf.chain[1..] == [] && ChainPairs(leaf.chain[1..]) == {};
    assert Pairs(leaf) == {p} && Once(leaf);
    assert Count(leaf.chain, hosts + {p}) == 1;
    OthersKeep(t, hosts, hosts + {p});
  }

  /** A new pair hosts its leaf, and an internal node exactly if the key is new. */
  lemma {:induction false} HostNewOk(w: nat, t: Hosted, q: Route, p: Pair, b: nat, hosts: set<Pair>)
    requires Once(t) && p !in Pairs(t) && p !in Hosts(t) && p !in hosts && OneHostEach(t, hosts)
    ensures var r, x := HostNew(w, t, q, p, b), Extra(w, t, q, p, b);
            && Once(r) && Pairs(r) == Pairs(t) + {p} && Hosts(r) == Hosts(t) + x && OneHostEach(r, hosts + x) && x <= {p}
  {
    if t.HLeaf? && b >= w {
      PlacedOk(t.chain, Held(p, q.plen), hosts);
      assert hosts + {} == hosts;
    } else if t.HLeaf? || b < t.bit {
      NewPairOk(t, q, p, b, hosts);
    } else {
      var right := GoesRight(q.key, t.bit);
      var near, far := if right then t.right else t.left, if right then t.left else t.right;
      HostNewOk(w, near, q, p, b, hosts);
      OthersKeep(far, hosts, hosts + Extra(w, near, q, p, b));
    }
  }

  /** rn_addroute keeps every node in a pair of its own. */
  lemma AddKeepsHosts(w: nat, t: Hosted, q: Route, p: Pair, b: nat)
    requires HostsOk(t) && p !in Pairs(t) && p != 0 && b >= t.bit
    ensures HostsOk(HostNew(w, t, q, p, b)) && Pairs(HostNew(w, t, q, p, b)) == Pairs(t) + {p}
  {
    HostNewOk(w, t, q, p, b, Hosts(t));
    SentinelStays(w, t.left, q, p, b);
    SentinelStays(w, t.right, q, p, b);
  }

  lemma {:induction false} SentinelStays(w: nat, t: Hosted, q: Route, p: Pair, b: nat)
    ensures HasSentinel(t) ==> HasSentinel(HostNew(w, t, q, p, b))
  {
    if t.HInner? && b >= t.bit {
      SentinelStays(w, if GoesRight(q.key, t.bit) then t.right else t.left, q, p, b);
    }
  }

  // ---------------------------------------------------------------------------
  // Deletion
  // ---------------------------------------------------------------------------

  /** The route is stored, in this pair. */
  ghost predicate HeldBy(chain: seq<Held>, plen: nat, p: Pair)
  {
    chain != [] && if chain[0].plen == plen then chain[0].pair == p else HeldBy(chain[1..], plen, p)
  }

  lemma {:induction false} DroppedOk(chain: seq<Held>, plen: nat, p: Pair, hosts: set<Pair>)
    requires ChainOnce(chain) && HeldBy(chain, plen, p)
    ensures var c := DropHeld(chain, plen);
            && ChainOnce(c) && ChainPairs(c) == ChainPairs(chain) - {p} && p in ChainPairs(chain)
            && Count(c, hosts) + (if p in hosts then 1 else 0) == Count(chain, hosts)
  {
    if chain[0].plen != plen {
      DroppedOk(chain[1..], plen, p, hosts);
      assert DropHeld(chain, plen)[1..] == DropHeld(chain[1..], plen);
    }
  }

  lemma {:induction false} CountPositive(chain: seq<Held>, hosts: set<Pair>, x: Pair)
    requires x in ChainPairs(chain) && x in hosts
    ensures Count(chain, hosts) > 0
  {
    if chain[0].pair != x {
      CountPositive(chain[1..], hosts, x);
    }
  }

  lemma {:induction false} CountPlus(chain: seq<Held>, hosts: set<Pair>, x: Pair)
    requires ChainOnce(chain) && x in ChainPairs(chain) && x !in hosts
    ensures Count(chain, hosts + {x}) == Count(chain, hosts) + 1
  {
    if chain[0].pair == x {
      CountOthers(chain[1..], hosts, hosts + {x});
    } else {
      CountPlus(chain[1..], hosts, x);
    }
  }

  /** The hosts after a deletion: the pair itself is none of them any more. */
  ghost function HostsAfter(hosts: set<Pair>, p: Pair, heir: Pair, merged: bool): (s: set<Pair>)
  {
    if !merged && p in hosts then hosts - {p} + {heir} else hosts - {p}
  }

  /** A chain that goes on without one of its pairs. */
  lemma DropFromChain(t: Hosted, plen: nat, p: Pair, hosts: set<Pair>)
    requires t.HLeaf? && Once(t) && OneHostEach(t, hosts) && HeldBy(t.chain, plen, p)
    ensures var c, heir := DropHeld(t.chain, plen), HeirInChain(t, plen);
            && ChainOnce(c) && ChainPairs(c) == ChainPairs(t.chain) - {p}
            && (c == [] && !t.sentinel ==> ChainPairs(t.chain) == {p} && p in hosts)
            && (c != [] && p in hosts ==> heir in ChainPairs(c) && heir !in hosts && !t.sentinel)
            && (c != [] || t.sentinel ==> Count(c, HostsAfter(hosts, p, heir, false)) == if t.sentinel then 0 else 1)
  {
    var c, heir := DropHeld(t.chain, plen), HeirInChain(t, plen);
    DroppedOk(t.chain, plen, p, hosts);
    if p in hosts {
      CountPositive(t.chain, hosts, p);
    }
    if c != [] && p in hosts {
      HeirIsLeft(t, plen, p);
      if heir in hosts {
        CountPositive(c, hosts, heir);
      }
      CountOthers(c, hosts, hosts - {p});
      CountPlus(c, hosts - {p}, heir);
    } else {
      CountOthers(c, hosts, hosts - {p});
    }
    if c == [] && !t.sentinel && p !in hosts {
      CountOthers(c, hosts, {});
    }
  }

  lemma HeirIsLeft(t: Hosted, plen: nat, p: Pair)
    requires t.HLeaf? && !t.sentinel && ChainOnce(t.chain) && HeldBy(t.chain, plen, p) && DropHeld(t.chain, plen) != []
    ensures HeirInChain(t, plen) in ChainPairs(DropHeld(t.chain, plen))
  {
    var chain, c := t.chain, DropHeld(t.chain, plen);
    if chain[0].plen == plen {
      assert c == chain[1..] && c[0] == chain[1];
    } else {
      assert c[0] == chain[0];
    }
  }

  lemma {:induction false} HeldIsPaired(t: Hosted, q: Route, p: Pair)
    requires HeldBy(HSearch(t, q.key).chain, q.plen, p)
    ensures p in Pairs(t)
  {
    if t.HInner? {
      HeldIsPaired(if GoesRight(q.key, t.bit) then t.right else t.left, q, p);
    } else {
      HeldInChain(t.chain, q.plen, p);
    }
  }

  lemma {:induction false} HeldInChain(chain: seq<Held>, plen: nat, p: Pair)
    requires HeldBy(chain, plen, p)
    ensures p in ChainPairs(chain)
  {
    if chain[0].plen != plen {
      HeldInChain(chain[1..], plen, p);
    }
  }

  /** What a deletion does to the pairs and hosts of a subtree `t` of a tree with these hosts. */
  ghost predicate DropSpec(t: Hosted, p: Pair, hosts: set<Pair>, r: Rest)
  {
    match r
    case Nothing => Pairs(t) == {p} && Hosts(t) == {} && p in hosts && !HasSentinel(t)
    case Kept(x, heir, merged) =>
      && Once(x) && Pairs(x) == Pairs(t) - {p} && (HasSentinel(t) ==> HasSentinel(x))
      && OneHostEach(x, HostsAfter(hosts, p, heir, merged))
      && (if merged then p in hosts && heir in Hosts(t) && Hosts(x) == Hosts(t) - {heir}
          else Hosts(x) == Hosts(t) && (p in hosts ==> heir in Pairs(x) && heir !in hosts))
  }

  lemma {:induction false} DropFromOk(t: Hosted, q: Route, p: Pair, hosts: set<Pair>)
    requires Once(t) && OneHostEach(t, hosts) && HeldBy(HSearch(t, q.key).chain, q.plen, p)
    ensures DropSpec(t, p, hosts, DropFrom(t, q))
  {
    if t.HLeaf? {
      DropFromChain(t, q.plen, p, hosts);
    } else {
      var right := GoesRight(q.key, t.bit);
      var near, far := if right then t.right else t.left, if right then t.left else t.right;
      HeldIsPaired(near, q, p);
      DropFromOk(near, q, p, hosts);
      match DropFrom(near, q)
      case Nothing => OthersKeep(far, hosts, hosts - {p});
      case Kept(x, heir, merged) => OthersKeep(far, hosts, HostsAfter(hosts, p, heir, merged));
    }
  }

  lemma {:induction false} MovedOk(t: Hosted, from: Pair, to: Pair)
    requires Once(t) && (to !in Hosts(t) || from == to || from !in Hosts(t))
    ensures var r := Moved(t, from, to);
            && Once(r) && Pairs(r) == Pairs(t) && HasSentinel(r) == HasSentinel(t)
            && Hosts(r) == if from in Hosts(t) then Hosts(t) - {from} + {to} else Hosts(t)
  {
    if t.HInner? {
      MovedOk(t.left, from, to);
      MovedOk(t.right, from, to);
    }
  }

  lemma {:induction false} MovedLeaves(t: Hosted, from: Pair, to: Pair, hosts: set<Pair>)
    ensures OneHostEach(Moved(t, from, to), hosts) <==> OneHostEach(t, hosts)
  {
    if t.HInner? {
      MovedLeaves(t.left, from, to, hosts);
      MovedLeaves(t.right, from, to, hosts);
    }
  }

  /** rn_delete: every node is again in a pair of its own, and the returned pair holds none of them. */
  lemma DeleteKeepsHosts(t: Hosted, q: Route, p: Pair)
    requires HostsOk(t) && HeldBy(HSearch(t, q.key).chain, q.plen, p)
    ensures var r := HostDelete(t, q, p);
            r.Kept? && HostsOk(r.tree) && Pairs(r.tree) == Pairs(t) - {p} && p !in Hosts(r.tree)
  {
    hide OneHostEach, Once, DropHeld;
    var hosts := Hosts(t);
    HeldIsPaired(t, q, p);
    TopStays(t, q, p);
    DropFromOk(t, q, p, hosts);
    var Kept(x, heir, merged) := DropFrom(t, q);
    var after := HostsAfter(hosts, p, heir, merged);
    MovedOk(x, p, heir);
    MovedLeaves(x, p, heir, after);
    TopMoved(x, p, heir);
    assert Hosts(Moved(x, p, heir)) == after;
  }

  lemma TopMoved(t: Hosted, from: Pair, to: Pair)
    requires t.HInner? && t.host == 0 && from != 0
    ensures var r := Moved(t, from, to);
            && r.HInner? && r.host == 0
            && (HasSentinel(r.left) <==> HasSentinel(t.left)) && (HasSentinel(r.right) <==> HasSentinel(t.right))
  {
    MovedSentinel(t.left, from, to);
    MovedSentinel(t.right, from, to);
  }

  lemma {:induction false} MovedSentinel(t: Hosted, from: Pair, to: Pair)
    ensures HasSentinel(Moved(t, from, to)) <==> HasSentinel(t)
  {
    if t.HInner? {
      MovedSentinel(t.left, from, to);
      MovedSentinel(t.right, from, to);
    }
  }

  /** The top node and both sentinels are still there. */
  lemma TopStays(t: Hosted, q: Route, p: Pair)
    requires HostsOk(t) && HeldBy(HSearch(t, q.key).chain, q.plen, p)
    ensures var r := DropFrom(t, q);
            && r.Kept? && r.tree.HInner? && r.tree.host == 0 && HasSentinel(r.tree.left) && HasSentinel(r.tree.right)
            && (r.merged ==> r.heir in Hosts(t.left) + Hosts(t.right))
  {
    var near := if GoesRight(q.key, t.bit) then t.right else t.left;
    DropFromOk(near, q, p, Hosts(t));
  }

  // ---------------------------------------------------------------------------
  // The hosted tree is the routing tree
  // ---------------------------------------------------------------------------

  function PlainChain(chain: seq<Entry>): (r: seq<nat>)
  {
    if chain == [] then [] else [chain[0].plen] + PlainChain(chain[1..])
  }

  function HeldChain(chain: seq<Held>): (r: seq<nat>)
  {
    if chain == [] then [] else [chain[0].plen] + HeldChain(chain[1..])
  }

  /** Same keys, bits, sentinels and chains. */
  ghost predicate SameShape(h: Hosted, t: Tree)
  {
    match (h, t)
    case (HLeaf(k, s, c), Leaf(k', s', c')) => k == k' && s == s' && HeldChain(c) == PlainChain(c')
    case (HInner(b, _, l, r), Inner(b', _, l', r')) => b == b' && SameShape(l, l') && SameShape(r, r')
    case (_, _) => false
  }

  lemma {:induction false} PlacedShape(c: seq<Held>, c': seq<Entry>, e: Held, e': Entry)
    requires HeldChain(c) == PlainChain(c') && e.plen == e'.plen
    ensures HeldChain(PlaceHeld(c, e)) == PlainChain(InsertEntry(c', e'))
  {
    var x, y := PlaceHeld(c, e), InsertEntry(c', e');
    assert c == [] <==> c' == [];
    assert c != [] ==> HeldChain(c)[0] == c[0].plen && PlainChain(c')[0] == c'[0].plen;
    if c == [] || c[0].plen < e.plen {
      assert x[1..] == c && y[1..] == c';
    } else {
      assert HeldChain(c)[1..] == HeldChain(c[1..]) && PlainChain(c')[1..] == PlainChain(c'[1..]);
      PlacedShape(c[1..], c'[1..], e, e');
      assert x[1..] == PlaceHeld(c[1..], e) && y[1..] == InsertEntry(c'[1..], e');
    }
  }

  lemma {:induction false} DroppedShape(c: seq<Held>, c': seq<Entry>, plen: nat)
    requires HeldChain(c) == PlainChain(c')
    ensures HeldChain(DropHeld(c, plen)) == PlainChain(RemoveEntry(c', plen))
  {
    if c != [] {
      assert HeldChain(c)[1..] == HeldChain(c[1..]) && PlainChain(c')[1..] == PlainChain(c'[1..]);
      if c[0].plen != plen {
        DroppedShape(c[1..], c'[1..], plen);
        assert DropHeld(c, plen)[1..] == DropHeld(c[1..], plen) && RemoveEntry(c', plen)[1..] == RemoveEntry(c'[1..], plen);
      }
    }
  }

  lemma {:induction false} PromotedPlain(chain: seq<Entry>, b: nat)
    ensures PlainChain(PromotedChain(chain, b)) == PlainChain(chain)
  {
    if chain != [] {
      PromotedPlain(chain[1..], b);
      assert PromotedChain(chain, b)[1..] == PromotedChain(chain[1..], b);
    }
  }

  lemma {:induction false} DemotedPlain(k: Key, chain: seq<Entry>, masks: seq<Route>)
    ensures PlainChain(DemotedChain(k, chain, masks)) == PlainChain(chain)
  {
    if chain != [] {
      var first := chain[0].lifted && masks != [] && masks[0] == Route(k, chain[0].plen);
      var rest := if first then masks[1..] else masks;
      DemotedPlain(k, chain[1..], rest);
      assert DemotedChain(k, chain, masks)[1..] == DemotedChain(k, chain[1..], rest);
    }
  }

  /** The hosted insertion is rn_addroute on the tree that is proved valid. */
  lemma {:induction false} HostNewIsAdd(w: nat, h: Hosted, t: Tree, q: Route, p: Pair, b: nat, lo: nat)
    requires SameShape(h, t)
    ensures SameShape(HostNew(w, h, q, p, b), AddIn(w, t, q, b, lo))
    decreases h
  {
    if t.Leaf? && b >= w {
      PlacedShape(h.chain, t.chain, Held(p, q.plen), Entry(q.plen, q.plen < lo));
    } else if t.Leaf? || b < t.bit {
      if t.Leaf? {
        PromotedPlain(t.chain, b);
      }
      assert SameShape(h, Lowered(t, b));
      NewLeafShape(q, p, b);
    } else {
      var right := GoesRight(q.key, t.bit);
      HostNewIsAdd(w, if right then h.right else h.left, if right then t.right else t.left, q, p, b, t.bit + 1);
    }
  }

  lemma NewLeafShape(q: Route, p: Pair, b: nat)
    ensures SameShape(HLeaf(q.key, false, [Held(p, q.plen)]), Leaf(q.key, false, [Entry(q.plen, q.plen <= b)]))
  {
    var x, y := [Held(p, q.plen)], [Entry(q.plen, q.plen <= b)];
    assert x[1..] == [] && y[1..] == [];
  }

  /** The hosted deletion is rn_delete on the tree that is proved valid. */
  lemma {:induction false} DropFromIsDel(h: Hosted, t: Tree, q: Route, lo: nat)
    requires SameShape(h, t)
    ensures match DelIn(t, q, lo)
            case Gone => DropFrom(h, q).Nothing?
            case Stays(x) => DropFrom(h, q).Kept? && SameShape(DropFrom(h, q).tree, x)
    decreases h
  {
    if t.Leaf? {
      DroppedShape(h.chain, t.chain, q.plen);
      assert DropHeld(h.chain, q.plen) == [] <==> HeldChain(DropHeld(h.chain, q.plen)) == [];
    } else {
      var right := GoesRight(q.key, t.bit);
      DropFromIsDel(if right then h.right else h.left, if right then t.right else t.left, q, t.bit + 1);
      var masks := if lo <= q.plen <= t.bit then RemoveMask(t.masks, q) else t.masks;
      DemotedShape(if right then h.left else h.right, if right then t.left else t.right, masks);
    }
  }

  lemma DemotedShape(h: Hosted, t: Tree, masks: seq<Route>)
    requires SameShape(h, t)
    ensures SameShape(h, Demoted(t, masks))
  {
    if t.Leaf? {
      DemotedPlain(t.key, t.chain, masks);
    }
  }

  lemma {:induction false} MovedShape(h: Hosted, t: Tree, from: Pair, to: Pair)
    requires SameShape(h, t)
    ensures SameShape(Moved(h, from, to), t)
    decreases h
  {
    if t.Inner? {
      MovedShape(h.left, t.left, from, to);
      MovedShape(h.right, t.right, from, to);
    }
  }

  // ---------------------------------------------------------------------------
  // Over the life of a tree
  // ---------------------------------------------------------------------------

  /** `h` says where the nodes of the valid tree `t` live. */
  ghost predicate Lives(w: nat, h: Hosted, t: Tree)
  {
    ValidTop(w, t) && SameShape(h, t) && HostsOk(h)
  }

  lemma EmptyLives(w: nat)
    requires w > 0
    ensures Lives(w, HInner(0, 0, HLeaf(Zeros(w), true, []), HLeaf(Ones(w), true, [])), EmptyTree(w))
  {
    EmptyTreeIsValid(w);
  }

  /** rn_addroute with the pair `p`. */
  lemma AddLives(w: nat, h: Hosted, t: Tree, q: Route, p: Pair)
    requires Lives(w, h, t) && Normal(w, q) && q !in Routes(t) && p != 0 && p !in Pairs(h)
    ensures AddRoute(w, t, q).Some?
    ensures exists h' :: Lives(w, h', AddRoute(w, t, q).value) && Pairs(h') == Pairs(h) + {p}
  {
    hide HostsOk, ValidTop, SameShape;
    TopIsWide(w, h, t);
    AddRouteOk(w, t, q);
    SearchIsInside(t, q.key);
    var b := FirstDiff(q.key, Search(t, q.key).key, 0, w);
    var h' := HostNew(w, h, q, p, b);
    AddKeepsHosts(w, h, q, p, b);
    HostNewIsAdd(w, h, t, q, p, b, 0);
    assert Lives(w, h', AddRoute(w, t, q).value);
  }

  lemma TopIsWide(w: nat, h: Hosted, t: Tree)
    requires Lives(w, h, t)
    ensures Wide(w, t) && h.HInner? && h.bit == 0
  {
  }

  /** The pair of a stored route. */
  function PairOf(chain: seq<Held>, plen: nat): (p: Pair)
  {
    if chain == [] then 0 else if chain[0].plen == plen then chain[0].pair else PairOf(chain[1..], plen)
  }

  lemma {:induction false} PairIsHeld(c: seq<Held>, c': seq<Entry>, plen: nat)
    requires HeldChain(c) == PlainChain(c') && exists i :: 0 <= i < |c'| && c'[i].plen == plen
    ensures HeldBy(c, plen, PairOf(c, plen))
  {
    var i :| 0 <= i < |c'| && c'[i].plen == plen;
    assert PlainChain(c') != [] && HeldChain(c)[0] == PlainChain(c')[0] == c'[0].plen;
    if c[0].plen != plen {
      assert HeldChain(c)[1..] == HeldChain(c[1..]) && PlainChain(c')[1..] == PlainChain(c'[1..]);
      assert c'[1..][i - 1] == c'[i];
      PairIsHeld(c[1..], c'[1..], plen);
    }
  }

  lemma {:induction false} SearchSame(h: Hosted, t: Tree, v: Key)
    requires SameShape(h, t)
    ensures SameShape(HSearch(h, v), Search(t, v))
    decreases h
  {
    if t.Inner? {
      var right := GoesRight(v, t.bit);
      SearchSame(if right then h.right else h.left, if right then t.right else t.left, v);
    }
  }

  /** rn_delete returns the pair of the route, and the tree lives in the other pairs alone: the pair may be freed. */
  lemma DeleteLives(w: nat, h: Hosted, t: Tree, q: Route)
    requires Lives(w, h, t) && q in Routes(t)
    ensures DeleteRoute(t, q).Some?
    ensures var p := PairOf(HSearch(h, q.key).chain, q.plen);
            var r := HostDelete(h, q, p);
            && p in Pairs(h) && r.Kept? && Lives(w, r.tree, DeleteRoute(t, q).value)
            && Pairs(r.tree) == Pairs(h) - {p} && p !in Hosts(r.tree)
  {
    hide HostsOk, ValidTop;
    var leaf, c := HSearch(h, q.key), Search(t, q.key).chain;
    TopIsWide(w, h, t);
    DeleteRouteOk(w, t, q);
    StoredChain(w, t, q);
    SearchSame(h, t, q.key);
    PairIsHeld(leaf.chain, c, q.plen);
    var p := PairOf(leaf.chain, q.plen);
    HeldIsPaired(h, q, p);
    DeleteKeepsHosts(h, q, p);
    DropFromIsDel(h, t, q, 0);
    MovedShape(DropFrom(h, q).tree, DeleteRoute(t, q).value, p, DropFrom(h, q).heir);
  }

  lemma StoredChain(w: nat, t: Tree, q: Route)
    requires ValidTop(w, t) && q in Routes(t)
    ensures Search(t, q.key).key == q.key
    ensures exists i :: 0 <= i < |Search(t, q.key).chain| && Search(t, q.key).chain[i].plen == q.plen
  {
    StoredIsFound(w, t, q);
  }
}
