/**
 The radix (Patricia) routing tree of compat/net_radix/radix.c with contiguous masks.
 Keys are bit sequences of a fixed width, counted from the first significant bit; a mask is
 its prefix length. A leaf stands for a chain of duplicate keys; mask annotations of an
 internal node are the routes that they stand for.
 */
module Radix {
  import opened Common

  type Key = seq<bool>

  datatype Route = Route(key: Key, plen: nat)

  /** A node of a duplicate-key chain; `lifted` says that it carries a mask annotation (rn_mklist). */
  datatype Entry = Entry(plen: nat, lifted: bool)

  /** `sentinel` marks the two RNF_ROOT leaves, which precede their chain and have no mask. */
  datatype Tree =
    | Leaf(key: Key, sentinel: bool, chain: seq<Entry>)
    | Inner(bit: nat, masks: seq<Route>, left: Tree, right: Tree)

  // ---------------------------------------------------------------------------
  // What a tree stands for
  // ---------------------------------------------------------------------------

  ghost function ChainRoutes(k: Key, chain: seq<Entry>): (s: set<Route>)
  {
    set i | 0 <= i < |chain| :: Route(k, chain[i].plen)
  }

  ghost function Routes(t: Tree): (s: set<Route>)
  {
    match t
    case Leaf(k, _, chain) => ChainRoutes(k, chain)
    case Inner(_, _, l, r) => Routes(l) + Routes(r)
  }

  ghost function Keys(t: Tree): (s: set<Key>)
  {
    match t
    case Leaf(k, _, _) => {k}
    case Inner(_, _, l, r) => Keys(l) + Keys(r)
  }

  /** The keys of the sentinel leaves. */
  ghost function Sentinels(t: Tree): (s: set<Key>)
  {
    match t
    case Leaf(k, sentinel, _) => if sentinel then {k} else {}
    case Inner(_, _, l, r) => Sentinels(l) + Sentinels(r)
  }

  ghost predicate Wide(w: nat, t: Tree)
  {
    forall k :: k in Keys(t) ==> |k| == w
  }

  /** `a` and `b` have the same first `n` bits. */
  ghost predicate Agree(a: Key, b: Key, n: nat)
  {
    n <= |a| && n <= |b| && forall i :: 0 <= i < n ==> a[i] == b[i]
  }

  ghost predicate ZeroFrom(k: Key, n: nat)
  {
    forall i :: n <= i < |k| ==> !k[i]
  }

  /** The address `v` lies in the network of `r`. */
  ghost predicate Covers(r: Route, v: Key)
  {
    Agree(r.key, v, r.plen)
  }

  /** The longest stored prefix that covers `v`, None exactly when no stored prefix does. */
  ghost predicate IsLongestMatch(s: set<Route>, v: Key, r: Option<Route>)
  {
    match r
    case None => forall q :: q in s ==> !Covers(q, v)
    case Some(m) => m in s && Covers(m, v) && forall q :: q in s && Covers(q, v) ==> q.plen <= m.plen
  }

  // ---------------------------------------------------------------------------
  // Structural invariant
  // ---------------------------------------------------------------------------

  /** Key and mask of a route: the bits outside the mask are zero. */
  ghost predicate Normal(w: nat, r: Route)
  {
    |r.key| == w && r.plen <= w && ZeroFrom(r.key, r.plen)
  }

  /** Chains run from the most specific to the least specific mask. */
  ghost predicate ChainOk(w: nat, k: Key, chain: seq<Entry>)
  {
    && (forall i :: 0 <= i < |chain| ==> Normal(w, Route(k, chain[i].plen)))
    && (forall i, j :: 0 <= i < j < |chain| ==> chain[i].plen > chain[j].plen)
  }

  ghost predicate Sorted(masks: seq<Route>)
  {
    forall i, j :: 0 <= i < j < |masks| ==> masks[i].plen > masks[j].plen
  }

  function First(t: Tree): (k: Key)
  {
    match t
    case Leaf(k, _, _) => k
    case Inner(_, _, l, _) => First(l)
  }

  /** A sorted list of exactly the routes of `s` with an index in `lo..hi`. */
  ghost predicate MasksAre(masks: seq<Route>, s: set<Route>, lo: nat, hi: nat)
  {
    && Sorted(masks)
    && forall q :: q in masks <==> q in s && lo <= q.plen <= hi
  }

  /**
   The routes below `t` whose index lies in `lo..t.bit` are annotated at `t`, sorted: with
   `lo` one more than the parent's bit, `t` is the highest node whose bit reaches the index.
   */
  ghost predicate MasksOk(t: Tree, lo: nat)
    requires t.Inner?
  {
    MasksAre(t.masks, Routes(t), lo, t.bit)
  }

  /** All keys on one side of a node agree with `k` before its bit and have `b` there. */
  ghost predicate Side(w: nat, keys: set<Key>, k: Key, bit: nat, b: bool)
    requires bit < w
  {
    forall x :: x in keys ==> |x| == w && Agree(x, k, bit) && x[bit] == b
  }

  ghost predicate Valid(w: nat, t: Tree, lo: nat)
  {
    match t
    case Leaf(k, sentinel, chain) =>
      && |k| == w && ChainOk(w, k, chain)
      && (forall i :: 0 <= i < |chain| ==> (chain[i].lifted <==> chain[i].plen < lo))
      && (!sentinel ==> chain != [])
    case Inner(bit, masks, l, r) =>
      && lo <= bit < w
      && Valid(w, l, bit + 1) && Valid(w, r, bit + 1)
      && Side(w, Keys(l), First(l), bit, false)
      && Side(w, Keys(r), First(l), bit, true)
      && MasksOk(t, lo)
  }

  // ---------------------------------------------------------------------------
  // Searching
  // ---------------------------------------------------------------------------

  predicate GoesRight(v: Key, bit: nat)
  {
    bit < |v| && v[bit]
  }

  /** rn_search: the leaf that the bits of `v` lead to. */
  function Search(t: Tree, v: Key): (l: Tree)
    ensures l.Leaf?
  {
    match t
    case Leaf(_, _, _) => t
    case Inner(bit, _, l, r) => if GoesRight(v, bit) then Search(r, v) else Search(l, v)
  }

  /** rn_search_m with the all-zero mask of the default route: always left. */
  function Leftmost(t: Tree): (l: Tree)
    ensures l.Leaf?
  {
    match t
    case Leaf(_, _, _) => t
    case Inner(_, _, l, _) => Leftmost(l)
  }

  /** First position from `i` on, below `n`, at which the keys differ; `n` if there is none. */
  function FirstDiff(a: Key, b: Key, i: nat, n: nat): (d: nat)
    requires i <= n <= |a| && n <= |b|
    ensures i <= d <= n
    ensures forall k :: i <= k < d ==> a[k] == b[k]
    ensures d < n ==> a[d] != b[d]
    decreases n - i
  {
    if i == n || a[i] != b[i] then i else FirstDiff(a, b, i + 1, n)
  }

  /** Bits that rn_match compares for a leaf with this mask: the mask's bytes up to the last non-zero one. */
  function ComparedBits(plen: nat): (n: nat)
    ensures plen <= n < plen + 8 && n % 8 == 0
  {
    (plen + 7) / 8 * 8
  }

  /** First entry of a chain, from `i` on, whose mask fits into the `b` matching bits. */
  function ScanChain(chain: seq<Entry>, b: nat, i: nat): (r: Option<nat>)
    requires i <= |chain|
    ensures r.Some? ==> i <= r.value < |chain| && chain[r.value].plen <= b
    ensures r.Some? ==> forall k :: i <= k < r.value ==> chain[k].plen > b
    ensures r.None? ==> forall k :: i <= k < |chain| ==> chain[k].plen > b
    decreases |chain| - i
  {
    if i == |chain| then None
    else if chain[i].plen <= b then Some(i)
    else ScanChain(chain, b, i + 1)
  }

  /** First annotation, from `i` on, that covers an address with `b` matching bits. */
  function ScanMasks(t: Tree, b: nat, i: nat): (r: Option<Route>)
    requires t.Inner? && i <= |t.masks|
    decreases |t.masks| - i
  {
    if i == |t.masks| then None
    else
      var m := t.masks[i];
      if m.plen > 0 && m.plen <= b then Some(m)
      else if m.plen == 0 && HasDefault(Leftmost(t).chain, 0) then Some(Route(Leftmost(t).key, 0))
      else ScanMasks(t, b, i + 1)
  }

  predicate HasDefault(chain: seq<Entry>, i: nat)
    requires i <= |chain|
    decreases |chain| - i
  {
    i < |chain| && (chain[i].plen == 0 || HasDefault(chain, i + 1))
  }

  /** State of rn_match on its way up: an answer, or the first differing bit. */
  datatype Climb = Found(route: Option<Route>) | Continue(b: nat)

  /** How many bits of the address rn_match compares with the leaf that it reached. */
  function LeafLimit(w: nat, t: Tree): (n: nat)
    requires t.Leaf?
    ensures n <= w
  {
    var wanted := if t.sentinel || t.chain == [] then w else ComparedBits(t.chain[0].plen);
    if wanted <= w then wanted else w
  }

  function MatchLeaf(w: nat, t: Tree, v: Key): (r: Climb)
    requires t.Leaf? && |t.key| == w == |v|
  {
    var limit := LeafLimit(w, t);
    var b := FirstDiff(v, t.key, 0, limit);
    if b == limit then Found(if t.chain == [] then None else Some(Route(t.key, t.chain[0].plen)))
    else match ScanChain(t.chain, b, 0)
      case Some(i) => Found(Some(Route(t.key, t.chain[i].plen)))
      case None => Continue(b)
  }

  /** rn_match below `t`: down to the leaf, then back up over the annotations. */
  function MatchIn(w: nat, t: Tree, v: Key): (r: Climb)
    requires |v| == w && Wide(w, t)
  {
    match t
    case Leaf(_, _, _) => MatchLeaf(w, t, v)
    case Inner(bit, _, l, r) =>
      match MatchIn(w, if GoesRight(v, bit) then r else l, v)
      case Found(x) => Found(x)
      case Continue(b) =>
        match ScanMasks(t, b, 0)
        case Some(m) => Found(Some(m))
        case None => Continue(b)
  }

  function Match(w: nat, t: Tree, v: Key): (r: Option<Route>)
    requires |v| == w && Wide(w, t)
  {
    match MatchIn(w, t, v)
    case Found(r) => r
    case Continue(_) => None
  }

  // ---------------------------------------------------------------------------
  // Facts about valid trees
  // ---------------------------------------------------------------------------

  lemma {:induction false} RoutesAreNormal(w: nat, t: Tree, lo: nat)
    requires Valid(w, t, lo)
    ensures forall q :: q in Routes(t) ==> Normal(w, q) && q.key in Keys(t)
    ensures forall k :: k in Keys(t) ==> |k| == w
    ensures First(t) in Keys(t)
  {
    if t.Inner? {
      RoutesAreNormal(w, t.left, t.bit + 1);
      RoutesAreNormal(w, t.right, t.bit + 1);
    }
  }

  /** Search finds the leaf of every key in the tree. */
  lemma {:induction false} SearchFinds(w: nat, t: Tree, lo: nat, k: Key)
    requires Valid(w, t, lo) && k in Keys(t)
    ensures Search(t, k).key == k
  {
    if t.Inner? {
      if k in Keys(t.left) {
        SearchFinds(w, t.left, t.bit + 1, k);
      } else {
        SearchFinds(w, t.right, t.bit + 1, k);
      }
    }
  }

  /** What Search finds is part of the tree. */
  lemma {:induction false} SearchIsInside(t: Tree, v: Key)
    ensures Search(t, v).key in Keys(t) && Routes(Search(t, v)) <= Routes(t)
  {
    if t.Inner? {
      SearchIsInside(if GoesRight(v, t.bit) then t.right else t.left, v);
    }
  }

  /** The routes of a key are those of the leaf that Search finds for it. */
  lemma {:induction false} RoutesOfKey(w: nat, t: Tree, lo: nat, q: Route)
    requires Valid(w, t, lo)
    ensures q in Routes(t) <==> q in Routes(Search(t, q.key))
  {
    SearchIsInside(t, q.key);
    if t.Inner? {
      RoutesAreNormal(w, t.left, t.bit + 1);
      RoutesAreNormal(w, t.right, t.bit + 1);
      RoutesOfKey(w, if GoesRight(q.key, t.bit) then t.right else t.left, t.bit + 1, q);
    }
  }

  /** Every key below an internal node agrees with every other before its bit. */
  lemma KeysAgree(w: nat, t: Tree, lo: nat, a: Key, b: Key)
    requires Valid(w, t, lo) && t.Inner? && a in Keys(t) && b in Keys(t)
    ensures Agree(a, b, t.bit)
  {
    assert Agree(a, First(t.left), t.bit) && Agree(b, First(t.left), t.bit);
  }

  /** Two normal routes that agree on their masked bits, with nothing beyond, have the same key. */
  lemma SameKey(w: nat, q: Route, k: Key, n: nat)
    requires Normal(w, q) && |k| == w && n <= q.plen && ZeroFrom(k, n) && Agree(q.key, k, q.plen)
    ensures q.key == k
  {
  }

  lemma DefaultIsFound(chain: seq<Entry>, i: nat)
    requires i <= |chain|
    ensures HasDefault(chain, i) <==> exists k :: i <= k < |chain| && chain[k].plen == 0
    decreases |chain| - i
  {
    if i < |chain| {
      DefaultIsFound(chain, i + 1);
    }
  }

  /** Going left always is searching for the all-zero key. */
  lemma {:induction false} LeftmostIsZero(t: Tree, k: Key)
    requires ZeroFrom(k, 0)
    ensures Leftmost(t) == Search(t, k)
  {
    if t.Inner? {
      LeftmostIsZero(t.left, k);
    }
  }

  // ---------------------------------------------------------------------------
  // rn_match returns the longest match
  // ---------------------------------------------------------------------------

  /** `b` is the first bit at which two keys of width `w` differ. */
  ghost predicate DifferAt(w: nat, a: Key, v: Key, b: nat)
  {
    |a| == |v| == w && b < w && Agree(a, v, b) && a[b] != v[b]
  }

  /** What the climb knows when it leaves the subtree `t` of a node at `lo - 1`. */
  ghost predicate ClimbOk(w: nat, t: Tree, lo: nat, v: Key, c: Climb)
    requires |v| == w
  {
    var lk := Search(t, v).key;
    match c
    case Found(Some(r)) =>
      && r in Routes(t) && Covers(r, v)
      && (forall q :: q in Routes(t) && Covers(q, v) ==> q.plen <= r.plen)
      && (r.plen >= lo || r.key == lk)
    case Found(None) => v == lk && Search(t, v).chain == []
    case Continue(b) =>
      && DifferAt(w, lk, v, b)
      && forall q :: q in Routes(t) && Covers(q, v) ==> q.plen < lo
  }

  lemma ChainCovers(w: nat, t: Tree, lo: nat, v: Key, b: nat, q: Route)
    requires Valid(w, t, lo) && t.Leaf? && DifferAt(w, t.key, v, b) && q in Routes(t)
    ensures Covers(q, v) <==> q.plen <= b
  {
    assert q.key == t.key;
  }

  /** The leaf matches in all the bits that its first mask makes relevant. */
  lemma LeafMatchesWhole(w: nat, t: Tree, lo: nat, v: Key, n: nat)
    requires Valid(w, t, lo) && t.Leaf? && |v| == w && Agree(t.key, v, n)
    requires if t.chain == [] then n == w else t.chain[0].plen <= n
    ensures ClimbOk(w, t, lo, v, Found(if t.chain == [] then None else Some(Route(t.key, t.chain[0].plen))))
  {
    if t.chain != [] {
      forall q | q in Routes(t) ensures q.plen <= t.chain[0].plen {
        var i :| 0 <= i < |t.chain| && q == Route(t.key, t.chain[i].plen);
      }
      assert Route(t.key, t.chain[0].plen) in Routes(t);
    }
  }

  /** The leaf differs from the address, but one of its masks fits into the matching bits. */
  lemma LeafMatchesPart(w: nat, t: Tree, lo: nat, v: Key, b: nat, i: nat)
    requires Valid(w, t, lo) && t.Leaf? && DifferAt(w, t.key, v, b)
    requires ScanChain(t.chain, b, 0) == Some(i)
    ensures ClimbOk(w, t, lo, v, Found(Some(Route(t.key, t.chain[i].plen))))
  {
    var r := Route(t.key, t.chain[i].plen);
    assert r in Routes(t);
    ChainCovers(w, t, lo, v, b, r);
    forall q | q in Routes(t) && Covers(q, v) ensures q.plen <= r.plen {
      ChainCovers(w, t, lo, v, b, q);
      var k :| 0 <= k < |t.chain| && q == Route(t.key, t.chain[k].plen);
    }
  }

  lemma LeafMatchesNot(w: nat, t: Tree, lo: nat, v: Key, b: nat)
    requires Valid(w, t, lo) && t.Leaf? && DifferAt(w, t.key, v, b)
    requires ScanChain(t.chain, b, 0) == None
    ensures ClimbOk(w, t, lo, v, Continue(b))
  {
    forall q | q in Routes(t) ensures !Covers(q, v) {
      ChainCovers(w, t, lo, v, b, q);
    }
  }

  lemma LeafClimb(w: nat, t: Tree, lo: nat, v: Key)
    requires Valid(w, t, lo) && t.Leaf? && |v| == w
    ensures ClimbOk(w, t, lo, v, MatchLeaf(w, t, v))
  {
    var limit := LeafLimit(w, t);
    var b := FirstDiff(v, t.key, 0, limit);
    if b == limit {
      LeafMatchesWhole(w, t, lo, v, limit);
    } else {
      assert DifferAt(w, t.key, v, b);
      match ScanChain(t.chain, b, 0)
      case Some(i) => LeafMatchesPart(w, t, lo, v, b, i);
      case None => LeafMatchesNot(w, t, lo, v, b);
    }
  }

  /** The scan of an annotation list stops at the first one whose mask fits. */
  lemma {:induction false} ScanFindsFirst(w: nat, t: Tree, lo: nat, b: nat, i: nat)
    requires Valid(w, t, lo) && t.Inner? && i <= |t.masks|
    ensures match ScanMasks(t, b, i)
            case Some(m) => exists j :: i <= j < |t.masks| && t.masks[j] == m && m.plen <= b
                                        && forall k :: i <= k < j ==> t.masks[k].plen > b
            case None => forall k :: i <= k < |t.masks| ==> t.masks[k].plen > b
    decreases |t.masks| - i
  {
    if i < |t.masks| {
      var m := t.masks[i];
      if m.plen == 0 {
        DefaultAtLeftmost(w, t, lo, m);
      } else if m.plen > b {
        ScanFindsFirst(w, t, lo, b, i + 1);
      }
    }
  }

  /** The annotation of a default route leads to the default route. */
  lemma DefaultAtLeftmost(w: nat, t: Tree, lo: nat, m: Route)
    requires Valid(w, t, lo) && t.Inner? && m in Routes(t) && m.plen == 0
    ensures HasDefault(Leftmost(t).chain, 0) && Route(Leftmost(t).key, 0) == m
  {
    RoutesAreNormal(w, t, lo);
    LeftmostIsZero(t, m.key);
    SearchFinds(w, t, lo, m.key);
    RoutesOfKey(w, t, lo, m);
    DefaultIsFound(Leftmost(t).chain, 0);
  }

  /** A route below `t` that covers `v` but lies on the other side of `t` has an index of at most `t.bit`. */
  lemma OtherSide(w: nat, t: Tree, lo: nat, v: Key, q: Route)
    requires Valid(w, t, lo) && t.Inner? && |v| == w
    requires q in Routes(if GoesRight(v, t.bit) then t.left else t.right) && Covers(q, v)
    ensures q.plen <= t.bit
  {
    RoutesAreNormal(w, if GoesRight(v, t.bit) then t.left else t.right, t.bit + 1);
    assert q.key[t.bit] != v[t.bit];
  }

  /** An annotation at `t` covers `v` exactly when its mask fits into the matching bits. */
  lemma AnnotationCovers(w: nat, t: Tree, lo: nat, v: Key, b: nat, m: Route)
    requires Valid(w, t, lo) && t.Inner? && |v| == w && m in Routes(t) && m.plen <= t.bit
    requires DifferAt(w, Search(t, v).key, v, b)
    ensures Covers(m, v) <==> m.plen <= b
  {
    var lk := Search(t, v).key;
    RoutesAreNormal(w, t, lo);
    SearchIsInside(t, v);
    KeysAgree(w, t, lo, m.key, lk);
    if m.plen > b {
      assert m.key[b] == lk[b];
    }
  }

  /** The climb over `t` after an answer from below. */
  lemma FoundBelow(w: nat, t: Tree, lo: nat, v: Key, r: Route)
    requires Valid(w, t, lo) && t.Inner? && |v| == w
    requires ClimbOk(w, if GoesRight(v, t.bit) then t.right else t.left, t.bit + 1, v, Found(Some(r)))
    ensures ClimbOk(w, t, lo, v, Found(Some(r)))
  {
    var near := if GoesRight(v, t.bit) then t.right else t.left;
    var far := if GoesRight(v, t.bit) then t.left else t.right;
    RoutesAreNormal(w, t, lo);
    RoutesAreNormal(w, near, t.bit + 1);
    RoutesAreNormal(w, far, t.bit + 1);
    forall q | q in Routes(t) && Covers(q, v) ensures q.plen <= r.plen {
      if q !in Routes(near) {
        OtherSide(w, t, lo, v, q);
        if q.plen > r.plen {
          KeysAgree(w, t, lo, q.key, r.key);
          SameKey(w, q, r.key, r.plen);
        }
      }
    }
  }

  /** The climb over `t` when nothing was found below. */
  lemma FoundHere(w: nat, t: Tree, lo: nat, v: Key, b: nat)
    requires Valid(w, t, lo) && t.Inner? && |v| == w
    requires ClimbOk(w, if GoesRight(v, t.bit) then t.right else t.left, t.bit + 1, v, Continue(b))
    ensures match ScanMasks(t, b, 0)
            case Some(m) => ClimbOk(w, t, lo, v, Found(Some(m)))
            case None => ClimbOk(w, t, lo, v, Continue(b))
  {
    ScanFindsFirst(w, t, lo, b, 0);
    forall q | q in Routes(t) && Covers(q, v) ensures q.plen <= t.bit && q.plen <= b {
      FitsHere(w, t, lo, v, b, q);
    }
    match ScanMasks(t, b, 0)
    case Some(m) =>
      AnnotationCovers(w, t, lo, v, b, m);
      FirstIsLongest(t, lo, b, m);
    case None =>
  }

  /** Whatever covers `v` below `t` has its index at `t` or above, and fits into the matching bits. */
  lemma FitsHere(w: nat, t: Tree, lo: nat, v: Key, b: nat, q: Route)
    requires Valid(w, t, lo) && t.Inner? && |v| == w
    requires ClimbOk(w, if GoesRight(v, t.bit) then t.right else t.left, t.bit + 1, v, Continue(b))
    requires q in Routes(t) && Covers(q, v)
    ensures q.plen <= t.bit && q.plen <= b
  {
    if q !in Routes(if GoesRight(v, t.bit) then t.right else t.left) {
      OtherSide(w, t, lo, v, q);
    }
    AnnotationCovers(w, t, lo, v, b, q);
  }

  lemma FirstIsLongest(t: Tree, lo: nat, b: nat, m: Route)
    requires t.Inner? && MasksOk(t, lo)
    requires exists j :: 0 <= j < |t.masks| && t.masks[j] == m && forall k :: 0 <= k < j ==> t.masks[k].plen > b
    ensures m in Routes(t) && lo <= m.plen
    ensures forall q :: q in Routes(t) && q.plen <= t.bit && q.plen <= b ==> q.plen <= m.plen
  {
    var j :| 0 <= j < |t.masks| && t.masks[j] == m && forall k :: 0 <= k < j ==> t.masks[k].plen > b;
    forall q | q in Routes(t) && q.plen <= t.bit && q.plen <= b ensures q.plen <= m.plen {
      if q.plen >= lo {
        var k :| 0 <= k < |t.masks| && t.masks[k] == q;
      }
    }
  }

  lemma {:induction false} MatchInIsOk(w: nat, t: Tree, lo: nat, v: Key)
    requires Valid(w, t, lo) && |v| == w && Wide(w, t)
    ensures ClimbOk(w, t, lo, v, MatchIn(w, t, v))
  {
    if t.Leaf? {
      LeafClimb(w, t, lo, v);
    } else {
      var near := if GoesRight(v, t.bit) then t.right else t.left;
      MatchInIsOk(w, near, t.bit + 1, v);
      match MatchIn(w, near, v)
      case Found(Some(r)) => FoundBelow(w, t, lo, v, r);
      case Found(None) =>
      case Continue(b) => FoundHere(w, t, lo, v, b);
    }
  }

  ghost predicate AllOnes(v: Key)
  {
    forall i :: 0 <= i < |v| ==> v[i]
  }

  function Zeros(w: nat): (k: Key)
    ensures |k| == w && ZeroFrom(k, 0)
  {
    seq(w, _ => false)
  }

  function Ones(w: nat): (k: Key)
    ensures |k| == w && AllOnes(k)
  {
    seq(w, _ => true)
  }

  /** The whole tree: an internal node at bit 0 with the two sentinel leaves below it. */
  ghost predicate ValidTop(w: nat, t: Tree)
  {
    w > 0 && t.Inner? && t.bit == 0 && Wide(w, t) && Valid(w, t, 0) && Sentinels(t) == {Zeros(w), Ones(w)}
  }

  /** Sentinel leaves are found under their keys, and what is found as a sentinel is one. */
  lemma {:induction false} SearchedSentinel(w: nat, t: Tree, lo: nat, v: Key)
    requires Valid(w, t, lo)
    ensures Search(t, v).sentinel ==> Search(t, v).key in Sentinels(t)
    ensures v in Sentinels(t) ==> v in Keys(t) && Search(t, v).key == v && Search(t, v).sentinel
    ensures Sentinels(t) <= Keys(t)
  {
    if t.Inner? {
      SearchedSentinel(w, t.left, t.bit + 1, v);
      SearchedSentinel(w, t.right, t.bit + 1, v);
    }
  }

  lemma {:induction false} EmptyChainIsSentinel(w: nat, t: Tree, lo: nat, v: Key)
    requires Valid(w, t, lo)
    ensures Search(t, v).chain == [] ==> Search(t, v).sentinel
  {
    if t.Inner? {
      EmptyChainIsSentinel(w, if GoesRight(v, t.bit) then t.right else t.left, t.bit + 1, v);
    }
  }

  /** rn_match: the longest stored prefix that covers the address, for every address but all ones. */
  lemma MatchIsLongest(w: nat, t: Tree, v: Key)
    requires ValidTop(w, t) && |v| == w
    requires !AllOnes(v)
    ensures IsLongestMatch(Routes(t), v, Match(w, t, v))
  {
    MatchInIsOk(w, t, 0, v);
    if MatchIn(w, t, v) == Found(None) {
      EmptyChainIsSentinel(w, t, 0, v);
      SearchedSentinel(w, t, 0, v);
      RoutesAreNormal(w, t, 0);
      forall q | q in Routes(t) ensures !Covers(q, v) {
        if Covers(q, v) {
          SameKey(w, q, v, 0);
        }
        RoutesOfKey(w, t, 0, q);
      }
    }
  }

  /** The all-ones address always stops at its sentinel leaf: only a route to exactly it is found. */
  lemma MatchOfAllOnes(w: nat, t: Tree, v: Key)
    requires ValidTop(w, t) && |v| == w && AllOnes(v)
    ensures Match(w, t, v) == if Route(v, w) in Routes(t) then Some(Route(v, w)) else None
  {
    assert v == Ones(w);
    SearchedSentinel(w, t, 0, v);
    RoutesOfKey(w, t, 0, Route(v, w));
    OnesLeaf(w, t, 0, v);
  }

  lemma OnesNeedFullMask(v: Key, p: nat)
    requires AllOnes(v) && p < |v|
    ensures !ZeroFrom(v, p)
  {
    assert v[p];
  }

  /** In a subtree whose search for all ones ends at a sentinel leaf, the climb has its answer there. */
  lemma {:induction false} OnesLeaf(w: nat, t: Tree, lo: nat, v: Key)
    requires Valid(w, t, lo) && |v| == w && w > 0 && Wide(w, t) && AllOnes(v)
    requires Search(t, v).key == v && Search(t, v).sentinel
    ensures var l := Search(t, v);
            && MatchIn(w, t, v) == Found(if l.chain == [] then None else Some(Route(v, w)))
            && (Route(v, w) in Routes(l) <==> l.chain != [])
  {
    if t.Inner? {
      OnesLeaf(w, if GoesRight(v, t.bit) then t.right else t.left, t.bit + 1, v);
    } else if t.chain != [] {
      assert Normal(w, Route(v, t.chain[0].plen));
      if t.chain[0].plen < w {
        OnesNeedFullMask(v, t.chain[0].plen);
      }
      assert Route(v, t.chain[0].plen) in Routes(t);
    }
  }

  /** For the all-ones address the answer is right exactly when it has a route of its own, or none covers it. */
  lemma AllOnesExactly(w: nat, t: Tree, v: Key)
    requires ValidTop(w, t) && |v| == w && AllOnes(v)
    ensures IsLongestMatch(Routes(t), v, Match(w, t, v))
       <==> Route(v, w) in Routes(t) || forall q :: q in Routes(t) ==> !Covers(q, v)
  {
    MatchOfAllOnes(w, t, v);
    RoutesAreNormal(w, t, 0);
  }

  // ---------------------------------------------------------------------------
  // rn_lookup
  // ---------------------------------------------------------------------------

  /** First position from `i` on of the mask `plen` in a chain. */
  function FindMask(chain: seq<Entry>, plen: nat, i: nat): (r: Option<nat>)
    requires i <= |chain|
    ensures r.Some? ==> i <= r.value < |chain| && chain[r.value].plen == plen
    ensures r.None? ==> forall k :: i <= k < |chain| ==> chain[k].plen != plen
    decreases |chain| - i
  {
    if i == |chain| then None
    else if chain[i].plen == plen then Some(i)
    else FindMask(chain, plen, i + 1)
  }

  /** rn_lookup: the longest match for the key itself, then along its chain to the wanted mask. */
  function Lookup(w: nat, t: Tree, r: Route): (x: Option<Route>)
    requires |r.key| == w && Wide(w, t)
  {
    match Match(w, t, r.key)
    case None => None
    case Some(m) =>
      var chain := Search(t, m.key).chain;
      match FindMask(chain, m.plen, 0)
      case None => None
      case Some(i) => if FindMask(chain, r.plen, i).Some? then Some(Route(m.key, r.plen)) else None
  }

  lemma ChainHas(w: nat, t: Tree, lo: nat, q: Route) returns (i: nat)
    requires Valid(w, t, lo) && q in Routes(t)
    ensures var l := Search(t, q.key);
            && l.key == q.key && i < |l.chain| && l.chain[i].plen == q.plen
            && FindMask(l.chain, q.plen, 0) == Some(i) && ChainOk(w, l.key, l.chain)
  {
    RoutesAreNormal(w, t, lo);
    SearchFinds(w, t, lo, q.key);
    RoutesOfKey(w, t, lo, q);
    SearchedLeaf(w, t, lo, q.key);
    var l := Search(t, q.key);
    i :| 0 <= i < |l.chain| && q == Route(l.key, l.chain[i].plen);
  }

  lemma {:induction false} SearchedLeaf(w: nat, t: Tree, lo: nat, v: Key)
    requires Valid(w, t, lo)
    ensures var l := Search(t, v); |l.key| == w && ChainOk(w, l.key, l.chain)
  {
    if t.Inner? {
      SearchedLeaf(w, if GoesRight(v, t.bit) then t.right else t.left, t.bit + 1, v);
    }
  }

  /** rn_lookup finds exactly the stored route with this key and this mask. */
  lemma LookupIsExact(w: nat, t: Tree, r: Route)
    requires ValidTop(w, t) && Normal(w, r) && !AllOnes(r.key)
    ensures Lookup(w, t, r) == if r in Routes(t) then Some(r) else None
  {
    MatchIsLongest(w, t, r.key);
    RoutesAreNormal(w, t, 0);
    assert Covers(r, r.key);
    match Match(w, t, r.key)
    case None =>
    case Some(m) =>
      var i := ChainHas(w, t, 0, m);
      var l := Search(t, m.key);
      if m.plen >= r.plen {
        SameKey(w, m, r.key, r.plen);
        RoutesOfKey(w, t, 0, r);
        if r in Routes(t) {
          var k := ChainHas(w, t, 0, r);
        }
      }
  }
}
