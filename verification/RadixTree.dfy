/**
 The operations on a radix tree head as the callers see them: the descents and climbs of
 rn_match, rn_addroute and rn_delete as loops over the path from the top, the dictionary of
 masks (rn_addmask), and the walk of rn_walktree whose callback deletes what it is given.
 */
module RadixTree {
  import opened Common
  import opened Radix
  import opened RadixUpdate
  import opened RadixHistory

  // ---------------------------------------------------------------------------
  // Paths: the internal nodes between the top and a cursor
  // ---------------------------------------------------------------------------

  function Near(t: Tree, v: Key): (x: Tree)
    requires t.Inner?
  {
    if GoesRight(v, t.bit) then t.right else t.left
  }

  /** The least index that may be annotated below the path. */
  function LowBound(path: seq<Tree>): (lo: nat)
    requires AllInner(path)
  {
    if path == [] then 0 else path[|path| - 1].bit + 1
  }

  predicate AllInner(path: seq<Tree>)
  {
    forall i :: 0 <= i < |path| ==> path[i].Inner?
  }

  /** The climb of rn_match over all nodes of a path. */
  function Climbed(path: seq<Tree>, c: Climb): (r: Climb)
    requires AllInner(path)
  {
    if path == [] || c.Found? then c
    else
      match ScanMasks(path[|path| - 1], c.b, 0)
      case Some(m) => Found(Some(m))
      case None => Climbed(path[..|path| - 1], c)
  }

  function GrownNode(t: Tree, q: Route, lo: nat, near: Tree): (r: Tree)
    requires t.Inner?
  {
    var masks := if lo <= q.plen <= t.bit then InsertMask(t.masks, q) else t.masks;
    if GoesRight(q.key, t.bit) then Inner(t.bit, masks, t.left, near) else Inner(t.bit, masks, near, t.right)
  }

  /** The tree around a changed subtree that has gained the route `q`. */
  function Regrown(path: seq<Tree>, q: Route, near: Tree): (r: Tree)
    requires AllInner(path)
  {
    if path == [] then near
    else
      var rest := path[..|path| - 1];
      Regrown(rest, q, GrownNode(path[|path| - 1], q, LowBound(rest), near))
  }

  /** The tree around a subtree that has lost the route `q`. */
  function Shrunk(path: seq<Tree>, q: Route, near: Remainder): (r: Remainder)
    requires AllInner(path)
  {
    if path == [] then near
    else
      var rest := path[..|path| - 1];
      Shrunk(rest, q, Rejoined(path[|path| - 1], q, LowBound(rest), near))
  }

  lemma PathStep(path: seq<Tree>, t: Tree)
    requires AllInner(path) && t.Inner?
    ensures AllInner(path + [t]) && LowBound(path + [t]) == t.bit + 1
    ensures (path + [t])[..|path|] == path
  {
  }

  // ---------------------------------------------------------------------------
  // The order of the leaves
  // ---------------------------------------------------------------------------

  ghost predicate LessAt(a: Key, b: Key, d: nat)
  {
    d < |a| && d < |b| && Agree(a, b, d) && !a[d] && b[d]
  }

  /** Lexicographic order of keys. */
  ghost predicate Less(a: Key, b: Key)
  {
    exists d :: LessAt(a, b, d)
  }

  lemma LessIsTotal(a: Key, b: Key)
    requires |a| == |b|
    ensures a == b || Less(a, b) || Less(b, a)
  {
    var d := FirstDiff(a, b, 0, |a|);
    if d < |a| {
      assert LessAt(a, b, d) || LessAt(b, a, d);
    }
  }

  lemma LessIsStrict(a: Key, b: Key)
    ensures !(Less(a, b) && Less(b, a)) && !Less(a, a)
  {
  }

  lemma LessIsTransitive(a: Key, b: Key, c: Key)
    requires Less(a, b) && Less(b, c)
    ensures Less(a, c)
  {
    var d: nat, e: nat :| LessAt(a, b, d) && LessAt(b, c, e);
    assert LessAt(a, c, if d < e then d else e);
  }

  /** The next leaf after the one of `k`: up while coming from the right, then right once and left to the end. */
  function NextAfter(t: Tree, k: Key): (r: Option<Tree>)
    ensures r.Some? ==> r.value.Leaf?
  {
    match t
    case Leaf(_, _, _) => None
    case Inner(bit, _, l, r) =>
      if GoesRight(k, bit) then NextAfter(r, k)
      else match NextAfter(l, k)
        case Some(x) => Some(x)
        case None => Some(Leftmost(r))
  }

  /** The climb for the next leaf, from a leaf below the path. */
  function NextAbove(path: seq<Tree>, k: Key): (r: Option<Tree>)
    requires AllInner(path)
  {
    if path == [] then None
    else
      var up := path[|path| - 1];
      if GoesRight(k, up.bit) then NextAbove(path[..|path| - 1], k) else Some(Leftmost(up.right))
  }

  ghost predicate IsLeast(keys: set<Key>, k: Key)
  {
    k in keys && forall x :: x in keys ==> x == k || Less(k, x)
  }

  /** `next` is the least key above `k`. */
  ghost predicate IsNext(keys: set<Key>, k: Key, next: Key)
  {
    next in keys && Less(k, next) && forall x :: x in keys && Less(k, x) ==> x == next || Less(next, x)
  }

  ghost predicate IsLast(keys: set<Key>, k: Key)
  {
    forall x :: x in keys ==> !Less(k, x)
  }

  lemma SidesInOrder(w: nat, t: Tree, lo: nat, a: Key, b: Key)
    requires Valid(w, t, lo) && t.Inner? && a in Keys(t.left) && b in Keys(t.right)
    ensures Less(a, b) && !Less(b, a)
  {
    assert LessAt(a, b, t.bit);
    LessIsStrict(a, b);
  }

  lemma {:induction false} LeftmostIsLeast(w: nat, t: Tree, lo: nat)
    requires Valid(w, t, lo)
    ensures IsLeast(Keys(t), Leftmost(t).key)
  {
    if t.Inner? {
      LeftmostIsLeast(w, t.left, t.bit + 1);
      forall x | x in Keys(t.right) ensures Less(Leftmost(t).key, x) {
        SidesInOrder(w, t, lo, Leftmost(t).key, x);
      }
    }
  }

  /** NextAfter is the successor in the lexicographic order. */
  lemma {:induction false} NextIsNext(w: nat, t: Tree, lo: nat, k: Key)
    requires Valid(w, t, lo) && k in Keys(t)
    ensures match NextAfter(t, k)
            case Some(x) => IsNext(Keys(t), k, x.key)
            case None => IsLast(Keys(t), k)
    decreases t, 1
  {
    if t.Leaf? {
      LessIsStrict(k, k);
    } else {
      OpenNode(w, t, lo);
      hide Valid;
      if k in Keys(t.right) {
        NextIsNext(w, t.right, t.bit + 1, k);
        forall x | x in Keys(t.left) ensures !Less(k, x) {
          SidesInOrder(w, t, lo, x, k);
        }
      } else {
        NextOnLeft(w, t, lo, k);
      }
    }
  }

  lemma {:induction false} NextOnLeft(w: nat, t: Tree, lo: nat, k: Key)
    requires Valid(w, t, lo) && t.Inner? && k in Keys(t.left)
    ensures NextAfter(t, k).Some? && IsNext(Keys(t), k, NextAfter(t, k).value.key)
    decreases t, 0
  {
    OpenNode(w, t, lo);
    hide Valid;
    NextIsNext(w, t.left, t.bit + 1, k);
    match NextAfter(t.left, k)
    case Some(y) =>
      forall x | x in Keys(t.right) ensures Less(y.key, x) {
        SidesInOrder(w, t, lo, y.key, x);
      }
    case None =>
      LeftmostIsLeast(w, t.right, t.bit + 1);
      SidesInOrder(w, t, lo, k, Leftmost(t.right).key);
  }

  /** The order in which a walk meets routes. */
  ghost predicate Before(a: Route, b: Route)
  {
    Less(a.key, b.key) || (a.key == b.key && a.plen > b.plen)
  }

  ghost predicate InOrder(s: seq<Route>)
  {
    forall i, j :: 0 <= i < j < |s| ==> Before(s[i], s[j])
  }

  /** What is met in order is met once. */
  lemma InOrderIsOnce(s: seq<Route>, i: nat, j: nat)
    requires InOrder(s) && i < j < |s|
    ensures s[i] != s[j]
  {
    LessIsStrict(s[i].key, s[j].key);
  }

  lemma InOrderConcat(s: seq<Route>, b: seq<Route>)
    requires InOrder(s) && InOrder(b) && forall x, y :: x in s && y in b ==> Before(x, y)
    ensures InOrder(s + b)
  {
    var r := s + b;
    forall i, j | 0 <= i < j < |r| ensures Before(r[i], r[j]) {
      if i < |s| <= j {
        assert r[i] in s && r[j] in b;
      } else if i < |s| {
        assert r[i] == s[i] && r[j] == s[j];
      } else {
        assert r[i] == b[i - |s|] && r[j] == b[j - |s|];
      }
    }
  }

  // ---------------------------------------------------------------------------
  // A walk that deletes what it meets
  // ---------------------------------------------------------------------------

  ghost function Members(s: seq<Route>): (r: set<Route>)
  {
    set x | x in s
  }

  ghost function RoutesAt(s: set<Route>, k: Key): (r: set<Route>)
  {
    set q | q in s && q.key == k
  }

  /** The walk stands before the leaf of `k`: what is visited is deleted and lies before it, the rest does not. */
  ghost predicate Walked(all: set<Route>, left: set<Route>, visited: seq<Route>, k: Key)
  {
    && all == Members(visited) + left && InOrder(visited)
    && (forall q :: q in visited ==> Less(q.key, k))
    && (forall q :: q in left ==> q.key == k || Less(k, q.key))
  }

  /** The routes of one leaf, most specific first. */
  ghost predicate IsBatch(batch: seq<Route>, s: set<Route>, k: Key)
  {
    InOrder(batch) && Members(batch) == RoutesAt(s, k)
  }

  lemma WalkStep(all: set<Route>, left: set<Route>, keys: set<Key>, visited: seq<Route>, k: Key, next: Key, batch: seq<Route>)
    requires Walked(all, left, visited, k) && IsBatch(batch, left, k) && IsNext(keys, k, next)
    requires forall q :: q in left ==> q.key in keys
    ensures Walked(all, left - RoutesAt(left, k), visited + batch, next)
  {
    assert forall q :: q in batch ==> q in Members(batch);
    assert forall q :: q in batch ==> q.key == k;
    InOrderConcat(visited, batch);
    forall q | q in visited + batch ensures Less(q.key, next) {
      if q in visited {
        LessIsTransitive(q.key, k, next);
      }
    }
    assert all == Members(visited + batch) + (left - RoutesAt(left, k));
  }

  ghost function Above(keys: set<Key>, k: Key): (r: set<Key>)
  {
    set x | x in keys && Less(k, x)
  }

  lemma FewerAbove(keys: set<Key>, fewer: set<Key>, k: Key, next: Key)
    requires IsNext(keys, k, next) && fewer <= keys
    ensures |Above(fewer, next)| < |Above(keys, k)|
  {
    LessIsStrict(next, next);
    forall x | x in Above(fewer, next) ensures x in Above(keys, k) - {next} {
      LessIsTransitive(k, next, x);
    }
    SmallerSet(Above(fewer, next), Above(keys, k) - {next});
  }

  lemma {:induction false} SmallerSet(a: set<Key>, b: set<Key>)
    requires a <= b
    ensures |a| <= |b|
  {
    if x :| x in a {
      SmallerSet(a - {x}, b - {x});
    }
  }

  function ChainList(k: Key, chain: seq<Entry>): (r: seq<Route>)
  {
    seq(|chain|, i requires 0 <= i < |chain| => Route(k, chain[i].plen))
  }

  lemma MembersStep(s: seq<Route>, i: nat)
    requires i < |s|
    ensures Members(s[..i + 1]) == Members(s[..i]) + {s[i]}
  {
    assert s[..i + 1] == s[..i] + [s[i]];
  }

  /** The chain of a leaf lists its routes. */
  lemma BatchOfLeaf(w: nat, t: Tree, k: Key, batch: seq<Route>)
    requires ValidTop(w, t) && Search(t, k).key == k
    requires var chain := Search(t, k).chain;
             |batch| == |chain| && forall i :: 0 <= i < |chain| ==> batch[i] == Route(k, chain[i].plen)
    ensures IsBatch(batch, Routes(t), k)
  {
    SearchedLeaf(w, t, 0, k);
    var chain := Search(t, k).chain;
    forall q ensures q in batch <==> q in Routes(t) && q.key == k {
      RoutesOfKey(w, t, 0, Route(k, q.plen));
      ChainRoutesIn(k, chain, Route(k, q.plen));
      if q in Routes(t) && q.key == k {
        var i :| 0 <= i < |chain| && chain[i].plen == q.plen;
        assert batch[i] == q;
      }
    }
  }

  /** A key with a leaf of its own keeps it while other routes are deleted. */
  lemma KeyStays(w: nat, t: Tree, u: Tree, k: Key, x: Key)
    requires ValidTop(w, t) && ValidTop(w, u) && Routes(u) == Routes(t) - RoutesAt(Routes(t), k)
    ensures Keys(u) <= Keys(t) && (x in Keys(t) && x != k ==> x in Keys(u))
  {
    KeysAreUsed(w, t, 0);
    KeysAreUsed(w, u, 0);
    if x in Keys(t) && x != k && x !in Sentinels(t) {
      var q :| q in Routes(t) && q.key == x;
      assert q in Routes(u);
    }
  }

  lemma WalkStart(w: nat, t: Tree)
    requires ValidTop(w, t)
    ensures var k := Leftmost(t).key; k in Keys(t) && k != Ones(w) && Walked(Routes(t), Routes(t), [], k)
  {
    var k := Leftmost(t).key;
    LeftmostIsLeast(w, t, 0);
    RoutesAreNormal(w, t, 0);
    assert Zeros(w) in Sentinels(t);
    SearchedSentinel(w, t, 0, Zeros(w));
    assert !Less(k, Zeros(w));
    assert !Zeros(w)[0];
    assert Members([]) == {};
  }

  /** Only the all-ones leaf ends the walk, and it is the last leaf. */
  lemma OnesAreLast(w: nat, t: Tree, k: Key)
    requires ValidTop(w, t) && k in Keys(t)
    ensures Search(t, k).sentinel <==> k == Zeros(w) || k == Ones(w)
    ensures k != Ones(w) ==> Less(k, Ones(w)) && Ones(w) in Keys(t)
    ensures k != Zeros(w) ==> Less(Zeros(w), k)
  {
    SearchFinds(w, t, 0, k);
    SearchedSentinel(w, t, 0, k);
    SearchedSentinel(w, t, 0, Ones(w));
    assert Ones(w) in Sentinels(t) && Zeros(w) in Sentinels(t);
    LessIsTotal(k, Ones(w));
    LessIsTotal(k, Zeros(w));
  }

  // ---------------------------------------------------------------------------
  // The head of a tree
  // ---------------------------------------------------------------------------

  class RadixHead {
    const w: nat
    var top: Tree
    /** Masks that rn_addmask has entered; it never takes one out. */
    var masks: set<nat>

    ghost predicate Ok()
      reads this
    {
      && ValidTop(w, top) && 0 in masks
      && forall q :: q in Routes(top) ==> q.plen in masks
    }

    constructor (width: nat)
      requires width > 0
      ensures Ok() && w == width && Routes(top) == {} && masks == {0}
    {
      w, top, masks := width, EmptyTree(width), {0};
      new;
      EmptyTreeIsValid(w);
    }

    /** rn_search. */
    method FindLeaf(v: Key) returns (x: Tree)
      ensures x == Search(top, v)
    {
      x := top;
      while x.Inner?
        invariant Search(x, v) == Search(top, v)
        decreases x
      {
        x := Near(x, v);
      }
    }

    /** The bits in which two keys agree, up to a limit. */
    method CountSame(a: Key, b: Key, limit: nat) returns (d: nat)
      requires limit <= |a| && limit <= |b|
      ensures d == FirstDiff(a, b, 0, limit)
    {
      d := 0;
      while d < limit && a[d] == b[d]
        invariant d <= limit && FirstDiff(a, b, 0, limit) == FirstDiff(a, b, d, limit)
      {
        d := d + 1;
      }
    }

    /** The loop of rn_match over the annotations of one node. */
    method ScanNode(t: Tree, b: nat) returns (r: Option<Route>)
      requires t.Inner?
      ensures r == ScanMasks(t, b, 0)
    {
      var i := 0;
      while i < |t.masks|
        invariant i <= |t.masks| && ScanMasks(t, b, 0) == ScanMasks(t, b, i)
      {
        var m := t.masks[i];
        if 0 < m.plen <= b {
          return Some(m);
        }
        if m.plen == 0 {
          var x := t;
          while x.Inner?
            invariant Leftmost(x) == Leftmost(t)
            decreases x
          {
            x := x.left;
          }
          if HasDefault(x.chain, 0) {
            return Some(Route(x.key, 0));
          }
        }
        i := i + 1;
      }
      return None;
    }

    /** Down to the leaf that the address leads to, with the nodes on the way. */
    method Descend(v: Key) returns (t: Tree, path: seq<Tree>)
      requires Ok() && |v| == w
      ensures t.Leaf? && |t.key| == w && AllInner(path)
      ensures MatchIn(w, top, v) == Climbed(path, MatchLeaf(w, t, v))
    {
      t, path := top, [];
      while t.Inner?
        invariant Wide(w, t) && AllInner(path)
        invariant MatchIn(w, top, v) == Climbed(path, MatchIn(w, t, v))
        decreases t
      {
        PathStep(path, t);
        path, t := path + [t], Near(t, v);
      }
      assert t.key in Keys(t);
    }

    /** The leaf itself: a match in all relevant bits, or a mask of its chain that fits. */
    method MatchAtLeaf(t: Tree, v: Key) returns (c: Climb)
      requires t.Leaf? && |t.key| == w == |v|
      ensures c == MatchLeaf(w, t, v)
    {
      var limit := LeafLimit(w, t);
      var b := CountSame(v, t.key, limit);
      if b == limit {
        return Found(if t.chain == [] then None else Some(Route(t.key, t.chain[0].plen)));
      }
      var i := 0;
      while i < |t.chain|
        invariant i <= |t.chain| && ScanChain(t.chain, b, 0) == ScanChain(t.chain, b, i)
      {
        if t.chain[i].plen <= b {
          return Found(Some(Route(t.key, t.chain[i].plen)));
        }
        i := i + 1;
      }
      return Continue(b);
    }

    /** Up from a leaf that differs at bit `b`. */
    method ClimbUp(path: seq<Tree>, b: nat) returns (r: Option<Route>)
      requires AllInner(path)
      ensures Climbed(path, Continue(b)) == if r.Some? then Found(r) else Continue(b)
    {
      var up := path;
      while up != []
        invariant AllInner(up) && Climbed(path, Continue(b)) == Climbed(up, Continue(b))
        decreases |up|
      {
        r := ScanNode(up[|up| - 1], b);
        if r.Some? {
          return;
        }
        up := up[..|up| - 1];
      }
      return None;
    }

    /** rn_match: the longest stored prefix that covers the address. */
    method Match(v: Key) returns (r: Option<Route>)
      requires Ok() && |v| == w
      ensures r == Radix.Match(w, top, v)
      ensures !AllOnes(v) ==> IsLongestMatch(Routes(top), v, r)
    {
      var t, path := Descend(v);
      var c := MatchAtLeaf(t, v);
      match c {
        case Found(x) => r := x;
        case Continue(b) => r := ClimbUp(path, b);
      }
      if !AllOnes(v) {
        MatchIsLongest(w, top, v);
      }
    }

    /** rn_addmask; without `search` an unknown mask is entered, for which memory may be missing. */
    method AddMask(plen: nat, search: bool, memory: bool) returns (known: bool)
      requires Ok()
      modifies this`masks
      ensures Ok()
      ensures known <==> plen in old(masks) || (!search && memory)
      ensures masks == old(masks) + if known then {plen} else {}
    {
      if plen in masks {
        return true;
      }
      if search || !memory {
        return false;
      }
      masks := masks + {plen};
      return true;
    }

    /** Down to where the new key leaves the tree, and up again with the new annotation. */
    method Grow(q: Route, b: nat) returns (x: Tree)
      ensures x == AddIn(w, top, q, b, 0)
    {
      ghost var result := AddIn(w, top, q, b, 0);
      var path := [];
      x := top;
      while x.Inner? && b >= x.bit
        invariant AllInner(path) && result == Regrown(path, q, AddIn(w, x, q, b, LowBound(path)))
        decreases x
      {
        PathStep(path, x);
        path, x := path + [x], Near(x, q.key);
      }
      var lo := LowBound(path);
      x := if x.Leaf? && b >= w then Leaf(x.key, x.sentinel, InsertEntry(x.chain, Entry(q.plen, q.plen < lo))) else Branch(x, q, b, lo);
      while path != []
        invariant AllInner(path) && result == Regrown(path, q, x)
        decreases |path|
      {
        var t := path[|path| - 1];
        path := path[..|path| - 1];
        x := GrownNode(t, q, LowBound(path), x);
      }
    }

    /** rn_addroute: refuses a stored route, and a new mask for which there is no memory. */
    method AddRoute(q: Route, memory: bool) returns (ok: bool)
      requires Ok() && Normal(w, q)
      modifies this
      ensures Ok()
      ensures ok <==> q !in old(Routes(top)) && (q.plen in old(masks) || memory)
      ensures if ok then RadixUpdate.AddRoute(w, old(top), q) == Some(top) else top == old(top)
      ensures Routes(top) == if ok then old(Routes(top)) + {q} else old(Routes(top))
      ensures masks == old(masks) + if q.plen in old(masks) || memory then {q.plen} else {}
    {
      AddRouteOk(w, top, q);
      var known := AddMask(q.plen, false, memory);
      if !known {
        return false;
      }
      SearchIsInside(top, q.key);
      var leaf := FindLeaf(q.key);
      var b := CountSame(q.key, leaf.key, w);
      if b == w && FindMask(leaf.chain, q.plen, 0).Some? {
        return false;
      }
      top := Grow(q, b);
      return true;
    }

    /** Down to the leaf, and up again over what it leaves behind. */
    method Shrink(q: Route) returns (left: Remainder)
      ensures left == DelIn(top, q, 0)
    {
      ghost var result := DelIn(top, q, 0);
      var x, path := top, [];
      while x.Inner?
        invariant AllInner(path) && result == Shrunk(path, q, DelIn(x, q, LowBound(path)))
        decreases x
      {
        PathStep(path, x);
        path, x := path + [x], Near(x, q.key);
      }
      var chain := RemoveEntry(x.chain, q.plen);
      left := if chain == [] && !x.sentinel then Gone else Stays(Leaf(x.key, x.sentinel, chain));
      while path != []
        invariant AllInner(path) && result == Shrunk(path, q, left)
        decreases |path|
      {
        var t := path[|path| - 1];
        path := path[..|path| - 1];
        left := Rejoined(t, q, LowBound(path), left);
      }
    }

    /** rn_delete: refuses what is not stored. */
    method DeleteRoute(q: Route) returns (ok: bool)
      requires Ok()
      modifies this`top
      ensures Ok()
      ensures ok <==> q in old(Routes(top))
      ensures if ok then RadixUpdate.DeleteRoute(old(top), q) == Some(top) else top == old(top)
      ensures Routes(top) == old(Routes(top)) - {q}
    {
      DeleteRouteOk(w, top, q);
      var leaf := FindLeaf(q.key);
      if leaf.key != q.key || q.plen !in masks || FindMask(leaf.chain, q.plen, 0).None? {
        return false;
      }
      var left := Shrink(q);
      top := left.tree;
      return true;
    }

    /** rn_lookup: exactly the stored route with this key and this mask. */
    method Lookup(q: Route) returns (r: Option<Route>)
      requires Ok() && Normal(w, q) && !AllOnes(q.key)
      ensures r == if q in Routes(top) then Some(q) else None
    {
      LookupIsExact(w, top, q);
      if q.plen !in masks {
        return None;
      }
      var m := Match(q.key);
      if m.None? {
        return None;
      }
      var leaf := FindLeaf(m.value.key);
      var from := FindMask(leaf.chain, m.value.plen, 0);
      if from.None? || FindMask(leaf.chain, q.plen, from.value).None? {
        return None;
      }
      return Some(Route(m.value.key, q.plen));
    }

    /** The next leaf of a walk: up while coming from the right, then right once and left to the end. */
    method NextLeaf(k: Key) returns (next: Option<Tree>)
      ensures next == NextAfter(top, k)
    {
      var x, path := top, [];
      while x.Inner?
        invariant AllInner(path)
        invariant NextAfter(top, k) == if NextAfter(x, k).Some? then NextAfter(x, k) else NextAbove(path, k)
        decreases x
      {
        PathStep(path, x);
        path, x := path + [x], Near(x, k);
      }
      while path != [] && GoesRight(k, path[|path| - 1].bit)
        invariant AllInner(path) && NextAfter(top, k) == NextAbove(path, k)
        decreases |path|
      {
        path := path[..|path| - 1];
      }
      if path == [] {
        return None;
      }
      x := path[|path| - 1].right;
      while x.Inner?
        invariant NextAfter(top, k) == Some(Leftmost(x))
        decreases x
      {
        x := x.left;
      }
      return Some(x);
    }

    /** Every entry of the chain at `k` goes through the deleting callback. */
    method DeleteChain(k: Key) returns (batch: seq<Route>)
      requires Ok() && k in Keys(top)
      modifies this`top
      ensures Ok()
      ensures IsBatch(batch, old(Routes(top)), k)
      ensures Routes(top) == old(Routes(top)) - RoutesAt(old(Routes(top)), k)
    {
      hide Valid, Sentinels, Routes, Keys, RoutesAt, InOrder;
      ghost var before := top;
      SearchFinds(w, top, 0, k);
      var leaf := FindLeaf(k);
      var list := ChainList(k, leaf.chain);
      BatchOfLeaf(w, top, k, list);
      assert Members(list[..0]) == {};
      var i := 0;
      while i < |list|
        invariant Ok() && i <= |list|
        invariant Routes(top) == Routes(before) - Members(list[..i])
      {
        var _ := DeleteRoute(list[i]);
        MembersStep(list, i);
        i := i + 1;
      }
      assert list[..i] == list;
      assert Members(list) == RoutesAt(Routes(before), k);
      return list;
    }

    /**
     rn_walktree with a callback that deletes its argument: every route is met exactly once, in
     the order of keys and most specific first; only a route to the all-ones address is not met.
     */
    method DeleteAll() returns (visited: seq<Route>)
      requires Ok()
      modifies this`top
      ensures Ok()
      ensures InOrder(visited) && Members(visited) == old(Routes(top)) - Routes(top)
      ensures Routes(top) == RoutesAt(old(Routes(top)), Ones(w))
    {
      ghost var all := Routes(top);
      var first := top;
      while first.Inner?
        invariant Leftmost(first) == Leftmost(top)
        decreases first
      {
        first := first.left;
      }
      WalkStart(w, top);
      var k := first.key;
      visited := [];
      var done := false;
      while !done
        invariant Ok() && k in Keys(top)
        invariant Walked(all, Routes(top), visited, k)
        invariant if done then k == Ones(w) else k != Ones(w)
        decreases !done, |Above(Keys(top), k)|
      {
        ghost var before := top;
        OnesAreLast(w, top, k);
        NextIsNext(w, top, 0, k);
        RoutesAreNormal(w, top, 0);
        var leafAfter := NextLeaf(k);
        var next := leafAfter.value.key;
        var batch := DeleteChain(k);
        WalkStep(all, Routes(before), Keys(before), visited, k, next, batch);
        KeyStays(w, before, top, k, next);
        FewerAbove(Keys(before), Keys(top), k, next);
        OnesAreLast(w, top, next);
        visited, k := visited + batch, next;
        var leaf := FindLeaf(k);
        done := leaf.sentinel;
      }
    }
  }
}
