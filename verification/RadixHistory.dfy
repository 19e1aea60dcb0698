/**
 The radix tree over its whole life: from rn_inithead on, every sequence of rn_addroute and
 rn_delete keeps the tree valid, and the tree is a canonical form of the routes it stores, so
 that deleting a route undoes adding it and the order of the calls leaves no trace.
 */
module RadixHistory {
  import opened Common
  import opened Radix
  import opened RadixUpdate

  // ---------------------------------------------------------------------------
  // One call
  // ---------------------------------------------------------------------------

  /** rn_inithead: the two sentinel leaves below a node at bit 0. */
  function EmptyTree(w: nat): (t: Tree)
  {
    Inner(0, [], Leaf(Zeros(w), true, []), Leaf(Ones(w), true, []))
  }

  lemma EmptyTreeIsValid(w: nat)
    requires w > 0
    ensures ValidTop(w, EmptyTree(w)) && Routes(EmptyTree(w)) == {}
  {
    var t := EmptyTree(w);
    assert First(t.left) == Zeros(w);
    assert Routes(t.left) == {} && Routes(t.right) == {};
    assert MasksAre(t.masks, Routes(t), 0, 0);
  }

  lemma {:induction false} AddKeepsSentinels(w: nat, t: Tree, q: Route, b: nat, lo: nat)
    ensures Sentinels(AddIn(w, t, q, b, lo)) == Sentinels(t)
  {
    if t.Inner? && b >= t.bit {
      AddKeepsSentinels(w, if GoesRight(q.key, t.bit) then t.right else t.left, q, b, t.bit + 1);
    }
  }

  lemma {:induction false} DeleteKeepsSentinels(t: Tree, q: Route, lo: nat)
    ensures match DelIn(t, q, lo)
            case Gone => Sentinels(t) == {}
            case Stays(x) => Sentinels(x) == Sentinels(t)
  {
    if t.Inner? {
      DeleteKeepsSentinels(if GoesRight(q.key, t.bit) then t.right else t.left, q, t.bit + 1);
    }
  }

  /** Each side of the top node has its sentinel, so neither can vanish. */
  lemma SidesHaveSentinels(w: nat, t: Tree)
    requires ValidTop(w, t)
    ensures Sentinels(t.left) != {} && Sentinels(t.right) != {}
  {
    SearchedSentinel(w, t.left, t.bit + 1, Ones(w));
    SearchedSentinel(w, t.right, t.bit + 1, Zeros(w));
    assert Zeros(w) in Sentinels(t) && Ones(w) in Sentinels(t);
    assert Ones(w)[0] && !Zeros(w)[0];
  }

  lemma StoredIsFound(w: nat, t: Tree, q: Route)
    requires Valid(w, t, 0)
    ensures q in Routes(t) <==> Search(t, q.key).key == q.key && FindMask(Search(t, q.key).chain, q.plen, 0).Some?
  {
    RoutesOfKey(w, t, 0, q);
    var l := Search(t, q.key);
    ChainRoutesIn(l.key, l.chain, q);
  }

  /** rn_addroute refuses exactly a stored route, and otherwise adds exactly that one. */
  lemma AddRouteOk(w: nat, t: Tree, q: Route)
    requires ValidTop(w, t) && Normal(w, q)
    ensures match AddRoute(w, t, q)
            case None => q in Routes(t)
            case Some(r) => q !in Routes(t) && ValidTop(w, r) && Routes(r) == Routes(t) + {q}
  {
    var leaf := Search(t, q.key);
    SearchIsInside(t, q.key);
    StoredIsFound(w, t, q);
    var b := FirstDiff(q.key, leaf.key, 0, w);
    assert LeavesAt(w, t, q, b);
    if q !in Routes(t) {
      AddInOk(w, t, q, b, 0);
      AddKeepsSentinels(w, t, q, b, 0);
      RoutesAreNormal(w, AddIn(w, t, q, b, 0), 0);
    }
  }

  /** rn_delete refuses exactly what is not stored, and otherwise removes exactly the one route. */
  lemma DeleteRouteOk(w: nat, t: Tree, q: Route)
    requires ValidTop(w, t)
    ensures match DeleteRoute(t, q)
            case None => q !in Routes(t)
            case Some(r) => q in Routes(t) && ValidTop(w, r) && Routes(r) == Routes(t) - {q}
  {
    StoredIsFound(w, t, q);
    if q in Routes(t) {
      DelInOk(w, t, q, 0);
      DeleteKeepsSentinels(t, q, 0);
      SidesHaveSentinels(w, t);
      DeleteKeepsSentinels(if GoesRight(q.key, t.bit) then t.right else t.left, q, t.bit + 1);
      RoutesAreNormal(w, DelIn(t, q, 0).tree, 0);
    }
  }

  // ---------------------------------------------------------------------------
  // Canonical form
  // ---------------------------------------------------------------------------

  ghost predicate SameContents(t: Tree, u: Tree)
  {
    Routes(t) == Routes(u) && Keys(t) == Keys(u) && Sentinels(t) == Sentinels(u)
  }

  /** A sorted list is determined by its members. */
  lemma {:induction false} SameMasks(a: seq<Route>, b: seq<Route>)
    requires Sorted(a) && Sorted(b) && forall x :: x in a <==> x in b
    ensures a == b
  {
    hide Sorted;
    assert (a != [] ==> a[0] in a) && (b != [] ==> b[0] in b);
    if a != [] && b != [] {
      UnconsedMask(a);
      UnconsedMask(b);
      assert a[0] == b[0];
      forall x ensures x in a[1..] <==> x in b[1..] {
        assert x in a <==> x == a[0] || x in a[1..];
        assert x in b <==> x == b[0] || x in b[1..];
      }
      SameMasks(a[1..], b[1..]);
    }
  }

  lemma {:induction false} SameChain(a: seq<Entry>, b: seq<Entry>)
    requires Descending(a) && Descending(b) && forall x :: x in a <==> x in b
    ensures a == b
  {
    hide Descending;
    assert (a != [] ==> a[0] in a) && (b != [] ==> b[0] in b);
    if a != [] && b != [] {
      Unconsed(a);
      Unconsed(b);
      assert a[0] == b[0];
      forall x ensures x in a[1..] <==> x in b[1..] {
        assert x in a <==> x == a[0] || x in a[1..];
        assert x in b <==> x == b[0] || x in b[1..];
      }
      SameChain(a[1..], b[1..]);
    }
  }

  lemma ChainMember(w: nat, t: Tree, lo: nat, e: Entry)
    requires t.Leaf? && Valid(w, t, lo)
    ensures e in t.chain <==> Route(t.key, e.plen) in Routes(t) && (e.lifted <==> e.plen < lo)
  {
    if Route(t.key, e.plen) in Routes(t) && (e.lifted <==> e.plen < lo) {
      var i :| 0 <= i < |t.chain| && Route(t.key, e.plen) == Route(t.key, t.chain[i].plen);
      assert t.chain[i] == e;
    }
  }

  lemma SameLeaf(w: nat, t: Tree, u: Tree, lo: nat)
    requires t.Leaf? && u.Leaf? && Valid(w, t, lo) && Valid(w, u, lo) && SameContents(t, u)
    ensures t == u
  {
    assert t.key in Keys(u);
    assert t.sentinel <==> t.key in Sentinels(t);
    assert u.sentinel <==> u.key in Sentinels(u);
    forall e ensures e in t.chain <==> e in u.chain {
      ChainMember(w, t, lo, e);
      ChainMember(w, u, lo, e);
    }
    SameChain(t.chain, u.chain);
  }

  /** An internal node has keys on both sides, and its bit is the first in which its keys differ. */
  lemma TwoKeys(w: nat, t: Tree, lo: nat) returns (a: Key, b: Key)
    requires t.Inner? && Valid(w, t, lo)
    ensures a in Keys(t.left) && b in Keys(t.right) && |a| == |b| == w && !a[t.bit] && b[t.bit] && Agree(a, b, t.bit)
  {
    a, b := First(t.left), First(t.right);
    RoutesAreNormal(w, t.left, t.bit + 1);
    RoutesAreNormal(w, t.right, t.bit + 1);
  }

  lemma SameShape(w: nat, t: Tree, u: Tree, lo: nat)
    requires Valid(w, t, lo) && Valid(w, u, lo) && Keys(t) == Keys(u) && t.Inner?
    ensures u.Inner? && u.bit <= t.bit
  {
    var a, b := TwoKeys(w, t, lo);
    assert a in Keys(u) && b in Keys(u);
    if u.Inner? && u.bit > t.bit {
      KeysAgree(w, u, lo, a, b);
    }
  }

  /** The sides of a node are told apart by its bit. */
  lemma SideContents(w: nat, t: Tree, lo: nat)
    requires t.Inner? && Valid(w, t, lo)
    ensures forall k :: k in Keys(t.left) <==> k in Keys(t) && !GoesRight(k, t.bit)
    ensures forall k :: k in Keys(t.right) <==> k in Keys(t) && GoesRight(k, t.bit)
    ensures forall k :: k in Sentinels(t.left) <==> k in Sentinels(t) && !GoesRight(k, t.bit)
    ensures forall k :: k in Sentinels(t.right) <==> k in Sentinels(t) && GoesRight(k, t.bit)
    ensures forall q :: q in Routes(t.left) <==> q in Routes(t) && !GoesRight(q.key, t.bit)
    ensures forall q :: q in Routes(t.right) <==> q in Routes(t) && GoesRight(q.key, t.bit)
  {
    RoutesAreNormal(w, t.left, t.bit + 1);
    RoutesAreNormal(w, t.right, t.bit + 1);
    SearchedSentinel(w, t.left, t.bit + 1, First(t));
    SearchedSentinel(w, t.right, t.bit + 1, First(t));
  }

  /** Valid trees with the same routes, keys and sentinels are the same tree. */
  lemma {:induction false} Canonical(w: nat, t: Tree, u: Tree, lo: nat)
    requires Valid(w, t, lo) && Valid(w, u, lo) && SameContents(t, u)
    ensures t == u
    decreases t
  {
    hide Valid, Side, Sorted, Agree, Routes, Keys, Sentinels;
    if t.Leaf? && u.Leaf? {
      SameLeaf(w, t, u, lo);
    } else if t.Inner? {
      SameShape(w, t, u, lo);
      SameShape(w, u, t, lo);
      SideContents(w, t, lo);
      SideContents(w, u, lo);
      OpenNode(w, t, lo);
      OpenNode(w, u, lo);
      assert SameContents(t.left, u.left);
      assert SameContents(t.right, u.right);
      Canonical(w, t.left, u.left, t.bit + 1);
      Canonical(w, t.right, u.right, t.bit + 1);
      SameMasks(t.masks, u.masks);
    } else {
      SameShape(w, u, t, lo);
    }
  }

  /** Every leaf that is not a sentinel has a route. */
  lemma {:induction false} KeysAreUsed(w: nat, t: Tree, lo: nat)
    requires Valid(w, t, lo)
    ensures Keys(t) == Sentinels(t) + set q | q in Routes(t) :: q.key
  {
    if t.Inner? {
      KeysAreUsed(w, t.left, t.bit + 1);
      KeysAreUsed(w, t.right, t.bit + 1);
    } else if t.chain != [] {
      assert Route(t.key, t.chain[0].plen) in Routes(t);
    }
  }

  /** The stored routes determine the tree: shape, chains, annotations and all. */
  lemma RoutesDetermineTree(w: nat, t: Tree, u: Tree)
    requires ValidTop(w, t) && ValidTop(w, u) && Routes(t) == Routes(u)
    ensures t == u
  {
    KeysAreUsed(w, t, 0);
    KeysAreUsed(w, u, 0);
    Canonical(w, t, u, 0);
  }

  /** rn_delete undoes rn_addroute. */
  lemma DeleteUndoesAdd(w: nat, t: Tree, q: Route)
    requires ValidTop(w, t) && Normal(w, q) && q !in Routes(t)
    ensures AddRoute(w, t, q).Some? && DeleteRoute(AddRoute(w, t, q).value, q) == Some(t)
  {
    AddRouteOk(w, t, q);
    var added := AddRoute(w, t, q).value;
    DeleteRouteOk(w, added, q);
    var back := DeleteRoute(added, q).value;
    assert Routes(back) == Routes(t);
    RoutesDetermineTree(w, back, t);
  }

  /** rn_addroute undoes rn_delete. */
  lemma AddUndoesDelete(w: nat, t: Tree, q: Route)
    requires ValidTop(w, t) && q in Routes(t)
    ensures DeleteRoute(t, q).Some? && Wide(w, DeleteRoute(t, q).value) && |q.key| == w
    ensures AddRoute(w, DeleteRoute(t, q).value, q) == Some(t)
  {
    RoutesAreNormal(w, t, 0);
    DeleteRouteOk(w, t, q);
    var deleted := DeleteRoute(t, q).value;
    AddRouteOk(w, deleted, q);
    var back := AddRoute(w, deleted, q).value;
    assert Routes(back) == Routes(t);
    RoutesDetermineTree(w, back, t);
  }

  // ---------------------------------------------------------------------------
  // Whole runs
  // ---------------------------------------------------------------------------

  datatype Op = Add(route: Route) | Delete(route: Route)

  function Step(w: nat, t: Tree, op: Op): (r: Tree)
    requires Wide(w, t) && |op.route.key| == w
  {
    match op
    case Add(q) => (match AddRoute(w, t, q) case None => t case Some(x) => x)
    case Delete(q) => (match DeleteRoute(t, q) case None => t case Some(x) => x)
  }

  ghost function StepRoutes(s: set<Route>, op: Op): (r: set<Route>)
  {
    match op
    case Add(q) => s + {q}
    case Delete(q) => s - {q}
  }

  /** `t` is reached from the empty tree by the calls `ops`, which all have normal arguments. */
  ghost predicate Reaches(w: nat, ops: seq<Op>, t: Tree)
  {
    if ops == [] then t == EmptyTree(w)
    else
      var last := ops[|ops| - 1];
      && Normal(w, last.route)
      && exists u :: Reaches(w, ops[..|ops| - 1], u) && Wide(w, u) && t == Step(w, u, last)
  }

  /** The routes that a history leaves behind. */
  ghost function Remaining(ops: seq<Op>): (s: set<Route>)
  {
    if ops == [] then {} else StepRoutes(Remaining(ops[..|ops| - 1]), ops[|ops| - 1])
  }

  lemma StepOk(w: nat, t: Tree, op: Op)
    requires ValidTop(w, t) && Normal(w, op.route)
    ensures ValidTop(w, Step(w, t, op)) && Routes(Step(w, t, op)) == StepRoutes(Routes(t), op)
  {
    match op
    case Add(q) => AddRouteOk(w, t, q);
    case Delete(q) => DeleteRouteOk(w, t, q);
  }

  /** Every run keeps the tree valid and stores exactly the remaining routes. */
  lemma {:induction false} RunOk(w: nat, ops: seq<Op>, t: Tree)
    requires w > 0 && Reaches(w, ops, t)
    ensures ValidTop(w, t) && Routes(t) == Remaining(ops)
  {
    if ops == [] {
      EmptyTreeIsValid(w);
    } else {
      var last, before := ops[|ops| - 1], ops[..|ops| - 1];
      var u :| Reaches(w, before, u) && Wide(w, u) && t == Step(w, u, last);
      RunOk(w, before, u);
      StepOk(w, u, last);
    }
  }

  /** After every run, rn_match answers with the longest remaining prefix. */
  lemma MatchAfterRun(w: nat, ops: seq<Op>, t: Tree, v: Key)
    requires w > 0 && Reaches(w, ops, t) && |v| == w && !AllOnes(v)
    ensures Wide(w, t) && IsLongestMatch(Remaining(ops), v, Match(w, t, v))
  {
    RunOk(w, ops, t);
    MatchIsLongest(w, t, v);
  }

  /** Two runs that leave the same routes behind end in the same tree. */
  lemma RunsAgree(w: nat, ops: seq<Op>, t: Tree, ops': seq<Op>, t': Tree)
    requires w > 0 && Reaches(w, ops, t) && Reaches(w, ops', t') && Remaining(ops) == Remaining(ops')
    ensures t == t'
  {
    RunOk(w, ops, t);
    RunOk(w, ops', t');
    RoutesDetermineTree(w, t, t');
  }

  /** A default route is stored, and yet the all-ones address has no match. */
  lemma AllOnesIsMissed(w: nat)
    requires w > 0
    ensures var q := Route(Zeros(w), 0);
            var t := Step(w, EmptyTree(w), Add(q));
            ValidTop(w, t) && Covers(q, Ones(w)) && q in Routes(t) && Match(w, t, Ones(w)) == None
  {
    var q := Route(Zeros(w), 0);
    EmptyTreeIsValid(w);
    StepOk(w, EmptyTree(w), Add(q));
    MatchOfAllOnes(w, Step(w, EmptyTree(w), Add(q)), Ones(w));
  }
}
