/**
 The timer of src/evdp/timer.c as a state: tree nodes with their callback lists, timer points,
 the keep list and the two caches of recycled memory, and the calls new_point, del_point and
 point_reset on it. Nodes and points are named by positive numbers; zero is NULL.
 */
module TimerState {
  import opened Common

  type Id = nat

  datatype TNode = TNode(ts: int, cblist: seq<Id>, noAutoDel: bool)

  /** `serial` tells the points apart that live in the same memory one after the other. */
  datatype Point = Point(serial: nat, running: bool, ref: Id)

  datatype Timer = Timer(
    nodes: map<Id, TNode>, points: map<Id, Point>, keeplist: seq<Id>,
    tcache: seq<Id>, tsize: nat, lcache: seq<Id>, lsize: nat, made: nat)

  // ---------------------------------------------------------------------------
  // Invariant
  // ---------------------------------------------------------------------------

  /** A list holds points that wait for `ref`, each once. */
  ghost predicate ListOk(points: map<Id, Point>, list: seq<Id>, ref: Id)
  {
    NoDup(list) && forall p :: p in list ==> p in points && !points[p].running && points[p].ref == ref
  }

  /** A point is where its fields say: running, in the list of its node, or in the keep list. */
  ghost predicate PlaceOk(s: Timer, p: Id)
    requires p in s.points
  {
    var x := s.points[p];
    && (x.ref != 0 ==> x.ref in s.nodes)
    && (!x.running ==> if x.ref == 0 then p in s.keeplist else p in s.nodes[x.ref].cblist)
  }

  ghost predicate DistinctTimes(nodes: map<Id, TNode>)
  {
    forall m, n :: m in nodes && n in nodes && nodes[m].ts == nodes[n].ts ==> m == n
  }

  ghost predicate CacheOk(cache: seq<Id>, size: nat, used: set<Id>)
  {
    |cache| <= size && NoDup(cache) && 0 !in cache && forall x :: x in cache ==> x !in used
  }

  ghost predicate SerialsOk(points: map<Id, Point>, made: nat)
  {
    && (forall p :: p in points ==> points[p].serial < made)
    && (forall p, q :: p in points && q in points && points[p].serial == points[q].serial ==> p == q)
  }

  /**
   Each live point is in exactly one place, no memory is both in use and cached, and the caches
   keep within their sizes.
   */
  ghost predicate Inv(s: Timer)
  {
    ListsOk(s) && PlacesOk(s) && DistinctTimes(s.nodes) && MemoryOk(s)
  }

  ghost predicate ListsOk(s: Timer)
  {
    ListOk(s.points, s.keeplist, 0) && forall n :: n in s.nodes ==> ListOk(s.points, s.nodes[n].cblist, n)
  }

  ghost predicate PlacesOk(s: Timer)
  {
    forall p :: p in s.points ==> PlaceOk(s, p)
  }

  ghost predicate MemoryOk(s: Timer)
  {
    && 0 !in s.nodes && 0 !in s.points
    && CacheOk(s.tcache, s.tsize, s.nodes.Keys) && CacheOk(s.lcache, s.lsize, s.points.Keys)
    && SerialsOk(s.points, s.made)
  }

  // ---------------------------------------------------------------------------
  // Memory
  // ---------------------------------------------------------------------------

  /** The result of an allocation: recycled if possible, else what calloc returns (zero on failure). */
  function Taken(cache: seq<Id>, mem: Id): (x: Id)
  {
    if cache != [] then cache[|cache| - 1] else mem
  }

  function Rest(cache: seq<Id>): (r: seq<Id>)
  {
    if cache != [] then cache[..|cache| - 1] else cache
  }

  function Recycled(cache: seq<Id>, size: nat, x: Id): (r: seq<Id>)
  {
    if |cache| < size then cache + [x] else cache
  }

  /** calloc returns memory that is neither in use nor cached. */
  predicate Fresh(x: Id, used: set<Id>, cache: seq<Id>)
  {
    x !in used && x !in cache
  }

  // ---------------------------------------------------------------------------
  // The node for a point in time
  // ---------------------------------------------------------------------------

  ghost predicate HasTime(nodes: map<Id, TNode>, ts: int)
  {
    exists n :: n in nodes && nodes[n].ts == ts
  }

  ghost function NodeAt(nodes: map<Id, TNode>, ts: int): (n: Id)
    requires HasTime(nodes, ts)
    ensures n in nodes && nodes[n].ts == ts
  {
    var n :| n in nodes && nodes[n].ts == ts;
    n
  }

  /** A node is made and put into the tree; if there is one for this time already, it is used instead. */
  ghost function Obtained(s: Timer, ts: int, mem: Id): (r: (Timer, Id))
    ensures r.1 != 0 ==> r.1 in r.0.nodes
  {
    var tn, rest := Taken(s.tcache, mem), Rest(s.tcache);
    if tn == 0 then (s, 0)
    else if HasTime(s.nodes, ts) then (s.(tcache := Recycled(rest, s.tsize, tn)), NodeAt(s.nodes, ts))
    else (s.(tcache := rest, nodes := s.nodes[tn := TNode(ts, [], false)]), tn)
  }

  // ---------------------------------------------------------------------------
  // Lists
  // ---------------------------------------------------------------------------

  function Removed(list: seq<Id>, p: Id): (r: seq<Id>)
  {
    if list == [] then [] else if list[0] == p then list[1..] else [list[0]] + Removed(list[1..], p)
  }

  function SetList(s: Timer, n: Id, list: seq<Id>): (r: Timer)
    requires n in s.nodes
  {
    s.(nodes := s.nodes[n := s.nodes[n].(cblist := list)])
  }

  /** LIST_REMOVE of a point that is not running. */
  function Unlinked(s: Timer, p: Id): (r: Timer)
    requires p in s.points && (s.points[p].ref != 0 ==> s.points[p].ref in s.nodes)
  {
    var n := s.points[p].ref;
    if n == 0 then s.(keeplist := Removed(s.keeplist, p))
    else SetList(s, n, Removed(s.nodes[n].cblist, p))
  }

  /** evdp_timer_rbtree_node_check_del. */
  function CheckedDel(s: Timer, n: Id): (r: Timer)
    requires n in s.nodes
  {
    if !s.nodes[n].noAutoDel && s.nodes[n].cblist == [] then
      s.(nodes := s.nodes - {n}, tcache := Recycled(s.tcache, s.tsize, n))
    else s
  }

  // ---------------------------------------------------------------------------
  // The calls
  // ---------------------------------------------------------------------------

  /** neb_evdp_timer_new_point; the new point, or zero without memory. */
  ghost function NewPoint(s: Timer, ts: int, nodeMem: Id, pointMem: Id): (r: (Timer, Id))
  {
    var (s1, tn) := Obtained(s, ts, nodeMem);
    var ln := Taken(s1.lcache, pointMem);
    if tn == 0 || ln == 0 then (s1, 0)
    else
      var s2 := s1.(lcache := Rest(s1.lcache), points := s1.points[ln := Point(s1.made, false, tn)], made := s1.made + 1);
      (SetList(s2, tn, [ln] + s2.nodes[tn].cblist), ln)
  }

  /** The memory of a point is given back. */
  function Freed(s: Timer, p: Id): (r: Timer)
  {
    s.(points := s.points - {p}, lcache := Recycled(s.lcache, s.lsize, p))
  }

  /** neb_evdp_timer_del_point. */
  function DelPoint(s: Timer, p: Id): (r: Timer)
    requires p in s.points && (s.points[p].ref != 0 ==> s.points[p].ref in s.nodes)
  {
    var x := s.points[p];
    if x.running then s.(points := s.points[p := x.(ref := 0)])
    else
      var s1 := Freed(Unlinked(s, p), p);
      if x.ref != 0 then CheckedDel(s1, x.ref) else s1
  }

  /** neb_evdp_timer_point_reset; false without memory. */
  ghost function ResetPoint(s: Timer, p: Id, ts: int, mem: Id): (r: (Timer, bool))
    requires p in s.points && (s.points[p].ref != 0 ==> s.points[p].ref in s.nodes) && Taken(s.tcache, mem) !in s.nodes
  {
    var (s1, tn) := Obtained(s, ts, mem);
    var x := s.points[p];
    if tn == 0 then (s1, false)
    else if HasTime(s.nodes, ts) && x.ref == tn then (s1, true)
    else if x.running then (s1.(points := s1.points[p := x.(ref := tn)]), true)
    else
      var s2 := Unlinked(s1, p);
      var s3 := if x.ref != 0 then CheckedDel(s2, x.ref) else s2;
      var s4 := s3.(points := s3.points[p := x.(ref := tn)]);
      (SetList(s4, tn, [p] + s4.nodes[tn].cblist), true)
  }

  // ---------------------------------------------------------------------------
  // Elementary steps: a point in hand counts as running
  // ---------------------------------------------------------------------------

  /** The point is taken out of its list. */
  function Lifted(s: Timer, p: Id): (r: Timer)
    requires p in s.points && (s.points[p].ref != 0 ==> s.points[p].ref in s.nodes)
  {
    var s1 := Unlinked(s, p);
    s1.(points := s1.points[p := s1.points[p].(running := true)])
  }

  function Retargeted(s: Timer, p: Id, n: Id): (r: Timer)
    requires p in s.points
  {
    s.(points := s.points[p := s.points[p].(ref := n)])
  }

  /** The point goes to the head of the list of its node, or of the keep list. */
  function Landed(s: Timer, p: Id): (r: Timer)
    requires p in s.points && (s.points[p].ref != 0 ==> s.points[p].ref in s.nodes)
  {
    var n := s.points[p].ref;
    var s1 := s.(points := s.points[p := s.points[p].(running := false)]);
    if n == 0 then s1.(keeplist := [p] + s1.keeplist)
    else SetList(s1, n, [p] + s1.nodes[n].cblist)
  }

  lemma {:induction false} RemovedOk(list: seq<Id>, p: Id)
    requires NoDup(list)
    ensures NoDup(Removed(list, p)) && forall x :: x in Removed(list, p) <==> x in list && x != p
  {
    if list != [] {
      var rest := list[1..];
      assert forall i :: 0 <= i < |rest| ==> rest[i] == list[i + 1];
      assert list == [list[0]] + rest;
      if list[0] != p {
        RemovedOk(rest, p);
        NoDupCons(list[0], Removed(rest, p));
      }
    }
  }

  lemma NoDupCons(x: Id, s: seq<Id>)
    requires NoDup(s) && x !in s
    ensures NoDup([x] + s)
  {
    var r := [x] + s;
    forall i, j | 0 <= i < j < |r| ensures r[i] != r[j] {
      assert r[j] == s[j - 1] && s[j - 1] in s;
      assert i > 0 ==> r[i] == s[i - 1];
    }
  }

  /** Lists of other points do not see a change of one point. */
  lemma ListFrame(points: map<Id, Point>, points': map<Id, Point>, list: seq<Id>, ref: Id, p: Id)
    requires ListOk(points, list, ref) && p !in list && forall q :: q in points && q != p ==> q in points' && points'[q] == points[q]
    ensures ListOk(points', list, ref)
  {
  }

  lemma SerialsFrame(points: map<Id, Point>, p: Id, x: Point, made: nat)
    requires SerialsOk(points, made) && p in points && x.serial == points[p].serial
    ensures SerialsOk(points[p := x], made)
  {
  }

  lemma InList(s: Timer, p: Id, n: Id)
    requires Inv(s) && n in s.nodes && p in s.nodes[n].cblist
    ensures p in s.points && !s.points[p].running && s.points[p].ref == n
  {
  }

  /** Fields of one point change, its serial does not; nodes keep their memory. */
  lemma MemoryFrame(s: Timer, r: Timer, p: Id)
    requires MemoryOk(s) && p in s.points && p in r.points && r.points == s.points[p := r.points[p]]
    requires r.points[p].serial == s.points[p].serial && r.nodes.Keys == s.nodes.Keys
    requires r.tcache == s.tcache && r.tsize == s.tsize && r.lcache == s.lcache && r.lsize == s.lsize && r.made == s.made
    ensures MemoryOk(r)
  {
    SerialsFrame(s.points, p, r.points[p], s.made);
    assert r.points.Keys == s.points.Keys;
  }

  lemma LiftedLists(s: Timer, p: Id)
    requires ListsOk(s) && 0 !in s.nodes && p in s.points && PlaceOk(s, p) && !s.points[p].running
    ensures ListsOk(Lifted(s, p))
  {
    var r, n := Lifted(s, p), s.points[p].ref;
    RemovedOk(if n == 0 then s.keeplist else s.nodes[n].cblist, p);
    forall m | m in r.nodes ensures ListOk(r.points, r.nodes[m].cblist, m) {
      assert ListOk(s.points, s.nodes[m].cblist, m);
      assert ListOk(s.points, r.nodes[m].cblist, m);
      if m == n {
        assert r.nodes[m].cblist == Removed(s.nodes[n].cblist, p);
      }
      assert p !in r.nodes[m].cblist;
      ListFrame(s.points, r.points, r.nodes[m].cblist, m, p);
    }
    assert ListOk(s.points, r.keeplist, 0);
    ListFrame(s.points, r.points, r.keeplist, 0, p);
  }

  lemma LiftedPlaces(s: Timer, p: Id)
    requires ListsOk(s) && PlacesOk(s) && p in s.points && !s.points[p].running
    ensures PlaceOk(s, p) && PlacesOk(Lifted(s, p))
  {
    assert PlaceOk(s, p);
    var r, n := Lifted(s, p), s.points[p].ref;
    if n != 0 {
      assert ListOk(s.points, s.nodes[n].cblist, n);
    }
    RemovedOk(if n == 0 then s.keeplist else s.nodes[n].cblist, p);
    forall q | q in r.points ensures PlaceOk(r, q) {
      assert PlaceOk(s, q);
    }
  }

  lemma LiftedOk(s: Timer, p: Id)
    requires Inv(s) && p in s.points && !s.points[p].running
    ensures PlaceOk(s, p) && Inv(Lifted(s, p))
  {
    InvMemory(s);
    hide ListsOk, MemoryOk;
    LiftedPlaces(s, p);
    LiftedLists(s, p);
    MemoryFrame(s, Lifted(s, p), p);
  }

  lemma RetargetedOk(s: Timer, p: Id, n: Id)
    requires Inv(s) && p in s.points && s.points[p].running && (n == 0 || n in s.nodes)
    ensures Inv(Retargeted(s, p, n))
  {
    hide MemoryOk;
    var r := Retargeted(s, p, n);
    MemoryFrame(s, r, p);
    forall m | m in r.nodes ensures ListOk(r.points, r.nodes[m].cblist, m) {
      assert ListOk(s.points, s.nodes[m].cblist, m);
      ListFrame(s.points, r.points, r.nodes[m].cblist, m, p);
    }
    ListFrame(s.points, r.points, r.keeplist, 0, p);
    forall q | q in r.points ensures PlaceOk(r, q) {
      assert PlaceOk(s, q);
    }
  }

  lemma LandedLists(s: Timer, p: Id)
    requires ListsOk(s) && p in s.points && PlaceOk(s, p) && s.points[p].running
    ensures ListsOk(Landed(s, p))
  {
    var r, n := Landed(s, p), s.points[p].ref;
    forall m | m in r.nodes ensures ListOk(r.points, r.nodes[m].cblist, m) {
      assert ListOk(s.points, s.nodes[m].cblist, m);
      ListFrame(s.points, r.points, s.nodes[m].cblist, m, p);
      if m == n {
        NoDupCons(p, s.nodes[m].cblist);
      }
    }
    ListFrame(s.points, r.points, s.keeplist, 0, p);
    if n == 0 {
      NoDupCons(p, s.keeplist);
    }
  }

  lemma LandedOk(s: Timer, p: Id)
    requires Inv(s) && p in s.points && s.points[p].running
    ensures PlaceOk(s, p) && Inv(Landed(s, p))
  {
    hide MemoryOk, ListsOk;
    assert PlaceOk(s, p);
    var r := Landed(s, p);
    LandedLists(s, p);
    MemoryFrame(s, r, p);
    forall q | q in r.points ensures PlaceOk(r, q) {
      assert PlaceOk(s, q);
    }
  }

  /** A point in hand is given back. */
  lemma FreedOk(s: Timer, p: Id)
    requires Inv(s) && p in s.points && s.points[p].running
    ensures Inv(Freed(s, p))
  {
    var r := Freed(s, p);
    forall m | m in r.nodes ensures ListOk(r.points, r.nodes[m].cblist, m) {
      assert ListOk(s.points, s.nodes[m].cblist, m);
      ListFrame(s.points, r.points, r.nodes[m].cblist, m, p);
    }
    ListFrame(s.points, r.points, r.keeplist, 0, p);
    forall q | q in r.points ensures PlaceOk(r, q) {
      assert PlaceOk(s, q);
    }
    RecycledOk(s.lcache, s.lsize, s.points.Keys, p);
  }

  lemma RecycledOk(cache: seq<Id>, size: nat, used: set<Id>, x: Id)
    requires CacheOk(cache, size, used) && x in used && x != 0
    ensures CacheOk(Recycled(cache, size, x), size, used - {x})
  {
    var r := Recycled(cache, size, x);
    assert forall i :: 0 <= i < |cache| ==> cache[i] in cache;
  }

  lemma RestOk(cache: seq<Id>, size: nat, used: set<Id>, mem: Id)
    requires CacheOk(cache, size, used) && (mem != 0 ==> Fresh(mem, used, cache))
    ensures var x := Taken(cache, mem);
            && (x != 0 ==> x !in used && CacheOk(Rest(cache), size, used + {x}))
            && (cache != [] ==> x != 0) && CacheOk(Rest(cache), size, used)
  {
    var rest := Rest(cache);
    assert forall i :: 0 <= i < |rest| ==> rest[i] == cache[i];
    assert forall x :: x in rest ==> x in cache;
  }

  // ---------------------------------------------------------------------------
  // Nodes come and go
  // ---------------------------------------------------------------------------

  /** No running point will land on the node. */
  predicate NotAwaited(s: Timer, n: Id)
  {
    forall p :: p in s.points && s.points[p].running ==> s.points[p].ref != n
  }

  /** A node without points that nobody will land on leaves. */
  lemma NodeGone(s: Timer, n: Id)
    requires Inv(s) && n in s.nodes && s.nodes[n].cblist == []
    ensures var r := s.(nodes := s.nodes - {n}, tcache := Recycled(s.tcache, s.tsize, n));
            Inv(r) <==> NotAwaited(s, n)
  {
    var r := s.(nodes := s.nodes - {n}, tcache := Recycled(s.tcache, s.tsize, n));
    forall m | m in r.nodes ensures ListOk(r.points, r.nodes[m].cblist, m) {
      assert ListOk(s.points, s.nodes[m].cblist, m);
    }
    RecycledOk(s.tcache, s.tsize, s.nodes.Keys, n);
    assert r.nodes.Keys == s.nodes.Keys - {n};
    forall p | p in r.points ensures PlaceOk(r, p) <==> !(s.points[p].running && s.points[p].ref == n) {
      assert PlaceOk(s, p);
    }
    if Inv(r) {
      forall p | p in s.points && s.points[p].running ensures s.points[p].ref != n {
        assert PlaceOk(r, p);
      }
    }
  }

  /** evdp_timer_rbtree_node_check_del: an empty node leaves unless it is flagged; that keeps the invariant exactly if it is not awaited. */
  lemma CheckedDelOk(s: Timer, n: Id)
    requires Inv(s) && n in s.nodes
    ensures var r := CheckedDel(s, n);
            && (n !in r.nodes <==> s.nodes[n].cblist == [] && !s.nodes[n].noAutoDel)
            && (n in r.nodes ==> r == s)
            && (n !in r.nodes ==> r == s.(nodes := s.nodes - {n}, tcache := if |s.tcache| < s.tsize then s.tcache + [n] else s.tcache))
    ensures Inv(CheckedDel(s, n)) <==> s.nodes[n].noAutoDel || s.nodes[n].cblist != [] || NotAwaited(s, n)
  {
    if !s.nodes[n].noAutoDel && s.nodes[n].cblist == [] {
      NodeGone(s, n);
    }
  }

  lemma NodeIsUnique(nodes: map<Id, TNode>, ts: int, n: Id)
    requires DistinctTimes(nodes) && n in nodes && nodes[n].ts == ts
    ensures HasTime(nodes, ts) && NodeAt(nodes, ts) == n
  {
  }

  lemma NodeAdded(s: Timer, n: Id, ts: int, tcache: seq<Id>)
    requires Inv(s) && n != 0 && n !in s.nodes && !HasTime(s.nodes, ts) && CacheOk(tcache, s.tsize, s.nodes.Keys + {n})
    ensures Inv(s.(tcache := tcache, nodes := s.nodes[n := TNode(ts, [], false)]))
  {
    var r := s.(tcache := tcache, nodes := s.nodes[n := TNode(ts, [], false)]);
    forall m | m in r.nodes ensures ListOk(r.points, r.nodes[m].cblist, m) {
      if m != n {
        assert ListOk(s.points, s.nodes[m].cblist, m);
      }
    }
    forall p | p in r.points ensures PlaceOk(r, p) {
      assert PlaceOk(s, p);
    }
    assert r.nodes.Keys == s.nodes.Keys + {n};
  }

  lemma RecycledAgain(cache: seq<Id>, size: nat, used: set<Id>, mem: Id)
    requires CacheOk(cache, size, used) && (mem != 0 ==> Fresh(mem, used, cache)) && Taken(cache, mem) != 0
    ensures CacheOk(Recycled(Rest(cache), size, Taken(cache, mem)), size, used)
  {
    RestOk(cache, size, used, mem);
    var x := Taken(cache, mem);
    RecycledOk(Rest(cache), size, used + {x}, x);
    assert used + {x} - {x} == used;
  }

  /** The node for a time: an existing one, or a new one without points. */
  lemma ObtainedOk(s: Timer, ts: int, mem: Id)
    requires Inv(s) && (mem != 0 ==> Fresh(mem, s.nodes.Keys, s.tcache))
    ensures var (r, n) := Obtained(s, ts, mem);
            && Inv(r) && r == s.(nodes := r.nodes, tcache := r.tcache)
            && (n == 0 <==> mem == 0 && s.tcache == [])
            && (n == 0 ==> r == s)
            && (n != 0 ==> n in r.nodes && r.nodes[n].ts == ts && NodesGrow(s.nodes, r.nodes, n))
  {
    var n := Taken(s.tcache, mem);
    RestOk(s.tcache, s.tsize, s.nodes.Keys, mem);
    if n != 0 {
      if HasTime(s.nodes, ts) {
        RecycledAgain(s.tcache, s.tsize, s.nodes.Keys, mem);
        var r := s.(tcache := Recycled(Rest(s.tcache), s.tsize, n));
        forall p | p in r.points ensures PlaceOk(r, p) {
          assert PlaceOk(s, p);
        }
      } else {
        NodeAdded(s, n, ts, Rest(s.tcache));
      }
    }
  }

  /** At most the node `n` is new, and then it is empty and ordinary. */
  ghost predicate NodesGrow(nodes: map<Id, TNode>, nodes': map<Id, TNode>, n: Id)
  {
    nodes' == nodes || (n !in nodes && n in nodes' && nodes' == nodes[n := TNode(nodes'[n].ts, [], false)])
  }

  lemma PointAdded(s: Timer, p: Id, n: Id, lcache: seq<Id>)
    requires Inv(s) && p != 0 && p !in s.points && n in s.nodes && CacheOk(lcache, s.lsize, s.points.Keys + {p})
    ensures Inv(s.(lcache := lcache, points := s.points[p := Point(s.made, true, n)], made := s.made + 1))
  {
    var r := s.(lcache := lcache, points := s.points[p := Point(s.made, true, n)], made := s.made + 1);
    forall m | m in r.nodes ensures ListOk(r.points, r.nodes[m].cblist, m) {
      assert ListOk(s.points, s.nodes[m].cblist, m);
      ListFrame(s.points, r.points, r.nodes[m].cblist, m, p);
    }
    ListFrame(s.points, r.points, r.keeplist, 0, p);
    forall q | q in r.points ensures PlaceOk(r, q) {
      if q != p {
        assert PlaceOk(s, q);
      }
    }
    assert r.points.Keys == s.points.Keys + {p};
  }

  // ---------------------------------------------------------------------------
  // The calls keep the invariant
  // ---------------------------------------------------------------------------

  lemma InvMemory(s: Timer)
    requires Inv(s)
    ensures 0 !in s.nodes && 0 !in s.points && CacheOk(s.tcache, s.tsize, s.nodes.Keys) && CacheOk(s.lcache, s.lsize, s.points.Keys)
  {
  }

  /** The new point in hand, before it lands on the node `n`. */
  function InHand(s: Timer, p: Id, n: Id): (r: Timer)
  {
    s.(lcache := Rest(s.lcache), points := s.points[p := Point(s.made, true, n)], made := s.made + 1)
  }

  lemma NewPointIs(s: Timer, ts: int, nodeMem: Id, pointMem: Id)
    ensures var (s1, n) := Obtained(s, ts, nodeMem);
            var p := Taken(s1.lcache, pointMem);
            NewPoint(s, ts, nodeMem, pointMem) ==
              if n == 0 || p == 0 then (s1, 0) else (Landed(InHand(s1, p, n), p), p)
  {
    var (s1, n) := Obtained(s, ts, nodeMem);
    var p := Taken(s1.lcache, pointMem);
    if n != 0 && p != 0 {
      var x := Point(s1.made, false, n);
      assert s1.points[p := Point(s1.made, true, n)][p := x] == s1.points[p := x];
    }
  }

  lemma NewPointOk(s: Timer, ts: int, nodeMem: Id, pointMem: Id)
    requires Inv(s) && (nodeMem != 0 ==> Fresh(nodeMem, s.nodes.Keys, s.tcache)) && (pointMem != 0 ==> Fresh(pointMem, s.points.Keys, s.lcache))
    ensures var (r, p) := NewPoint(s, ts, nodeMem, pointMem);
            && Inv(r)
            && (p == 0 <==> (nodeMem == 0 && s.tcache == []) || (pointMem == 0 && s.lcache == []))
            && (p != 0 ==> p !in s.points && p in r.points && r.points == s.points[p := r.points[p]]
                           && r.points[p].serial == s.made && !r.points[p].running
                           && r.points[p].ref in r.nodes && r.nodes[r.points[p].ref].ts == ts)
  {
    InvMemory(s);
    ObtainedOk(s, ts, nodeMem);
    NewPointIs(s, ts, nodeMem, pointMem);
    hide Inv, Obtained, CacheOk, NewPoint, Fresh;
    var (s1, n) := Obtained(s, ts, nodeMem);
    RestOk(s.lcache, s.lsize, s.points.Keys, pointMem);
    var p := Taken(s.lcache, pointMem);
    if n != 0 && p != 0 {
      PointAdded(s1, p, n, Rest(s.lcache));
      LandedOk(InHand(s1, p, n), p);
    }
  }

  /** The call takes a node away that a running point was reset to. */
  predicate Empties(s: Timer, p: Id, n: Id)
    requires p in s.points && n in s.nodes
  {
    !s.points[p].running && s.points[p].ref == n && s.nodes[n].cblist == [p] && !s.nodes[n].noAutoDel && !NotAwaited(s, n)
  }

  /** What is left of the list of a point's node. */
  lemma LastOne(list: seq<Id>, p: Id)
    requires NoDup(list) && p in list
    ensures Removed(list, p) == [] <==> list == [p]
  {
    if Removed(list, p) == [] {
      RemovedOk(list, p);
      assert forall i :: 0 <= i < |list| ==> list[i] in list;
      assert |list| == 1;
    }
  }

  lemma FreedIsLifted(s: Timer, p: Id)
    requires p in s.points && (s.points[p].ref != 0 ==> s.points[p].ref in s.nodes)
    ensures Freed(Unlinked(s, p), p) == Freed(Lifted(s, p), p)
  {
    assert Unlinked(s, p).points - {p} == Lifted(s, p).points - {p};
  }

  /** A waiting point is in the list of its node, once. */
  lemma InItsList(s: Timer, p: Id)
    requires Inv(s) && p in s.points && !s.points[p].running && s.points[p].ref != 0
    ensures s.points[p].ref in s.nodes && NoDup(s.nodes[s.points[p].ref].cblist) && p in s.nodes[s.points[p].ref].cblist
  {
    assert PlaceOk(s, p);
    assert ListOk(s.points, s.nodes[s.points[p].ref].cblist, s.points[p].ref);
  }

  lemma DelArmed(s: Timer, p: Id, n: Id)
    requires Inv(s) && p in s.points && !s.points[p].running && s.points[p].ref == n && n in s.nodes && n != 0
    ensures Inv(CheckedDel(Freed(Unlinked(s, p), p), n)) <==> !Empties(s, p, n)
  {
    LiftedOk(s, p);
    InItsList(s, p);
    hide Inv;
    FreedOk(Lifted(s, p), p);
    FreedIsLifted(s, p);
    var s1 := Freed(Unlinked(s, p), p);
    CheckedDelOk(s1, n);
    LastOne(s.nodes[n].cblist, p);
    AwaitedWithout(s, s1, p, n);
  }

  lemma AwaitedWithout(s: Timer, r: Timer, p: Id, n: Id)
    requires p in s.points && !s.points[p].running && r.points == s.points - {p}
    ensures NotAwaited(r, n) <==> NotAwaited(s, n)
  {
    if NotAwaited(r, n) {
      forall q | q in s.points && s.points[q].running ensures s.points[q].ref != n {
        assert q in r.points && r.points[q] == s.points[q];
      }
    }
  }

  lemma PlaceIsOk(s: Timer, p: Id)
    requires Inv(s) && p in s.points
    ensures PlaceOk(s, p)
  {
  }

  /** neb_evdp_timer_del_point keeps the invariant exactly if it empties no node that is awaited. */
  lemma DelPointOk(s: Timer, p: Id)
    requires Inv(s) && p in s.points
    ensures PlaceOk(s, p)
    ensures var n := s.points[p].ref; Inv(DelPoint(s, p)) <==> n == 0 || !Empties(s, p, n)
  {
    hide Inv;
    PlaceIsOk(s, p);
    var x := s.points[p];
    if x.running {
      RetargetedOk(s, p, 0);
    } else if x.ref == 0 {
      LiftedOk(s, p);
      FreedOk(Lifted(s, p), p);
      FreedIsLifted(s, p);
    } else {
      DelArmed(s, p, x.ref);
    }
  }

  /** A point in hand moves over to `n`, and its old node goes if nobody is left there. */
  function MovedOver(s: Timer, p: Id, n: Id): (r: Timer)
    requires p in s.points && (s.points[p].ref != 0 ==> s.points[p].ref in s.nodes)
  {
    var s1 := Retargeted(Lifted(s, p), p, n);
    if s.points[p].ref != 0 then CheckedDel(s1, s.points[p].ref) else s1
  }

  /** ResetPoint of a waiting point in elementary steps. */
  lemma ResetIs(s: Timer, p: Id, ts: int, mem: Id)
    requires p in s.points && (s.points[p].ref != 0 ==> s.points[p].ref in s.nodes) && Taken(s.tcache, mem) !in s.nodes
    requires !s.points[p].running && Obtained(s, ts, mem).1 != 0 && s.points[p].ref != Obtained(s, ts, mem).1
    ensures var (s1, n) := Obtained(s, ts, mem);
            var m := MovedOver(s1, p, n);
            && p in m.points && m.points[p].ref == n && n in m.nodes
            && ResetPoint(s, p, ts, mem) == (Landed(m, p), true)
  {
    var (s1, n) := Obtained(s, ts, mem);
    var x := s.points[p];
    var a, b := s1.points[p := x.(running := true)], x.(ref := n);
    assert a[p := a[p].(ref := n)][p := b] == s1.points[p := b];
  }

  lemma MovedOverOk(s: Timer, p: Id, n: Id)
    requires Inv(s) && p in s.points && !s.points[p].running && n in s.nodes && s.points[p].ref != n
    ensures PlaceOk(s, p)
    ensures var was := s.points[p].ref; Inv(MovedOver(s, p, n)) <==> was == 0 || !Empties(s, p, was)
  {
    hide Inv;
    LiftedOk(s, p);
    PlaceIsOk(s, p);
    var was := s.points[p].ref;
    RetargetedOk(Lifted(s, p), p, n);
    var s1 := Retargeted(Lifted(s, p), p, n);
    if was != 0 {
      InItsList(s, p);
      CheckedDelOk(s1, was);
      LastOne(s.nodes[was].cblist, p);
      AwaitedElsewhere(s, s1, p, was);
    }
  }

  lemma AwaitedElsewhere(s: Timer, r: Timer, p: Id, n: Id)
    requires p in s.points && !s.points[p].running && p in r.points && r.points == s.points[p := r.points[p]] && r.points[p].ref != n
    ensures NotAwaited(r, n) <==> NotAwaited(s, n)
  {
    if NotAwaited(r, n) {
      forall q | q in s.points && s.points[q].running ensures s.points[q].ref != n {
        assert q in r.points && r.points[q] == s.points[q];
      }
    }
  }

  /** neb_evdp_timer_point_reset keeps the invariant exactly if it empties no node that is awaited. */
  lemma ResetPointOk(s: Timer, p: Id, ts: int, mem: Id)
    requires Inv(s) && p in s.points && (mem != 0 ==> Fresh(mem, s.nodes.Keys, s.tcache))
    ensures PlaceOk(s, p) && Taken(s.tcache, mem) !in s.nodes
    ensures var n := s.points[p].ref;
            Inv(ResetPoint(s, p, ts, mem).0) <==> n == 0 || !Empties(s, p, n) || s.nodes[n].ts == ts || (mem == 0 && s.tcache == [])
  {
    hide Inv;
    InvMemory(s);
    PlaceIsOk(s, p);
    RestOk(s.tcache, s.tsize, s.nodes.Keys, mem);
    ObtainedOk(s, ts, mem);
    var (s1, n) := Obtained(s, ts, mem);
    var x := s.points[p];
    if n == 0 || x.ref == n {
    } else if x.running {
      RetargetedOk(s1, p, n);
    } else {
      ResetIs(s, p, ts, mem);
      MovedOverOk(s1, p, n);
      ResetMoves(s, s1, p, n);
      if x.ref != 0 && s.nodes[x.ref].ts == ts {
        TimesAreDistinct(s);
        NodeIsUnique(s.nodes, ts, x.ref);
      }
    }
  }

  lemma TimesAreDistinct(s: Timer)
    requires Inv(s)
    ensures DistinctTimes(s.nodes)
  {
  }

  lemma ResetMoves(s: Timer, s1: Timer, p: Id, n: Id)
    requires Inv(s1) && p in s1.points && !s1.points[p].running && n in s1.nodes && n != 0 && s1.points[p].ref != n
    requires s1 == s.(nodes := s1.nodes, tcache := s1.tcache) && NodesGrow(s.nodes, s1.nodes, n)
    requires s.points[p].ref != 0 ==> s.points[p].ref in s.nodes
    requires PlaceOk(s1, p)
    ensures var m, was := MovedOver(s1, p, n), s1.points[p].ref;
            && (Inv(Landed(m, p)) <==> Inv(m))
            && (was != 0 ==> (Empties(s1, p, was) <==> Empties(s, p, was)))
  {
    var m, was := MovedOver(s1, p, n), s1.points[p].ref;
    if Inv(m) {
      LandedOk(m, p);
    } else {
      MovedOverOk(s1, p, n);
      var q :| q in s1.points && s1.points[q].running && s1.points[q].ref == was;
      InItsList(s1, p);
      LastOne(s1.nodes[was].cblist, p);
      assert was !in m.nodes;
      assert !PlaceOk(Landed(m, p), q);
    }
    if was != 0 {
      assert NotAwaited(s1, was) <==> NotAwaited(s, was);
    }
  }
}
