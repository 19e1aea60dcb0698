/**
 What the calls of src/evdp/timer.c and the steps of a pass leave behind, field by field: which
 node stands in the tree with which list, and what is in the caches and in the keep list.
 */
module TimerEffect {
  import opened Common
  import opened TimerState
  import opened TimerRun

  // ---------------------------------------------------------------------------
  // Caches and lists
  // ---------------------------------------------------------------------------

  /** `x` comes from the end of the cache, or from calloc if the cache is empty. */
  ghost predicate Got(cache: seq<Id>, mem: Id, cache': seq<Id>, x: Id)
  {
    if cache == [] then x == mem && cache' == [] else cache == cache' + [x]
  }

  /** `x` is the last entry of the cache exactly if there was room; the others stay. */
  ghost predicate GivenBack(cache: seq<Id>, size: nat, x: Id, cache': seq<Id>)
  {
    if |cache| < size then cache' == cache + [x] else cache' == cache
  }

  /** The list has lost `p`; all others are there, in the same order. */
  ghost predicate Without(list: seq<Id>, p: Id, list': seq<Id>)
  {
    exists i :: CutAt(list, p, i, list')
  }

  ghost predicate CutAt(list: seq<Id>, p: Id, i: nat, list': seq<Id>)
  {
    i < |list| && list[i] == p && list' == list[..i] + list[i + 1..]
  }

  lemma CutBehind(x: Id, rest: seq<Id>, p: Id, i: nat, list': seq<Id>)
    requires CutAt(rest, p, i, list')
    ensures CutAt([x] + rest, p, i + 1, [x] + list')
  {
    var list := [x] + rest;
    assert list[..i + 1] == [x] + rest[..i];
    assert list[i + 2..] == rest[i + 1..];
  }

  lemma {:induction false} RemovedAt(list: seq<Id>, p: Id) returns (i: nat)
    requires p in list
    ensures CutAt(list, p, i, Removed(list, p))
  {
    if list[0] == p {
      i := 0;
    } else {
      var rest := list[1..];
      i := RemovedAt(rest, p);
      assert list == [list[0]] + rest;
      CutBehind(list[0], rest, p, i, Removed(rest, p));
      i := i + 1;
    }
  }

  lemma RemovedIsWithout(list: seq<Id>, p: Id)
    requires p in list
    ensures Without(list, p, Removed(list, p))
  {
    var i := RemovedAt(list, p);
  }

  // ---------------------------------------------------------------------------
  // The node for a time
  // ---------------------------------------------------------------------------

  /** The cache after a node was asked for: unless it is used, it goes back to where it came from. */
  ghost predicate NodeCache(s: Timer, mem: Id, n: Id, cache: seq<Id>)
  {
    if n in s.nodes then
      if s.tcache != [] then cache == s.tcache else GivenBack([], s.tsize, mem, cache)
    else Got(s.tcache, mem, cache, n)
  }

  /** `n` is the node of this time, or a new one if there is none. */
  ghost predicate NodeOf(s: Timer, ts: int, n: Id)
  {
    if n in s.nodes then s.nodes[n].ts == ts else n != 0 && forall m :: m in s.nodes ==> s.nodes[m].ts != ts
  }

  /** Its points, before the call. */
  function Points(nodes: map<Id, TNode>, n: Id): (list: seq<Id>)
  {
    if n in nodes then nodes[n].cblist else []
  }

  function Flag(nodes: map<Id, TNode>, n: Id): (flag: bool)
  {
    n in nodes && nodes[n].noAutoDel
  }

  lemma ObtainedEffect(s: Timer, ts: int, mem: Id)
    requires Inv(s) && (mem != 0 ==> Fresh(mem, s.nodes.Keys, s.tcache)) && (mem != 0 || s.tcache != [])
    ensures var (r, n) := Obtained(s, ts, mem);
            && NodeOf(s, ts, n) && NodeCache(s, mem, n, r.tcache)
            && r == s.(nodes := s.nodes[n := TNode(ts, Points(s.nodes, n), Flag(s.nodes, n))], tcache := r.tcache)
  {
    InvMemory(s);
    RestOk(s.tcache, s.tsize, s.nodes.Keys, mem);
    var x := Taken(s.tcache, mem);
    if HasTime(s.nodes, ts) {
      var n := NodeAt(s.nodes, ts);
      assert s.nodes[n := s.nodes[n]] == s.nodes;
      assert s.tcache != [] ==> Rest(s.tcache) + [x] == s.tcache;
    } else {
      assert s.tcache != [] ==> s.tcache == Rest(s.tcache) + [x];
    }
    hide Inv;
  }

  // ---------------------------------------------------------------------------
  // new_point
  // ---------------------------------------------------------------------------

  /** The new point is the head of the list of the node of its time. */
  ghost predicate NewEffect(s: Timer, ts: int, nodeMem: Id, pointMem: Id, r: Timer, p: Id)
  {
    var n := if p in r.points then r.points[p].ref else 0;
    && NodeOf(s, ts, n) && NodeCache(s, nodeMem, n, r.tcache) && Got(s.lcache, pointMem, r.lcache, p)
    && r.nodes == s.nodes[n := TNode(ts, [p] + Points(s.nodes, n), Flag(s.nodes, n))]
    && r.points == s.points[p := Point(s.made, false, n)] && r.made == s.made + 1
    && r.keeplist == s.keeplist && r.tsize == s.tsize && r.lsize == s.lsize
  }

  /** Without memory for the point only its node, if it is new, stays behind. */
  ghost predicate NoPointEffect(s: Timer, ts: int, nodeMem: Id, r: Timer)
  {
    exists n :: NodeOf(s, ts, n) && NodeCache(s, nodeMem, n, r.tcache)
                && r == s.(tcache := r.tcache, nodes := s.nodes[n := TNode(ts, Points(s.nodes, n), Flag(s.nodes, n))])
  }

  lemma NewPointEffect(s: Timer, ts: int, nodeMem: Id, pointMem: Id)
    requires Inv(s) && Live(s, New(ts, nodeMem, pointMem))
    ensures var (r, p) := NewPoint(s, ts, nodeMem, pointMem);
            if nodeMem == 0 && s.tcache == [] then p == 0 && r == s
            else if pointMem == 0 && s.lcache == [] then p == 0 && NoPointEffect(s, ts, nodeMem, r)
            else p != 0 && p !in s.points && NewEffect(s, ts, nodeMem, pointMem, r, p)
  {
    NewPointOk(s, ts, nodeMem, pointMem);
    ObtainedOk(s, ts, nodeMem);
    NewPointIs(s, ts, nodeMem, pointMem);
    hide Inv, Obtained, NodeOf, NodeCache, Fresh, NewPoint, InHand, Landed;
    if nodeMem != 0 || s.tcache != [] {
      ObtainedEffect(s, ts, nodeMem);
      var (s1, n) := Obtained(s, ts, nodeMem);
      var p := NewPoint(s, ts, nodeMem, pointMem).1;
      if p != 0 {
        NewInHand(s, s1, ts, nodeMem, pointMem, p, n);
      }
    }
  }

  lemma NewInHand(s: Timer, s1: Timer, ts: int, nodeMem: Id, pointMem: Id, p: Id, n: Id)
    requires NodeOf(s, ts, n) && NodeCache(s, nodeMem, n, s1.tcache) && p == Taken(s.lcache, pointMem) && n != 0
    requires s1 == s.(nodes := s.nodes[n := TNode(ts, Points(s.nodes, n), Flag(s.nodes, n))], tcache := s1.tcache)
    ensures NewEffect(s, ts, nodeMem, pointMem, Landed(InHand(s1, p, n), p), p)
  {
    hide NodeOf, NodeCache;
    assert s.lcache != [] ==> s.lcache == Rest(s.lcache) + [p];
    var x, list := Point(s.made, false, n), [p] + Points(s.nodes, n);
    assert s.points[p := Point(s.made, true, n)][p := x] == s.points[p := x];
    assert s.nodes[n := TNode(ts, Points(s.nodes, n), Flag(s.nodes, n))][n := TNode(ts, list, Flag(s.nodes, n))]
        == s.nodes[n := TNode(ts, list, Flag(s.nodes, n))];
  }

  // ---------------------------------------------------------------------------
  // del_point
  // ---------------------------------------------------------------------------

  /** From `nodes` to `nodes'` the point `p` leaves its node `n`; the node goes with its last point unless it is flagged. */
  ghost predicate LeavesNode(s: Timer, p: Id, n: Id, nodes: map<Id, TNode>)
    requires n in s.nodes
  {
    if s.nodes[n].cblist == [p] && !s.nodes[n].noAutoDel then n !in nodes
    else n in nodes && nodes[n].ts == s.nodes[n].ts && nodes[n].noAutoDel == s.nodes[n].noAutoDel
         && Without(s.nodes[n].cblist, p, nodes[n].cblist)
  }

  ghost predicate DelEffect(s: Timer, p: Id, r: Timer)
    requires p in s.points
  {
    var n := s.points[p].ref;
    && r.made == s.made && r.tsize == s.tsize && r.lsize == s.lsize
    && if s.points[p].running then r == s.(points := s.points[p := s.points[p].(ref := 0)])
       else
         && r.points == s.points - {p} && GivenBack(s.lcache, s.lsize, p, r.lcache)
         && if n == 0 then Without(s.keeplist, p, r.keeplist) && r.nodes == s.nodes && r.tcache == s.tcache
            else
              && n in s.nodes && r.keeplist == s.keeplist && LeavesNode(s, p, n, r.nodes) && r.nodes - {n} == s.nodes - {n}
              && if n in r.nodes then r.tcache == s.tcache else GivenBack(s.tcache, s.tsize, n, r.tcache)
  }

  lemma InKeepList(s: Timer, p: Id)
    requires Inv(s) && p in s.points && !s.points[p].running && s.points[p].ref == 0
    ensures p in s.keeplist
  {
    assert PlaceOk(s, p);
  }

  lemma DelPointEffect(s: Timer, p: Id)
    requires Inv(s) && p in s.points
    ensures PlaceOk(s, p) && DelEffect(s, p, DelPoint(s, p))
  {
    PlaceIsOk(s, p);
    var n := s.points[p].ref;
    if !s.points[p].running {
      if n == 0 {
        InKeepList(s, p);
        DelKept(s, p);
      } else {
        InItsList(s, p);
        DelWaiting(s, p, n);
      }
    }
    hide Inv, LeavesNode, Without;
  }

  lemma DelKept(s: Timer, p: Id)
    requires p in s.points && !s.points[p].running && s.points[p].ref == 0 && p in s.keeplist
    ensures DelEffect(s, p, DelPoint(s, p))
  {
    RemovedIsWithout(s.keeplist, p);
    hide Without, Removed;
  }

  lemma DelWaiting(s: Timer, p: Id, n: Id)
    requires p in s.points && !s.points[p].running && s.points[p].ref == n && n != 0 && n in s.nodes
    requires NoDup(s.nodes[n].cblist) && p in s.nodes[n].cblist
    ensures DelEffect(s, p, DelPoint(s, p))
  {
    RemovedIsWithout(s.nodes[n].cblist, p);
    LastOne(s.nodes[n].cblist, p);
    hide Without, Removed, NoDup;
    var r := DelPoint(s, p);
    assert r.nodes - {n} == s.nodes - {n};
  }

  // ---------------------------------------------------------------------------
  // point_reset
  // ---------------------------------------------------------------------------

  /** A waiting point goes over from its node, or from the keep list, to the head of the list of `n`. */
  ghost predicate MoveEffect(s: Timer, p: Id, ts: int, n: Id, cache: seq<Id>, r: Timer)
    requires p in s.points
  {
    var was := s.points[p].ref;
    && n in r.nodes && r.nodes[n] == TNode(ts, [p] + Points(s.nodes, n), Flag(s.nodes, n))
    && if was == 0 then Without(s.keeplist, p, r.keeplist) && r.nodes - {n} == s.nodes - {n} && r.tcache == cache
       else
         && was in s.nodes && r.keeplist == s.keeplist && LeavesNode(s, p, was, r.nodes)
         && r.nodes - {n} - {was} == s.nodes - {n} - {was}
         && if was in r.nodes then r.tcache == cache else GivenBack(cache, s.tsize, was, r.tcache)
  }

  ghost predicate ResetEffect(s: Timer, p: Id, ts: int, mem: Id, r: Timer)
    requires p in s.points
  {
    var n := if p in r.points then r.points[p].ref else 0;
    && NodeOf(s, ts, n) && r.points == s.points[p := s.points[p].(ref := n)]
    && r.made == s.made && r.lcache == s.lcache && r.tsize == s.tsize && r.lsize == s.lsize
    && if s.points[p].running || s.points[p].ref == n then
         && r.keeplist == s.keeplist && NodeCache(s, mem, n, r.tcache)
         && r.nodes == s.nodes[n := TNode(ts, Points(s.nodes, n), Flag(s.nodes, n))]
       else exists cache :: NodeCache(s, mem, n, cache) && MoveEffect(s, p, ts, n, cache, r)
  }

  lemma ResetPointEffect(s: Timer, p: Id, ts: int, mem: Id)
    requires Inv(s) && Live(s, Reset(p, ts, mem))
    ensures PlaceOk(s, p) && Taken(s.tcache, mem) !in s.nodes
    ensures var (r, ok) := ResetPoint(s, p, ts, mem);
            && (ok <==> mem != 0 || s.tcache != [])
            && if ok then ResetEffect(s, p, ts, mem, r) else r == s
  {
    ResetPointOk(s, p, ts, mem);
    ResetPointMeans(s, p, ts, mem);
    InvMemory(s);
    if mem != 0 || s.tcache != [] {
      ObtainedEffect(s, ts, mem);
      ObtainedOk(s, ts, mem);
      var (s1, n) := Obtained(s, ts, mem);
      var x := s.points[p];
      if x.ref == n || x.running {
        ResetInPlace(s, p, ts, mem);
      } else {
        ResetElsewhere(s, p, ts, mem);
      }
    }
  }

  lemma ResetInPlace(s: Timer, p: Id, ts: int, mem: Id)
    requires Inv(s) && p in s.points && PlaceOk(s, p) && Taken(s.tcache, mem) !in s.nodes
    requires var (s1, n) := Obtained(s, ts, mem);
             && n != 0 && (s.points[p].ref == n || s.points[p].running) && NodeOf(s, ts, n) && NodeCache(s, mem, n, s1.tcache)
             && s1 == s.(nodes := s.nodes[n := TNode(ts, Points(s.nodes, n), Flag(s.nodes, n))], tcache := s1.tcache)
    ensures ResetEffect(s, p, ts, mem, ResetPoint(s, p, ts, mem).0)
  {
    hide Inv, NodeCache, Obtained;
    var (s1, n) := Obtained(s, ts, mem);
    var r := ResetPoint(s, p, ts, mem).0;
    assert s.points[p].ref == n ==> HasTime(s.nodes, ts);
    assert s.points[p].ref == n ==> s.points[p := s.points[p].(ref := n)] == s.points;
    assert r == s1.(points := s.points[p := s.points[p].(ref := n)]);
  }

  lemma ResetElsewhere(s: Timer, p: Id, ts: int, mem: Id)
    requires Inv(s) && p in s.points && PlaceOk(s, p) && Taken(s.tcache, mem) !in s.nodes
    requires var (s1, n) := Obtained(s, ts, mem);
             && n != 0 && s.points[p].ref != n && !s.points[p].running && NodeOf(s, ts, n) && NodeCache(s, mem, n, s1.tcache)
             && s1 == s.(nodes := s.nodes[n := TNode(ts, Points(s.nodes, n), Flag(s.nodes, n))], tcache := s1.tcache)
    ensures ResetEffect(s, p, ts, mem, ResetPoint(s, p, ts, mem).0)
  {
    var (s1, n) := Obtained(s, ts, mem);
    var r := ResetPoint(s, p, ts, mem).0;
    ResetIs(s, p, ts, mem);
    if s.points[p].ref == 0 {
      InKeepList(s, p);
      hide Inv, NodeOf, NodeCache, Obtained, ResetPoint, Landed, MovedOver;
      FromKeepList(s, s1, p, ts, n);
    } else {
      InItsList(s, p);
      hide Inv, NodeOf, NodeCache, Obtained, ResetPoint, Landed, MovedOver;
      FromNode(s, s1, p, ts, n);
    }
    assert NodeCache(s, mem, n, s1.tcache) && MoveEffect(s, p, ts, n, s1.tcache, r);
  }

  lemma FromKeepList(s: Timer, s1: Timer, p: Id, ts: int, n: Id)
    requires p in s.points && !s.points[p].running && s.points[p].ref == 0 && p in s.keeplist && n != 0
    requires s1 == s.(nodes := s.nodes[n := TNode(ts, Points(s.nodes, n), Flag(s.nodes, n))], tcache := s1.tcache)
    ensures var m := MovedOver(s1, p, n); p in m.points && m.points[p].ref == n && n in m.nodes
    ensures Moves(s, Landed(MovedOver(s1, p, n), p), p, ts, n, s1.tcache)
  {
    RemovedIsWithout(s.keeplist, p);
    hide Without, Removed;
  }

  ghost predicate Moves(s: Timer, r: Timer, p: Id, ts: int, n: Id, cache: seq<Id>)
    requires p in s.points
  {
    && MoveEffect(s, p, ts, n, cache, r) && r.points == s.points[p := s.points[p].(ref := n)]
    && r.made == s.made && r.lcache == s.lcache && r.tsize == s.tsize && r.lsize == s.lsize
  }

  /** The nodes after `p` has left its node. */
  function WithoutPoint(nodes: map<Id, TNode>, p: Id, n: Id): (r: map<Id, TNode>)
    requires n in nodes
  {
    if nodes[n].cblist == [p] && !nodes[n].noAutoDel then nodes - {n}
    else nodes[n := TNode(nodes[n].ts, Removed(nodes[n].cblist, p), nodes[n].noAutoDel)]
  }

  /** The point in hand, having left its node, with the cache after that. */
  lemma OutOfNode(s: Timer, p: Id, n: Id)
    requires p in s.points && !s.points[p].running && s.points[p].ref != 0 && s.points[p].ref in s.nodes
    requires NoDup(s.nodes[s.points[p].ref].cblist) && p in s.nodes[s.points[p].ref].cblist
    ensures var m, was := MovedOver(s, p, n), s.points[p].ref;
            && m == s.(nodes := WithoutPoint(s.nodes, p, was), points := s.points[p := Point(s.points[p].serial, true, n)], tcache := m.tcache)
            && if was in m.nodes then m.tcache == s.tcache else GivenBack(s.tcache, s.tsize, was, m.tcache)
  {
    LastOne(s.nodes[s.points[p].ref].cblist, p);
    hide NoDup, Removed;
    var was, x := s.points[p].ref, s.points[p];
    assert s.points[p := x.(running := true)][p := Point(x.serial, true, n)] == s.points[p := Point(x.serial, true, n)];
    assert s.nodes[was := s.nodes[was].(cblist := [])] - {was} == s.nodes - {was};
  }

  lemma FromNode(s: Timer, s1: Timer, p: Id, ts: int, n: Id)
    requires p in s.points && !s.points[p].running && s.points[p].ref != 0 && s.points[p].ref in s.nodes && n != 0 && n != s.points[p].ref
    requires NoDup(s.nodes[s.points[p].ref].cblist) && p in s.nodes[s.points[p].ref].cblist
    requires s1 == s.(nodes := s.nodes[n := TNode(ts, Points(s.nodes, n), Flag(s.nodes, n))], tcache := s1.tcache)
    ensures var m := MovedOver(s1, p, n); p in m.points && m.points[p].ref == n && n in m.nodes
    ensures Moves(s, Landed(MovedOver(s1, p, n), p), p, ts, n, s1.tcache)
  {
    var was, x := s.points[p].ref, s.points[p];
    OutOfNode(s1, p, n);
    RemovedIsWithout(s.nodes[was].cblist, p);
    hide Without, NoDup, Removed, MovedOver, GivenBack;
    var r := Landed(MovedOver(s1, p, n), p);
    assert s.points[p := Point(x.serial, true, n)][p := x.(ref := n)] == s.points[p := x.(ref := n)];
    assert r.nodes - {n} - {was} == s.nodes - {n} - {was};
  }

  /** What a call does, inside a callback or outside. */
  ghost predicate CallEffect(s: Timer, c: Call, r: Timer)
  {
    match c
    case New(ts, nm, pm) =>
      if nm == 0 && s.tcache == [] then r == s
      else if pm == 0 && s.lcache == [] then NoPointEffect(s, ts, nm, r)
      else exists p :: p != 0 && p !in s.points && NewEffect(s, ts, nm, pm, r, p)
    case Del(p) => p in s.points && DelEffect(s, p, r)
    case Reset(p, ts, nm) => p in s.points && if nm == 0 && s.tcache == [] then r == s else ResetEffect(s, p, ts, nm, r)
  }

  lemma ExecEffect(s: Timer, c: Call)
    requires Inv(s) && Live(s, c)
    ensures Defined(s, c) && CallEffect(s, c, Exec(s, c))
  {
    ExecOk(s, c);
    hide Inv, NewEffect, NoPointEffect, DelEffect, ResetEffect, NewPoint, ResetPoint;
    match c
    case New(ts, nm, pm) => NewPointEffect(s, ts, nm, pm);
    case Del(p) => DelPointEffect(s, p);
    case Reset(p, ts, nm) => ResetPointEffect(s, p, ts, nm);
  }

  // ---------------------------------------------------------------------------
  // The steps of a pass
  // ---------------------------------------------------------------------------

  /** The head of the list leaves it and is in its callback. */
  lemma LiftedEffect(s: Timer, n: Id)
    requires Inv(s) && n in s.nodes && s.nodes[n].cblist != []
    ensures var p, list := s.nodes[n].cblist[0], s.nodes[n].cblist;
            && p in s.points && PlaceOk(s, p)
            && Lifted(s, p) == s.(points := s.points[p := Point(s.points[p].serial, true, n)],
                                  nodes := s.nodes[n := TNode(s.nodes[n].ts, list[1..], s.nodes[n].noAutoDel)])
  {
    var p := s.nodes[n].cblist[0];
    assert p in s.nodes[n].cblist;
    InList(s, p, n);
    PlaceIsOk(s, p);
    InvMemory(s);
    hide Inv;
  }

  /** After its callback a point is given back, or it becomes the head of the keep list or of the list of its new node. */
  ghost predicate ReturnEffect(s: Timer, p: Id, tn: Id, code: Code, r: Timer)
    requires p in s.points
  {
    var x, n := s.points[p], s.points[p].ref;
    && r.tcache == s.tcache && r.tsize == s.tsize && r.lsize == s.lsize && r.made == s.made
    && if n == 0 || code == Free then
         r.points == s.points - {p} && r.nodes == s.nodes && r.keeplist == s.keeplist && GivenBack(s.lcache, s.lsize, p, r.lcache)
       else if n == tn then
         && r.points == s.points[p := Point(x.serial, false, 0)] && r.keeplist == [p] + s.keeplist
         && r.nodes == s.nodes && r.lcache == s.lcache
       else
         && n in s.nodes && r.points == s.points[p := Point(x.serial, false, n)] && r.keeplist == s.keeplist && r.lcache == s.lcache
         && r.nodes == s.nodes[n := TNode(s.nodes[n].ts, [p] + s.nodes[n].cblist, s.nodes[n].noAutoDel)]
  }

  lemma ReturnedEffect(s: Timer, p: Id, tn: Id, code: Code)
    requires p in s.points && (s.points[p].ref != 0 ==> s.points[p].ref in s.nodes)
    ensures ReturnEffect(s, p, tn, code, Returned(s, p, tn, code))
  {
    var x := s.points[p];
    assert s.points[p := x.(ref := 0)][p := Point(x.serial, false, 0)] == s.points[p := Point(x.serial, false, 0)];
  }

  /** A node that is done leaves the tree for the cache. */
  ghost predicate LeaveEffect(s: Timer, n: Id, r: Timer)
  {
    && r.nodes == s.nodes - {n} && GivenBack(s.tcache, s.tsize, n, r.tcache)
    && r == s.(nodes := r.nodes, tcache := r.tcache)
  }

  lemma NodeDoneEffect(s: Timer, n: Id, flag: bool)
    requires n in s.nodes
    ensures LeaveEffect(s, n, NodeDone(s.(nodes := s.nodes[n := s.nodes[n].(noAutoDel := flag)]), n))
  {
    assert s.nodes[n := s.nodes[n].(noAutoDel := flag)] - {n} == s.nodes - {n};
  }
}
