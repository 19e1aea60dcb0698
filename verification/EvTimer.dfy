/** The timer object of src/evdp/timer.c: its calls, and the pass that fires what is due. */
module EvTimer {
  import opened TimerState
  import opened TimerRun
  import opened TimerPass
  import opened TimerEffect

  class EvTimer {
    const tsize: nat
    const lsize: nat
    var nodes: map<Id, TNode>
    var points: map<Id, Point>
    var keeplist: seq<Id>
    var tcache: seq<Id>
    var lcache: seq<Id>
    /** Number of points made so far. */
    var made: nat

    ghost function State(): (s: Timer)
      reads this
    {
      Timer(nodes, points, keeplist, tcache, tsize, lcache, lsize, made)
    }

    /** neb_evdp_timer_create. */
    constructor (tcacheSize: nat, lcacheSize: nat)
      ensures Inv(State()) && NoneRunning(State()) && points == map[] && nodes == map[]
      ensures keeplist == [] && tcache == [] && lcache == [] && made == 0
      ensures tsize == tcacheSize && lsize == lcacheSize
    {
      tsize, lsize := tcacheSize, lcacheSize;
      nodes, points, keeplist, tcache, lcache, made := map[], map[], [], [], [], 0;
    }

    // -------------------------------------------------------------------------
    // Memory
    // -------------------------------------------------------------------------

    /** evdp_timer_rbtree_node_new; zero without memory. */
    method NodeNew(mem: Id) returns (n: Id)
      modifies this`tcache
      ensures n == Taken(old(tcache), mem) && tcache == Rest(old(tcache)) && Got(old(tcache), mem, tcache, n)
    {
      if |tcache| > 0 {
        n := tcache[|tcache| - 1];
        tcache := tcache[..|tcache| - 1];
      } else {
        n := mem;
      }
    }

    /** evdp_timer_rbtree_node_del of a node without points. */
    method NodeDel(n: Id)
      modifies this`tcache
      ensures tcache == Recycled(old(tcache), tsize, n) && GivenBack(old(tcache), tsize, n, tcache)
    {
      if |tcache| < tsize {
        tcache := tcache + [n];
      }
    }

    /** evdp_timer_cblist_node_new; zero without memory. */
    method PointNew(mem: Id) returns (p: Id)
      modifies this`lcache
      ensures p == Taken(old(lcache), mem) && lcache == Rest(old(lcache)) && Got(old(lcache), mem, lcache, p)
    {
      if |lcache| > 0 {
        p := lcache[|lcache| - 1];
        lcache := lcache[..|lcache| - 1];
      } else {
        p := mem;
      }
    }

    /** evdp_timer_cblist_node_free. */
    method PointFree(p: Id)
      modifies this`lcache, this`points
      ensures State() == Freed(old(State()), p) && GivenBack(old(lcache), lsize, p, lcache)
    {
      points := points - {p};
      if |lcache| < lsize {
        lcache := lcache + [p];
      }
    }

    /** rb_tree_insert_node: the node of this time that is in the tree afterwards. */
    method InsertNode(tn: Id, ts: int) returns (tmp: Id)
      requires DistinctTimes(nodes)
      modifies this`nodes
      ensures HasTime(old(nodes), ts) ==> tmp == NodeAt(old(nodes), ts) && nodes == old(nodes)
      ensures !HasTime(old(nodes), ts) ==> tmp == tn && nodes == old(nodes)[tn := TNode(ts, [], false)]
    {
      if n :| n in nodes && nodes[n].ts == ts {
        NodeIsUnique(nodes, ts, n);
        return n;
      }
      nodes := nodes[tn := TNode(ts, [], false)];
      return tn;
    }

    /** The first lines of new_point and point_reset: the node for a time, or zero without memory. */
    method Obtain(ts: int, mem: Id) returns (tn: Id, existed: bool)
      requires Inv(State()) && Taken(tcache, mem) !in nodes
      modifies this`nodes, this`tcache
      ensures (State(), tn) == Obtained(old(State()), ts, mem)
      ensures tn != 0 ==> existed == HasTime(old(nodes), ts)
    {
      tn := NodeNew(mem);
      if tn == 0 {
        return 0, false;
      }
      var tmp := InsertNode(tn, ts);
      existed := tmp != tn;
      if existed {
        NodeDel(tn);
        tn := tmp;
      }
    }

    /** evdp_timer_rbtree_node_check_del. */
    method CheckDel(n: Id)
      requires n in nodes
      modifies this`nodes, this`tcache
      ensures State() == CheckedDel(old(State()), n)
      ensures n !in nodes <==> old(nodes[n].cblist) == [] && !old(nodes[n].noAutoDel)
    {
      if nodes[n].noAutoDel {
        return;
      }
      if nodes[n].cblist == [] {
        nodes := nodes - {n};
        NodeDel(n);
      }
    }

    /** LIST_INSERT_HEAD on the list of a node. */
    method PushList(n: Id, p: Id)
      requires n in nodes
      modifies this`nodes
      ensures State() == SetList(old(State()), n, [p] + old(nodes[n].cblist))
    {
      nodes := nodes[n := nodes[n].(cblist := [p] + nodes[n].cblist)];
    }

    /** LIST_REMOVE. */
    method Unlink(p: Id)
      requires p in points && (points[p].ref != 0 ==> points[p].ref in nodes)
      modifies this`nodes, this`keeplist
      ensures State() == Unlinked(old(State()), p)
    {
      var n := points[p].ref;
      if n == 0 {
        keeplist := Removed(keeplist, p);
      } else {
        nodes := nodes[n := nodes[n].(cblist := Removed(nodes[n].cblist, p))];
      }
    }

    // -------------------------------------------------------------------------
    // The calls
    // -------------------------------------------------------------------------

    /** neb_evdp_timer_new_point. */
    method NewPoint(ts: int, nodeMem: Id, pointMem: Id) returns (p: Id)
      requires Inv(State()) && Live(State(), New(ts, nodeMem, pointMem))
      modifies this
      ensures (State(), p) == TimerState.NewPoint(old(State()), ts, nodeMem, pointMem)
      ensures Inv(State())
      ensures if nodeMem == 0 && old(tcache) == [] then p == 0 && State() == old(State())
              else if pointMem == 0 && old(lcache) == [] then p == 0 && NoPointEffect(old(State()), ts, nodeMem, State())
              else p != 0 && p !in old(points) && NewEffect(old(State()), ts, nodeMem, pointMem, State(), p)
    {
      hide Inv, Fresh, Obtained, HasTime, NewEffect, NoPointEffect;
      NewPointKeeps(State(), ts, nodeMem, pointMem);
      NewPointEffect(State(), ts, nodeMem, pointMem);
      MemoryIsUnused(State(), nodeMem);
      NoZeroCached(State());
      var tn, existed := Obtain(ts, nodeMem);
      if tn == 0 {
        return 0;
      }
      p := PointNew(pointMem);
      if p == 0 {
        return;
      }
      points := points[p := Point(made, false, tn)];
      made := made + 1;
      PushList(tn, p);
    }

    /** neb_evdp_timer_del_point. */
    method DelPoint(p: Id)
      requires Inv(State()) && p in points
      modifies this
      ensures State() == (PlaceIsOk(old(State()), p); TimerState.DelPoint(old(State()), p))
      ensures DelEffect(old(State()), p, State())
    {
      DelPointEffect(State(), p);
      hide Inv, DelEffect;
      var tn := points[p].ref;
      if points[p].running {
        points := points[p := points[p].(ref := 0)];
        return;
      }
      Unlink(p);
      PointFree(p);
      if tn != 0 {
        CheckDel(tn);
      }
    }

    /** neb_evdp_timer_point_reset. */
    method ResetPoint(p: Id, ts: int, mem: Id) returns (ok: bool)
      requires Inv(State()) && Live(State(), Reset(p, ts, mem))
      modifies this
      ensures (State(), ok) == (ResetPointOk(old(State()), p, ts, mem); TimerState.ResetPoint(old(State()), p, ts, mem))
      ensures ok <==> mem != 0 || old(tcache) != []
      ensures if ok then ResetEffect(old(State()), p, ts, mem, State()) else State() == old(State())
    {
      ResetPointEffect(State(), p, ts, mem);
      hide Inv, Fresh, ResetEffect;
      ResetPointOk(State(), p, ts, mem);
      MemoryIsUnused(State(), mem);
      var tn, existed := Obtain(ts, mem);
      if tn == 0 {
        return false;
      }
      if existed && points[p].ref == tn {
        return true;
      }
      if points[p].running {
        points := points[p := points[p].(ref := tn)];
      } else {
        Relist(p, tn);
      }
      return true;
    }

    /** A waiting point leaves its list, and its node if that is empty then, for the list of `tn`. */
    method Relist(p: Id, tn: Id)
      requires p in points && !points[p].running && (points[p].ref != 0 ==> points[p].ref in nodes)
      requires tn in nodes && tn != points[p].ref
      modifies this
      ensures var s, x := Unlinked(old(State()), p), old(points[p]);
              && p in s.points && (x.ref != 0 ==> x.ref in s.nodes)
              && var s' := if x.ref != 0 then CheckedDel(s, x.ref) else s;
              && tn in s'.nodes
              && State() == SetList(s'.(points := s'.points[p := x.(ref := tn)]), tn, [p] + s'.nodes[tn].cblist)
    {
      var before := points[p].ref;
      Unlink(p);
      if before != 0 {
        CheckDel(before);
      }
      points := points[p := points[p].(ref := tn)];
      PushList(tn, p);
    }

    /** One call of a callback. */
    method Perform(c: Call)
      requires Inv(State()) && Live(State(), c)
      modifies this
      ensures Defined(old(State()), c) && State() == Exec(old(State()), c) && CallEffect(old(State()), c, State())
    {
      ExecEffect(State(), c);
      hide Inv, CallEffect;
      match c {
        case New(ts, nm, pm) =>
          var _ := NewPoint(ts, nm, pm);
        case Del(p) =>
          DelPoint(p);
        case Reset(p, ts, nm) =>
          var _ := ResetPoint(p, ts, nm);
      }
    }

    // -------------------------------------------------------------------------
    // evdp_timer_fetch_neareast_ts
    // -------------------------------------------------------------------------

    /** RB_TREE_MIN. */
    method First() returns (n: Id)
      requires Inv(State())
      ensures IsMin(nodes, n)
    {
      InvMemory(State());
      if nodes == map[] {
        return 0;
      }
      n := LeastOf(nodes.Keys);
    }

    /** RB_TREE_NEXT. */
    method NextNode(tn: Id) returns (n: Id)
      requires Inv(State()) && tn in nodes
      ensures IsNext(nodes, nodes[tn].ts, n)
    {
      InvMemory(State());
      var later := set m | m in nodes && nodes[m].ts > nodes[tn].ts;
      if later == {} {
        assert forall m :: m in nodes ==> m !in later;
        return 0;
      }
      n := LeastOf(later);
      assert forall m :: m in nodes && nodes[m].ts > nodes[tn].ts ==> m in later;
    }

    /** The earliest of some nodes. */
    method LeastOf(s: set<Id>) returns (n: Id)
      requires s != {} && s <= nodes.Keys
      ensures n in s && forall m :: m in s ==> nodes[m].ts >= nodes[n].ts
    {
      n :| n in s;
      var left := s - {n};
      while left != {}
        invariant n in s && left <= s && forall m :: m in s && m !in left ==> nodes[m].ts >= nodes[n].ts
        decreases |left|
      {
        var m :| m in left;
        if nodes[m].ts < nodes[n].ts {
          n := m;
        }
        left := left - {m};
      }
    }

    /** evdp_timer_fetch_neareast_ts: how long to wait for the earliest node, zero if it is due, -1 if there is none. */
    method Nearest(now: int) returns (wait: int)
      requires Inv(State())
      ensures wait >= -1
      ensures wait == -1 <==> nodes == map[]
      ensures wait == 0 <==> exists n :: n in nodes && nodes[n].ts <= now
      ensures wait > 0 ==> (exists n :: n in nodes && nodes[n].ts == now + wait) && forall n :: n in nodes ==> nodes[n].ts >= now + wait
    {
      InvMemory(State());
      hide Inv;
      var n := First();
      if n == 0 {
        return -1;
      }
      if nodes[n].ts <= now {
        return 0;
      }
      return nodes[n].ts - now;
    }

    // -------------------------------------------------------------------------
    // evdp_timer_run_until
    // -------------------------------------------------------------------------

    /** The calls of a callback, up to the first that it must not make. */
    method RunScript(tn: Id, p: Id, cb: Callback, ghost log: seq<Firing>, ghost s0: Timer, ghost abs: int, ghost scripts: seq<Callback>, ghost tr0: seq<Config>)
      returns (ok: bool, ghost tr: seq<Config>)
      requires Stands(s0, abs, scripts, tr0, Config(State(), Calling(tn, p, cb.calls, cb.code), log))
      modifies this
      ensures tr != [] && Stands(s0, abs, scripts, tr, Last(tr)) && Last(tr).s == State() && Last(tr).log == log
      ensures ok ==> Last(tr).phase == Calling(tn, p, [], cb.code)
      ensures !ok ==> Stuck(Last(tr))
      ensures cb.calls == [] ==> ok && State() == old(State())
    {
      hide Stands, Exec, Live, Harmless;
      tr := tr0;
      var i := 0;
      assert cb.calls[0..] == cb.calls;
      StandsLast(s0, abs, scripts, tr, Config(State(), Calling(tn, p, cb.calls, cb.code), log));
      while i < |cb.calls|
        invariant i <= |cb.calls| && (i == 0 ==> State() == old(State()))
        invariant Stands(s0, abs, scripts, tr, Config(State(), Calling(tn, p, cb.calls[i..], cb.code), log))
      {
        var c := cb.calls[i];
        var now := Timer(nodes, points, keeplist, tcache, tsize, lcache, lsize, made);
        ghost var here := Config(State(), Calling(tn, p, cb.calls[i..], cb.code), log);
        assert now == State();
        if !Live(now, c) || !Harmless(now, c) {
          StandsLast(s0, abs, scripts, tr, here);
          return false, tr;
        }
        StandsSound(s0, abs, scripts, tr, here);
        CallsNext(abs, scripts, here);
        SoundInv(abs, scripts, here);
        Perform(c);
        assert cb.calls[i..][1..] == cb.calls[i + 1..];
        ghost var next := Config(State(), Calling(tn, p, cb.calls[i + 1..], cb.code), log);
        StandsNext(s0, abs, scripts, tr, here, next);
        tr := tr + [next];
        i := i + 1;
      }
      assert cb.calls[i..] == [];
      StandsLast(s0, abs, scripts, tr, Config(State(), Calling(tn, p, cb.calls[i..], cb.code), log));
      return true, tr;
    }

    /** The end of a callback: the point is freed, kept, or put where it was reset to. */
    method Return(p: Id, tn: Id, code: Code)
      requires p in points && (points[p].ref != 0 ==> points[p].ref in nodes)
      modifies this
      ensures State() == Returned(old(State()), p, tn, code)
      ensures ReturnEffect(old(State()), p, tn, code, State())
    {
      ReturnedEffect(State(), p, tn, code);
      points := points[p := points[p].(running := false)];
      if points[p].ref == 0 || code == Free {
        PointFree(p);
      } else if points[p].ref == tn {
        points := points[p := points[p].(ref := 0)];
        keeplist := [p] + keeplist;
      } else {
        PushList(points[p].ref, p);
      }
    }

    /** One callback: the head of the list is taken out, its callback runs, and it is put away. */
    method FireHead(tn: Id, cb: Callback, ghost log0: seq<Firing>, ghost s0: Timer, ghost abs: int, ghost scripts: seq<Callback>, ghost tr0: seq<Config>)
      returns (ok: bool, ghost log: seq<Firing>, ghost tr: seq<Config>)
      requires Stands(s0, abs, scripts, tr0, Config(State(), Serving(tn), log0))
      requires tn in nodes && nodes[tn].cblist != [] && cb == Script(scripts, |log0|)
      modifies this
      ensures tr != [] && Stands(s0, abs, scripts, tr, Last(tr)) && Last(tr).s == State() && Last(tr).log == log
      ensures old(nodes[tn].cblist[0]) in old(points)
      ensures log == log0 + [Firing(old(points)[old(nodes[tn].cblist[0])].serial, old(nodes[tn].ts))]
      ensures ok ==> Last(tr).phase == Serving(tn) && tn in nodes
      ensures !ok ==> Stuck(Last(tr))
      ensures |log0| >= |scripts| ==> ok && nodes.Keys == old(nodes.Keys) && |nodes[tn].cblist| < |old(nodes[tn].cblist)|
    {
      hide Stands, Lifted, Returned;
      ghost var here := Config(State(), Serving(tn), log0);
      StandsSound(s0, abs, scripts, tr0, here);
      FiresNext(abs, scripts, State(), tn, log0);
      var ln := nodes[tn].cblist[0];
      log := log0 + [Firing(points[ln].serial, nodes[tn].ts)];
      Lift(ln);
      ghost var fired := Config(State(), Calling(tn, ln, cb.calls, cb.code), log);
      StandsNext(s0, abs, scripts, tr0, here, fired);
      ok, tr := RunScript(tn, ln, cb, log, s0, abs, scripts, tr0 + [fired]);
      if !ok {
        return;
      }
      ghost var done := Config(State(), Calling(tn, ln, [], cb.code), log);
      StandsSound(s0, abs, scripts, tr, done);
      ReturnsNext(abs, scripts, State(), tn, ln, cb.code, log);
      Return(ln, tn, cb.code);
      ghost var next := Config(State(), Serving(tn), log);
      StandsNext(s0, abs, scripts, tr, done, next);
      tr := tr + [next];
    }

    /** LIST_REMOVE, and the point is marked as running. */
    method Lift(p: Id)
      requires p in points && (points[p].ref != 0 ==> points[p].ref in nodes)
      modifies this
      ensures State() == Lifted(old(State()), p)
    {
      Unlink(p);
      points := points[p := points[p].(running := true)];
    }

    /** Callbacks until the list of the node is empty. */
    method RunNode(tn: Id, scripts: seq<Callback>, count0: nat, ghost log0: seq<Firing>, ghost s0: Timer, ghost abs: int, ghost tr0: seq<Config>)
      returns (ok: bool, count: nat, ghost tr: seq<Config>)
      requires Stands(s0, abs, scripts, tr0, Config(State(), Serving(tn), log0)) && count0 == |log0|
      modifies this
      ensures tr != [] && Stands(s0, abs, scripts, tr, Last(tr)) && Last(tr).s == State()
      ensures ok ==> Last(tr).phase == Serving(tn) && tn in nodes && nodes[tn].cblist == [] && count == |Last(tr).log|
      ensures ok ==> count >= count0 && (Remaining(scripts, count) == Remaining(scripts, count0) ==> nodes.Keys == old(nodes.Keys))
      ensures !ok ==> Stuck(Last(tr)) && count + 1 == |Last(tr).log|
    {
      hide Stands;
      ghost var log := log0;
      tr, count := tr0, count0;
      StandsAtNode(s0, abs, scripts, tr, State(), tn, log);
      while nodes[tn].cblist != []
        invariant tn in nodes && Stands(s0, abs, scripts, tr, Config(State(), Serving(tn), log))
        invariant count == |log| >= count0
        invariant Remaining(scripts, count) == Remaining(scripts, count0) ==> nodes.Keys == old(nodes.Keys)
        decreases Remaining(scripts, count), |nodes[tn].cblist|
      {
        var cb := Script(scripts, count);
        ok, log, tr := FireHead(tn, cb, log, s0, abs, scripts, tr);
        if !ok {
          return;
        }
        count := count + 1;
      }
      StandsLast(s0, abs, scripts, tr, Config(State(), Serving(tn), log));
      ok := true;
    }

    /** The node is done: the next one is looked up, and it leaves the tree. */
    method LeaveNode(tn: Id, ghost log: seq<Firing>, ghost s0: Timer, ghost abs: int, ghost scripts: seq<Callback>, ghost tr0: seq<Config>)
      returns (next: Id, ghost tr: seq<Config>)
      requires Stands(s0, abs, scripts, tr0, Config(State(), Serving(tn), log)) && tn in nodes && nodes[tn].cblist == []
      modifies this
      ensures Stands(s0, abs, scripts, tr, Config(State(), Looking(next), log))
      ensures |nodes.Keys| < |old(nodes.Keys)| && LeaveEffect(old(State()), tn, State())
    {
      hide Stands, Inv, NoneRunning, IsNext;
      NodeDoneEffect(State(), tn, false);
      ghost var here := Config(State(), Serving(tn), log);
      StandsSound(s0, abs, scripts, tr0, here);
      FlaggedOk(State(), tn, false);
      FewerNodes(nodes.Keys, tn);
      nodes := nodes[tn := nodes[tn].(noAutoDel := false)];
      next := NextNode(tn);
      LeavesNext(abs, scripts, here.s, tn, next, log);
      nodes := nodes - {tn};
      NodeDel(tn);
      assert nodes.Keys == old(nodes.Keys) - {tn};
      ghost var left := Config(State(), Looking(next), log);
      StandsNext(s0, abs, scripts, tr0, here, left);
      tr := tr0 + [left];
    }

    /** The body of the outer loop: all of one node, which then leaves, and the next one. */
    method PassNode(tn: Id, scripts: seq<Callback>, count0: nat, ghost log0: seq<Firing>, ghost s0: Timer, ghost abs: int, ghost tr0: seq<Config>)
      returns (ok: bool, count: nat, next: Id, ghost tr: seq<Config>)
      requires Stands(s0, abs, scripts, tr0, Config(State(), Looking(tn), log0))
      requires tn in nodes && nodes[tn].ts <= abs && count0 == |log0|
      modifies this
      ensures tr != [] && Stands(s0, abs, scripts, tr, Last(tr)) && Last(tr).s == State()
      ensures ok ==> Last(tr).phase == Looking(next) && count == |Last(tr).log|
      ensures ok ==> Remaining(scripts, count) < Remaining(scripts, count0)
                     || (Remaining(scripts, count) == Remaining(scripts, count0) && |nodes.Keys| < |old(nodes.Keys)|)
      ensures !ok ==> Stuck(Last(tr)) && count + 1 == |Last(tr).log|
    {
      hide Stands;
      ghost var here := Config(State(), Looking(tn), log0);
      nodes := nodes[tn := nodes[tn].(noAutoDel := true)];
      assert nodes.Keys == old(nodes.Keys);
      ghost var entered := Config(State(), Serving(tn), log0);
      StandsNext(s0, abs, scripts, tr0, here, entered);
      ok, count, tr := RunNode(tn, scripts, count0, log0, s0, abs, tr0 + [entered]);
      next := 0;
      if ok {
        ghost var log := Last(tr).log;
        next, tr := LeaveNode(tn, log, s0, abs, scripts, tr);
        StandsLast(s0, abs, scripts, tr, Config(State(), Looking(next), log));
      }
    }

    /**
     evdp_timer_run_until: follows the pass of the timer, the time and the callbacks to its end,
     and returns the number of callbacks; or up to a call that a callback must not make. The
     callbacks are given by `scripts`, and those after its end do nothing and free their point.
     */
    method RunUntil(abs: int, scripts: seq<Callback>) returns (ok: bool, count: nat, ghost tr: seq<Config>)
      requires Inv(State()) && NoneRunning(State())
      modifies this
      ensures IsPass(old(State()), abs, scripts, tr) && Last(tr).s == State()
      ensures ok ==> Final(abs, Last(tr)) && count == |Last(tr).log|
      ensures ok ==> Inv(State()) && NoneRunning(State()) && InTime(Last(tr).log, abs)
      ensures ok ==> forall p :: p in old(points) && old(points)[p].serial !in Touched(tr) ==>
                Outcome(old(State()), State(), Last(tr).log, p, abs)
      ensures forall p :: p in old(points) && old(points)[p].serial in Touched(tr) ==> Aimed(scripts, p)
      ensures !ok ==> Stuck(Last(tr)) && count + 1 == |Last(tr).log| && OfScript(scripts, count, Last(tr).phase.calls, Last(tr).phase.code)
    {
      hide Stands, Inv, NoneRunning, IsMin, Outcome, InTime, Sound, Aimed;
      ghost var s0, log := State(), [];
      count := 0;
      var tn := First();
      tr := [Config(s0, Looking(tn), [])];
      StandsStart(s0, abs, scripts, tn);
      StandsAtLook(s0, abs, scripts, tr, State(), tn, log);
      while tn != 0 && nodes[tn].ts <= abs
        invariant Stands(s0, abs, scripts, tr, Config(State(), Looking(tn), log)) && count == |log|
        invariant tn != 0 ==> tn in nodes
        decreases Remaining(scripts, count), |nodes.Keys|
      {
        ok, count, tn, tr := PassNode(tn, scripts, count, log, s0, abs, tr);
        log := Last(tr).log;
        if !ok {
          StandsStuck(s0, abs, scripts, tr);
          TouchedAreAimed(s0, abs, scripts, tr);
          return;
        }
        StandsAtLook(s0, abs, scripts, tr, State(), tn, log);
      }
      StandsAtLook(s0, abs, scripts, tr, State(), tn, log);
      StandsLast(s0, abs, scripts, tr, Config(State(), Looking(tn), log));
      PassOutcome(s0, abs, scripts, tr);
      TouchedAreAimed(s0, abs, scripts, tr);
      ok := true;
    }
  }

  lemma TouchedAreAimed(s0: Timer, abs: int, scripts: seq<Callback>, tr: seq<Config>)
    requires Inv(s0) && NoneRunning(s0) && IsPass(s0, abs, scripts, tr)
    ensures forall p :: p in s0.points && s0.points[p].serial in Touched(tr) ==> Aimed(scripts, p)
  {
    forall p | p in s0.points && s0.points[p].serial in Touched(tr) ensures Aimed(scripts, p) {
      TouchedIsAimed(s0, abs, scripts, tr, p);
    }
  }

  lemma NewPointKeeps(s: Timer, ts: int, nodeMem: Id, pointMem: Id)
    requires Inv(s) && Live(s, New(ts, nodeMem, pointMem))
    ensures Inv(TimerState.NewPoint(s, ts, nodeMem, pointMem).0)
  {
    NewPointOk(s, ts, nodeMem, pointMem);
  }

  lemma NoZeroCached(s: Timer)
    requires Inv(s)
    ensures s.lcache != [] ==> s.lcache[|s.lcache| - 1] != 0
  {
    InvMemory(s);
    assert s.lcache != [] ==> s.lcache[|s.lcache| - 1] in s.lcache;
  }

  lemma MemoryIsUnused(s: Timer, mem: Id)
    requires Inv(s) && (mem != 0 ==> Fresh(mem, s.nodes.Keys, s.tcache))
    ensures Taken(s.tcache, mem) !in s.nodes
  {
    InvMemory(s);
    RestOk(s.tcache, s.tsize, s.nodes.Keys, mem);
  }
}
