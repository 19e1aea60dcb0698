/**
 evdp_timer_run_until of src/evdp/timer.c: callbacks are arbitrary finite sequences of calls
 with a return code. The steps of a pass are followed on the state (TimerState), with a record
 of the points that were fired.
 */
module TimerRun {
  import opened Common
  import opened TimerState

  /** A call made by a callback, with what calloc would return to it. */
  datatype Call =
    | New(ts: int, nodeMem: Id, pointMem: Id)
    | Del(p: Id)
    | Reset(p: Id, ts: int, nodeMem: Id)

  datatype Code = Free | Keep

  datatype Callback = Callback(calls: seq<Call>, code: Code)

  /** What was fired, and for which time. */
  datatype Firing = Firing(serial: nat, ts: int)

  // ---------------------------------------------------------------------------
  // One call
  // ---------------------------------------------------------------------------

  /** The call is about a live point, and calloc returns unused memory. */
  predicate Live(s: Timer, c: Call)
  {
    match c
    case New(_, nm, pm) => (nm != 0 ==> Fresh(nm, s.nodes.Keys, s.tcache)) && (pm != 0 ==> Fresh(pm, s.points.Keys, s.lcache))
    case Del(p) => p in s.points
    case Reset(p, _, nm) => p in s.points && (nm != 0 ==> Fresh(nm, s.nodes.Keys, s.tcache))
  }

  /** The memory that the call uses is there: the node of its point, and a place for a new one. */
  predicate Defined(s: Timer, c: Call)
  {
    match c
    case New(_, _, _) => true
    case Del(p) => p in s.points && (s.points[p].ref != 0 ==> s.points[p].ref in s.nodes)
    case Reset(p, _, nm) => p in s.points && (s.points[p].ref != 0 ==> s.points[p].ref in s.nodes) && Taken(s.tcache, nm) !in s.nodes
  }

  ghost function Exec(s: Timer, c: Call): (r: Timer)
    requires Defined(s, c)
  {
    match c
    case New(ts, nm, pm) => NewPoint(s, ts, nm, pm).0
    case Del(p) => DelPoint(s, p)
    case Reset(p, ts, nm) => ResetPoint(s, p, ts, nm).0
  }

  /** Without the point `p` its node goes away, although a running point was reset to it. */
  predicate TakesAwaited(s: Timer, p: Id)
  {
    p in s.points && s.points[p].ref in s.nodes && Empties(s, p, s.points[p].ref)
  }

  /** The call takes no node away that a running point was reset to. */
  predicate Harmless(s: Timer, c: Call)
  {
    match c
    case New(_, _, _) => true
    case Del(p) => !TakesAwaited(s, p)
    case Reset(p, ts, nm) => !TakesAwaited(s, p) || s.nodes[s.points[p].ref].ts == ts || (nm == 0 && s.tcache == [])
  }

  /** Every call keeps the invariant exactly if it is harmless. */
  lemma ExecOk(s: Timer, c: Call)
    requires Inv(s) && Live(s, c)
    ensures Defined(s, c)
    ensures Inv(Exec(s, c)) <==> Harmless(s, c)
  {
    InvMemory(s);
    hide Inv, Empties, NewPoint, DelPoint, ResetPoint;
    match c
    case New(ts, nm, pm) => NewPointOk(s, ts, nm, pm);
    case Del(p) => DelPointOk(s, p);
    case Reset(p, ts, nm) => ResetPointOk(s, p, ts, nm);
  }

  // ---------------------------------------------------------------------------
  // Calls outside callbacks
  // ---------------------------------------------------------------------------

  ghost predicate NoneRunning(s: Timer)
  {
    forall p :: p in s.points ==> !s.points[p].running
  }

  /** A run of calls; None if one of them would use memory that is not there. */
  ghost function RunCalls(s: Timer, calls: seq<Call>): (r: Option<Timer>)
    decreases |calls|
  {
    if calls == [] then Some(s)
    else if Defined(s, calls[0]) then RunCalls(Exec(s, calls[0]), calls[1..])
    else None
  }

  /** Every call of the run is about a point that is live then. */
  ghost predicate LiveCalls(s: Timer, calls: seq<Call>)
    decreases |calls|
  {
    calls != [] ==> Live(s, calls[0]) && (Defined(s, calls[0]) ==> LiveCalls(Exec(s, calls[0]), calls[1..]))
  }

  /** Outside callbacks every run of calls on live points goes through and keeps the invariant. */
  lemma {:induction false} CallsKeepInvariant(s: Timer, calls: seq<Call>)
    requires Inv(s) && NoneRunning(s) && LiveCalls(s, calls)
    ensures RunCalls(s, calls).Some? && Inv(RunCalls(s, calls).value) && NoneRunning(RunCalls(s, calls).value)
    decreases |calls|
  {
    hide Inv, Exec, Live, Defined;
    if calls != [] {
      var c := calls[0];
      HarmlessOutside(s, c);
      ExecOk(s, c);
      ExecFrame(s, c);
      StillNoneRunning(s, Exec(s, c), Target(c));
      CallsKeepInvariant(Exec(s, c), calls[1..]);
    }
  }

  lemma HarmlessOutside(s: Timer, c: Call)
    requires Inv(s) && NoneRunning(s) && Live(s, c)
    ensures Harmless(s, c)
  {
    hide Inv;
  }

  lemma StillNoneRunning(s: Timer, r: Timer, t: Id)
    requires NoneRunning(s) && Frame(s, r, t)
    ensures NoneRunning(r)
  {
    forall p | p in r.points ensures !r.points[p].running {
      if p in s.points && p != t {
        assert r.points[p] == s.points[p];
      }
    }
  }

  /** The point that a call is about. */
  function Target(c: Call): (p: Id)
  {
    match c
    case New(_, _, _) => 0
    case Del(p) => p
    case Reset(p, _, _) => p
  }

  /** From `s` to `r` only the point `t` may have changed, others may be new, and nodes keep their times. */
  ghost predicate Frame(s: Timer, r: Timer, t: Id)
  {
    PointsFrame(s, r, t) && NodesFrame(s.nodes, r.nodes)
  }

  ghost predicate PointsFrame(s: Timer, r: Timer, t: Id)
  {
    && r.made >= s.made
    && (forall p :: p in s.points && p != t ==> p in r.points && r.points[p] == s.points[p])
    && (forall p :: p in r.points && p !in s.points ==> r.points[p].serial >= s.made && !r.points[p].running)
    && (t in s.points && t in r.points ==> r.points[t].serial == s.points[t].serial && r.points[t].running == s.points[t].running)
    && (t in s.points && s.points[t].running ==> t in r.points)
  }

  ghost predicate NodesFrame(nodes: map<Id, TNode>, nodes': map<Id, TNode>)
  {
    && (forall n :: n in nodes && n in nodes' ==> nodes'[n].ts == nodes[n].ts && nodes'[n].noAutoDel == nodes[n].noAutoDel)
    && (forall n :: n in nodes && nodes[n].noAutoDel ==> n in nodes')
  }

  lemma GrownFrame(a: map<Id, TNode>, b: map<Id, TNode>, c: map<Id, TNode>, n: Id)
    requires NodesGrow(a, b, n) && NodesFrame(b, c)
    ensures NodesFrame(a, c)
  {
  }

  lemma NewFrame(s: Timer, ts: int, nm: Id, pm: Id)
    requires Inv(s) && Live(s, New(ts, nm, pm))
    ensures Frame(s, NewPoint(s, ts, nm, pm).0, 0)
  {
    InvMemory(s);
    hide Inv, Obtained, NewPoint, Fresh, PointsFrame, NodesFrame, InHand, Landed;
    ObtainedOk(s, ts, nm);
    NewPointIs(s, ts, nm, pm);
    NewPointOk(s, ts, nm, pm);
    var (s1, n) := Obtained(s, ts, nm);
    var (r, p) := NewPoint(s, ts, nm, pm);
    if n != 0 && p != 0 {
      InHandFrame(s1, p, n);
      PlusPoint(s, r, p);
      GrownFrame(s.nodes, s1.nodes, r.nodes, n);
    } else {
      NoFrame(s1, 0);
      NoPoint(s, s1, 0);
      if n != 0 {
        GrownFrame(s.nodes, s1.nodes, s1.nodes, n);
      }
    }
  }

  lemma NoFrame(s: Timer, t: Id)
    ensures Frame(s, s, t)
  {
  }

  lemma NoPoint(s: Timer, r: Timer, t: Id)
    requires r.points == s.points && r.made == s.made
    ensures PointsFrame(s, r, t)
  {
  }

  lemma PlusPoint(s: Timer, r: Timer, p: Id)
    requires p !in s.points && p in r.points && r.points == s.points[p := r.points[p]] && 0 !in s.points
    requires r.points[p].serial == s.made && !r.points[p].running && r.made == s.made + 1
    ensures PointsFrame(s, r, 0)
  {
  }

  lemma InHandFrame(s: Timer, p: Id, n: Id)
    requires n in s.nodes
    ensures var r := Landed(InHand(s, p, n), p); NodesFrame(s.nodes, r.nodes) && r.made == s.made + 1
  {
  }

  lemma DelFrame(s: Timer, p: Id)
    requires p in s.points && PlaceOk(s, p)
    ensures Frame(s, DelPoint(s, p), p)
  {
  }

  lemma ResetFrame(s: Timer, p: Id, ts: int, nm: Id)
    requires Inv(s) && p in s.points && (nm != 0 ==> Fresh(nm, s.nodes.Keys, s.tcache))
    requires PlaceOk(s, p) && Taken(s.tcache, nm) !in s.nodes
    ensures Frame(s, ResetPoint(s, p, ts, nm).0, p)
  {
    hide Inv, Fresh, Obtained, PointsFrame, NodesFrame, Landed, MovedOver;
    ObtainedOk(s, ts, nm);
    var (s1, n) := Obtained(s, ts, nm);
    var x := s.points[p];
    if n == 0 {
      NoFrame(s, p);
    } else if x.ref == n || x.running {
      NoFrame(s1, p);
      GrownFrame(s.nodes, s1.nodes, s1.nodes, n);
      SamePoint(s, ResetPoint(s, p, ts, nm).0, p);
    } else {
      ResetIs(s, p, ts, nm);
      hide ResetPoint;
      MoveFrame(s1, p, n);
      GrownFrame(s.nodes, s1.nodes, Landed(MovedOver(s1, p, n), p).nodes, n);
      FromSame(s, s1, Landed(MovedOver(s1, p, n), p), p);
    }
  }

  lemma SamePoint(s: Timer, r: Timer, p: Id)
    requires p in s.points && p in r.points && r.points == s.points[p := r.points[p]] && r.made == s.made
    requires r.points[p].serial == s.points[p].serial && r.points[p].running == s.points[p].running
    ensures PointsFrame(s, r, p)
  {
  }

  lemma FromSame(s: Timer, s1: Timer, r: Timer, p: Id)
    requires s1.points == s.points && s1.made == s.made && PointsFrame(s1, r, p)
    ensures PointsFrame(s, r, p)
  {
  }

  lemma MoveFrame(s: Timer, p: Id, n: Id)
    requires p in s.points && PlaceOk(s, p) && !s.points[p].running && s.points[p].ref != n && n in s.nodes
    ensures var m := MovedOver(s, p, n); p in m.points && m.points[p].ref == n && n in m.nodes && Frame(s, Landed(m, p), p)
  {
    var m := MovedOver(s, p, n);
    assert m.points == s.points[p := m.points[p]];
    SamePoint(s, Landed(m, p), p);
    assert NodesFrame(s.nodes, m.nodes);
  }

  /** A deleted point is gone, or will be when its callback returns; all others stay as they are. */
  lemma DelPointMeans(s: Timer, p: Id)
    requires Inv(s) && p in s.points
    ensures PlaceOk(s, p)
    ensures var r := DelPoint(s, p);
            && PointsFrame(s, r, p)
            && if s.points[p].running then p in r.points && r.points[p].ref == 0 else p !in r.points
  {
    PlaceIsOk(s, p);
    DelFrame(s, p);
    hide Inv, Frame;
  }

  /** A reset succeeds exactly with memory, and then the point refers to the node of the new time; all others stay. */
  lemma ResetPointMeans(s: Timer, p: Id, ts: int, nm: Id)
    requires Inv(s) && p in s.points && (nm != 0 ==> Fresh(nm, s.nodes.Keys, s.tcache))
    ensures PlaceOk(s, p) && Taken(s.tcache, nm) !in s.nodes
    ensures var (r, ok) := ResetPoint(s, p, ts, nm);
            && PointsFrame(s, r, p) && (ok <==> nm != 0 || s.tcache != [])
            && (ok ==> p in r.points && r.points[p].ref in r.nodes && r.nodes[r.points[p].ref].ts == ts)
            && (!ok ==> r == s)
  {
    ResetPointOk(s, p, ts, nm);
    ResetFrame(s, p, ts, nm);
    ObtainedOk(s, ts, nm);
    hide Inv, Obtained, Fresh, PointsFrame, NodesFrame, Landed, MovedOver;
    var (s1, n) := Obtained(s, ts, nm);
    var x := s.points[p];
    if n != 0 && x.ref != n && !x.running {
      ResetIs(s, p, ts, nm);
      LandsAt(s1, p, n);
    }
  }

  lemma LandsAt(s: Timer, p: Id, n: Id)
    requires p in s.points && PlaceOk(s, p) && n in s.nodes && n != 0 && s.points[p].ref != n
    ensures var m := MovedOver(s, p, n);
            && p in m.points && m.points[p].ref == n && n in m.nodes
            && var r := Landed(m, p); p in r.points && r.points[p].ref == n && n in r.nodes && r.nodes[n].ts == s.nodes[n].ts
  {
  }

  lemma ExecFrame(s: Timer, c: Call)
    requires Inv(s) && Live(s, c)
    ensures Defined(s, c) && Frame(s, Exec(s, c), Target(c))
  {
    hide Inv, NewPoint, DelPoint, ResetPoint, Frame;
    match c
    case New(ts, nm, pm) => NewFrame(s, ts, nm, pm);
    case Del(p) =>
      PlaceIsOk(s, p);
      DelFrame(s, p);
    case Reset(p, ts, nm) =>
      ResetPointOk(s, p, ts, nm);
      ResetFrame(s, p, ts, nm);
  }

  // ---------------------------------------------------------------------------
  // What a pass does to the points that were there at its start
  // ---------------------------------------------------------------------------

  /** How often a point was fired. */
  function Times(log: seq<Firing>, serial: nat): (k: nat)
  {
    if log == [] then 0 else Times(log[..|log| - 1], serial) + if log[|log| - 1].serial == serial then 1 else 0
  }

  /** Whenever the point was fired, it was for this time. */
  ghost predicate FiredFor(log: seq<Firing>, serial: nat, ts: int)
  {
    forall i :: 0 <= i < |log| && log[i].serial == serial ==> log[i].ts == ts
  }

  lemma {:induction false} NeverFired(log: seq<Firing>, serial: nat, ts: int)
    requires Times(log, serial) == 0
    ensures FiredFor(log, serial, ts)
  {
    if log != [] {
      NeverFired(log[..|log| - 1], serial, ts);
    }
  }

  /** The point is armed for `abs` or earlier. */
  ghost predicate Due(s: Timer, p: Id, abs: int)
  {
    p in s.points && s.points[p].ref in s.nodes && s.nodes[s.points[p].ref].ts <= abs
  }

  /** The point is as it was: same fields, same time. */
  ghost predicate Same(s0: Timer, s: Timer, p: Id)
    requires p in s0.points
  {
    && p in s.points && s.points[p] == s0.points[p]
    && var n := s0.points[p].ref;
    n != 0 ==> n in s0.nodes && n in s.nodes && s.nodes[n].ts == s0.nodes[n].ts
  }

  /** A fired point is still in its callback on node `tn`, or it waits in the keep list, or it is gone. */
  ghost predicate Settled(s: Timer, serial: nat, tn: Id)
  {
    forall q :: q in s.points && s.points[q].serial == serial ==> s.points[q].ref == if s.points[q].running then tn else 0
  }

  /** A point is as it was, and still ahead if it is due; or it was due and was fired once, for its time. */
  ghost predicate Status(s0: Timer, s: Timer, log: seq<Firing>, p: Id, abs: int, cur: int, tn: Id)
    requires p in s0.points
  {
    var serial := s0.points[p].serial;
    || (Times(log, serial) == 0 && Same(s0, s, p) && (Due(s0, p, abs) ==> s0.nodes[s0.points[p].ref].ts >= cur))
    || (Times(log, serial) == 1 && Due(s0, p, abs) && FiredFor(log, serial, s0.nodes[s0.points[p].ref].ts) && Settled(s, serial, tn))
  }

  /** A point does not change its place in memory. */
  ghost predicate CellsKept(s0: Timer, s: Timer)
  {
    forall p, q :: p in s0.points && q in s.points && s.points[q].serial == s0.points[p].serial ==> q == p
  }

  /** This holds for all points that no callback has deleted or reset. */
  ghost predicate Tracked(s0: Timer, s: Timer, log: seq<Firing>, touched: set<nat>, abs: int, cur: int, tn: Id)
  {
    && s.made >= s0.made && CellsKept(s0, s)
    && forall p :: p in s0.points && s0.points[p].serial !in touched ==> Status(s0, s, log, p, abs, cur, tn)
  }

  /** Firings in the order of time, none later than `cur`. */
  ghost predicate InTime(log: seq<Firing>, cur: int)
  {
    && (forall i :: 0 <= i < |log| ==> log[i].ts <= cur)
    && (forall i, j :: 0 <= i < j < |log| ==> log[i].ts <= log[j].ts)
  }

  lemma SerialBelow(s: Timer, p: Id)
    requires Inv(s) && p in s.points
    ensures s.points[p].serial < s.made
    ensures forall q :: q in s.points && s.points[q].serial == s.points[p].serial ==> q == p
  {
  }

  /** A call about another point does not change the status. */
  lemma StatusFrame(s0: Timer, s: Timer, r: Timer, log: seq<Firing>, p: Id, abs: int, cur: int, tn: Id, t: Id)
    requires p in s0.points && Status(s0, s, log, p, abs, cur, tn) && Frame(s, r, t) && PlacesOk(r)
    requires s0.points[p].serial < s0.made <= s.made && !s0.points[p].running
    requires t in s.points ==> s.points[t].serial != s0.points[p].serial
    ensures Status(s0, r, log, p, abs, cur, tn)
  {
    var serial := s0.points[p].serial;
    if Times(log, serial) == 0 {
      assert p != t && p in r.points;
      assert PlaceOk(r, p);
    } else {
      forall q | q in r.points && r.points[q].serial == serial ensures r.points[q].ref == if r.points[q].running then tn else 0 {
        assert q in s.points;
      }
    }
  }

  lemma CellsFrame(s0: Timer, s: Timer, r: Timer, t: Id)
    requires Inv(s0) && s0.made <= s.made && CellsKept(s0, s) && Frame(s, r, t)
    ensures CellsKept(s0, r)
  {
    forall p, q | p in s0.points && q in r.points && r.points[q].serial == s0.points[p].serial ensures q == p {
      SerialBelow(s0, p);
      assert q in s.points && s.points[q].serial == r.points[q].serial;
    }
  }

  ghost function TouchedBy(s: Timer, c: Call): (t: set<nat>)
  {
    if Target(c) in s.points then {s.points[Target(c)].serial} else {}
  }

  /** A call in a callback. */
  lemma TrackedCall(s0: Timer, s: Timer, c: Call, log: seq<Firing>, touched: set<nat>, abs: int, cur: int, tn: Id)
    requires Inv(s0) && NoneRunning(s0) && Inv(s) && Live(s, c) && Defined(s, c) && Inv(Exec(s, c))
    requires Tracked(s0, s, log, touched, abs, cur, tn)
    ensures Tracked(s0, Exec(s, c), log, touched + TouchedBy(s, c), abs, cur, tn)
  {
    ExecFrame(s, c);
    var r := Exec(s, c);
    hide Exec, Status, Live;
    CellsFrame(s0, s, r, Target(c));
    forall p | p in s0.points && s0.points[p].serial !in touched + TouchedBy(s, c) ensures Status(s0, r, log, p, abs, cur, tn) {
      SerialBelow(s0, p);
      StatusFrame(s0, s, r, log, p, abs, cur, tn, Target(c));
    }
  }

  lemma TimesPlus(log: seq<Firing>, f: Firing, serial: nat)
    ensures Times(log + [f], serial) == Times(log, serial) + if f.serial == serial then 1 else 0
  {
    assert (log + [f])[..|log|] == log;
  }

  /** The head of a list is taken out and its callback starts. */
  lemma StatusFired(s0: Timer, s: Timer, log: seq<Firing>, q: Id, abs: int, tn: Id, p: Id)
    requires Inv(s0) && NoneRunning(s0) && Inv(s) && tn in s.nodes && tn != 0 && p in s.nodes[tn].cblist
    requires q in s0.points && Status(s0, s, log, q, abs, s.nodes[tn].ts, tn) && s.nodes[tn].ts <= abs
    requires p in s.points && PlaceOk(s, p) && !s.points[p].running && s.points[p].ref == tn
    ensures Status(s0, Lifted(s, p), log + [Firing(s.points[p].serial, s.nodes[tn].ts)], q, abs, s.nodes[tn].ts, tn)
  {
    var serial, f := s0.points[q].serial, Firing(s.points[p].serial, s.nodes[tn].ts);
    TimesPlus(log, f, serial);
    SerialBelow(s, p);
    if Times(log, serial) == 0 && f.serial == serial {
      assert q == p;
      NeverFired(log, serial, f.ts);
    }
  }

  lemma TrackedFired(s0: Timer, s: Timer, log: seq<Firing>, touched: set<nat>, abs: int, tn: Id, p: Id)
    requires Inv(s0) && NoneRunning(s0) && Inv(s) && tn in s.nodes && tn != 0 && p in s.nodes[tn].cblist
    requires Tracked(s0, s, log, touched, abs, s.nodes[tn].ts, tn) && s.nodes[tn].ts <= abs
    ensures p in s.points && PlaceOk(s, p) && !s.points[p].running && s.points[p].ref == tn
    ensures Tracked(s0, Lifted(s, p), log + [Firing(s.points[p].serial, s.nodes[tn].ts)], touched, abs, s.nodes[tn].ts, tn)
  {
    InList(s, p, tn);
    PlaceIsOk(s, p);
    hide Inv, Status;
    forall q | q in s0.points && s0.points[q].serial !in touched
      ensures Status(s0, Lifted(s, p), log + [Firing(s.points[p].serial, s.nodes[tn].ts)], q, abs, s.nodes[tn].ts, tn)
    {
      StatusFired(s0, s, log, q, abs, tn, p);
    }
  }

  /** What happens to the point when its callback has returned. */
  function Returned(s: Timer, p: Id, tn: Id, code: Code): (r: Timer)
    requires p in s.points && (s.points[p].ref != 0 ==> s.points[p].ref in s.nodes)
  {
    var ref := s.points[p].ref;
    if ref == 0 || code == Free then Freed(s, p)
    else if ref == tn then Landed(Retargeted(s, p, 0), p)
    else Landed(s, p)
  }

  lemma ReturnedOk(s: Timer, p: Id, tn: Id, code: Code)
    requires Inv(s) && p in s.points && s.points[p].running
    ensures PlaceOk(s, p) && Inv(Returned(s, p, tn, code))
    ensures Returned(s, p, tn, code).nodes.Keys == s.nodes.Keys
    ensures var r, ref := Returned(s, p, tn, code), s.points[p].ref;
            && (p in r.points <==> ref != 0 && code == Keep)
            && (p in r.points ==> !r.points[p].running && r.points[p].ref == if ref == tn then 0 else ref)
  {
    hide Inv;
    PlaceIsOk(s, p);
    var ref := s.points[p].ref;
    if ref == 0 || code == Free {
      FreedOk(s, p);
    } else if ref == tn {
      RetargetedOk(s, p, 0);
      LandedOk(Retargeted(s, p, 0), p);
    } else {
      LandedOk(s, p);
    }
  }

  lemma StatusReturned(s0: Timer, s: Timer, log: seq<Firing>, q: Id, abs: int, cur: int, tn: Id, p: Id, code: Code)
    requires Inv(s0) && NoneRunning(s0) && Inv(s) && p in s.points && s.points[p].running && PlaceOk(s, p)
    requires q in s0.points && Status(s0, s, log, q, abs, cur, tn)
    ensures Status(s0, Returned(s, p, tn, code), log, q, abs, cur, tn)
  {
    SerialBelow(s, p);
  }

  lemma TrackedReturned(s0: Timer, s: Timer, log: seq<Firing>, touched: set<nat>, abs: int, cur: int, tn: Id, p: Id, code: Code)
    requires Inv(s0) && NoneRunning(s0) && Inv(s) && p in s.points && s.points[p].running
    requires Tracked(s0, s, log, touched, abs, cur, tn)
    ensures PlaceOk(s, p) && Tracked(s0, Returned(s, p, tn, code), log, touched, abs, cur, tn)
  {
    PlaceIsOk(s, p);
    hide Inv, Status;
    forall q | q in s0.points && s0.points[q].serial !in touched ensures Status(s0, Returned(s, p, tn, code), log, q, abs, cur, tn) {
      StatusReturned(s0, s, log, q, abs, cur, tn, p, code);
    }
  }

  // ---------------------------------------------------------------------------
  // From node to node
  // ---------------------------------------------------------------------------

  /** RB_TREE_NEXT: the node with the least time after `ts`, or none. */
  ghost predicate IsNext(nodes: map<Id, TNode>, ts: int, n: Id)
  {
    if n == 0 then forall m :: m in nodes ==> nodes[m].ts <= ts
    else n in nodes && nodes[n].ts > ts && forall m :: m in nodes && nodes[m].ts > ts ==> nodes[m].ts >= nodes[n].ts
  }

  /** RB_TREE_MIN. */
  ghost predicate IsMin(nodes: map<Id, TNode>, n: Id)
  {
    if n == 0 then nodes == map[]
    else n in nodes && forall m :: m in nodes ==> nodes[m].ts >= nodes[n].ts
  }

  /** The node is done: it leaves the tree. */
  function NodeDone(s: Timer, n: Id): (r: Timer)
  {
    s.(nodes := s.nodes - {n}, tcache := Recycled(s.tcache, s.tsize, n))
  }

  lemma NodeDoneOk(s: Timer, n: Id)
    requires Inv(s) && NoneRunning(s) && n in s.nodes && s.nodes[n].cblist == []
    ensures Inv(NodeDone(s, n)) && NoneRunning(NodeDone(s, n))
  {
    NodeGone(s, n);
  }

  /** The time of the next node, or beyond all that is due. */
  function NextTime(nodes: map<Id, TNode>, n: Id, abs: int): (ts: int)
  {
    if n in nodes then nodes[n].ts else abs + 1
  }

  lemma StatusDone(s0: Timer, s: Timer, log: seq<Firing>, p: Id, abs: int, tn: Id, next: Id)
    requires Inv(s0) && NoneRunning(s0) && Inv(s) && NoneRunning(s)
    requires tn in s.nodes && s.nodes[tn].cblist == [] && IsNext(s.nodes, s.nodes[tn].ts, next)
    requires p in s0.points && Status(s0, s, log, p, abs, s.nodes[tn].ts, tn)
    ensures Status(s0, NodeDone(s, tn), log, p, abs, NextTime(s.nodes, next, abs), next)
  {
    var serial, n := s0.points[p].serial, s0.points[p].ref;
    InvMemory(s);
    InvMemory(s0);
    if Times(log, serial) == 0 && n != 0 {
      InItsList(s, p);
      assert n != tn;
      TimesAreDistinct(s);
    }
  }

  lemma TrackedDone(s0: Timer, s: Timer, log: seq<Firing>, touched: set<nat>, abs: int, tn: Id, next: Id)
    requires Inv(s0) && NoneRunning(s0) && Inv(s) && NoneRunning(s)
    requires tn in s.nodes && s.nodes[tn].cblist == [] && IsNext(s.nodes, s.nodes[tn].ts, next)
    requires Tracked(s0, s, log, touched, abs, s.nodes[tn].ts, tn)
    ensures Tracked(s0, NodeDone(s, tn), log, touched, abs, NextTime(s.nodes, next, abs), next)
  {
    hide Inv, Status;
    forall p | p in s0.points && s0.points[p].serial !in touched
      ensures Status(s0, NodeDone(s, tn), log, p, abs, NextTime(s.nodes, next, abs), next)
    {
      StatusDone(s0, s, log, p, abs, tn, next);
    }
  }

  lemma TrackedStart(s: Timer, abs: int, min: Id)
    requires Inv(s) && NoneRunning(s) && IsMin(s.nodes, min)
    ensures Tracked(s, s, [], {}, abs, NextTime(s.nodes, min, abs), min)
  {
    InvMemory(s);
    forall p | p in s.points ensures Status(s, s, [], p, abs, NextTime(s.nodes, min, abs), min) {
      PlaceIsOk(s, p);
    }
  }

  /** What a finished pass promises about a point that no callback has deleted or reset. */
  ghost predicate Outcome(s0: Timer, s: Timer, log: seq<Firing>, p: Id, abs: int)
    requires p in s0.points
  {
    var serial := s0.points[p].serial;
    if Due(s0, p, abs) then
      && Times(log, serial) == 1 && FiredFor(log, serial, s0.nodes[s0.points[p].ref].ts)
      && forall q :: q in s.points && s.points[q].serial == serial ==> s.points[q].ref == 0
    else Times(log, serial) == 0 && Same(s0, s, p)
  }

  lemma TrackedEnd(s0: Timer, s: Timer, log: seq<Firing>, touched: set<nat>, abs: int, cur: int, tn: Id)
    requires Tracked(s0, s, log, touched, abs, cur, tn) && NoneRunning(s) && cur > abs
    ensures forall p :: p in s0.points && s0.points[p].serial !in touched ==> Outcome(s0, s, log, p, abs)
  {
  }

  // ---------------------------------------------------------------------------
  // Two corners
  // ---------------------------------------------------------------------------

  /** The point waits for this time. */
  ghost predicate WaitsAt(s: Timer, p: Id, ts: int)
  {
    && p in s.points && !s.points[p].running && s.points[p].ref in s.nodes
    && s.nodes[s.points[p].ref].ts == ts && p in s.nodes[s.points[p].ref].cblist
  }

  /**
   A running point that is reset with success, and kept, waits for the new time afterwards
   exactly if that is not the time being served; otherwise it is in the keep list.
   */
  lemma ResetThenKept(s: Timer, p: Id, tn: Id, ts: int, mem: Id)
    requires Inv(s) && p in s.points && s.points[p].running && tn in s.nodes && Live(s, Reset(p, ts, mem))
    requires mem != 0 || s.tcache != []
    ensures Defined(s, Reset(p, ts, mem))
    ensures var r := Exec(s, Reset(p, ts, mem));
            && p in r.points && (r.points[p].ref != 0 ==> r.points[p].ref in r.nodes)
            && var k := Returned(r, p, tn, Keep);
            && (WaitsAt(k, p, ts) <==> ts != s.nodes[tn].ts)
            && (ts == s.nodes[tn].ts ==> p in k.points && p in k.keeplist)
  {
    var c := Reset(p, ts, mem);
    InvMemory(s);
    ExecOk(s, c);
    ExecFrame(s, c);
    ResetPointMeans(s, p, ts, mem);
    var r := Exec(s, c);
    SameNode(s, p, tn, ts, mem);
    ReturnedOk(r, p, tn, Keep);
    hide Inv, ResetPoint, Frame, Returned;
    var k := Returned(r, p, tn, Keep);
    PlaceIsOk(k, p);
    ReturnedTimes(r, p, tn, Keep);
  }

  lemma ReturnedTimes(s: Timer, p: Id, tn: Id, code: Code)
    requires p in s.points && (s.points[p].ref != 0 ==> s.points[p].ref in s.nodes)
    ensures var r := Returned(s, p, tn, code);
            r.nodes.Keys == s.nodes.Keys && forall n :: n in s.nodes ==> r.nodes[n].ts == s.nodes[n].ts
  {
  }

  /** After a reset the point refers to the node being served exactly if it was reset to its time. */
  lemma SameNode(s: Timer, p: Id, tn: Id, ts: int, mem: Id)
    requires Inv(s) && p in s.points && s.points[p].running && tn in s.nodes && Live(s, Reset(p, ts, mem))
    requires mem != 0 || s.tcache != []
    ensures Defined(s, Reset(p, ts, mem))
    ensures var r := Exec(s, Reset(p, ts, mem));
            && p in r.points && r.points[p].running && r.points[p].ref != 0 && r.points[p].ref in r.nodes
            && (r.points[p].ref == tn <==> ts == s.nodes[tn].ts)
  {
    var c := Reset(p, ts, mem);
    InvMemory(s);
    ExecOk(s, c);
    RestOk(s.tcache, s.tsize, s.nodes.Keys, mem);
    ObtainedOk(s, ts, mem);
    TimesAreDistinct(s);
    if ts == s.nodes[tn].ts {
      NodeIsUnique(s.nodes, ts, tn);
    }
    hide Inv, DistinctTimes;
  }

  /** A callback at node 1 is running for point 1, and the timer has made nothing else. */
  function InCallback(): (s: Timer)
  {
    Timer(map[1 := TNode(10, [], true)], map[1 := Point(0, true, 1)], [], [], 0, [], 0, 1)
  }

  /** Its point was reset to time 20. */
  function AfterReset(): (s: Timer)
  {
    Timer(map[1 := TNode(10, [], true), 2 := TNode(20, [], false)], map[1 := Point(0, true, 2)], [], [], 0, [], 0, 1)
  }

  /** Another point was armed for the same time. */
  function AfterNew(): (s: Timer)
  {
    Timer(map[1 := TNode(10, [], true), 2 := TNode(20, [2], false)],
          map[1 := Point(0, true, 2), 2 := Point(1, false, 2)], [], [], 0, [], 0, 2)
  }

  lemma ResetStep()
    ensures var s, c := InCallback(), Reset(1, 20, 2);
            Inv(s) && Live(s, c) && Exec(s, c) == AfterReset() && Inv(AfterReset())
  {
    var s, c := InCallback(), Reset(1, 20, 2);
    assert PlaceOk(s, 1);
    assert Inv(s);
    ExecOk(s, c);
    assert !HasTime(s.nodes, 20);
    assert Exec(s, c) == AfterReset();
  }

  lemma NewStep()
    requires Inv(AfterReset())
    ensures var s, c := AfterReset(), New(20, 3, 2);
            Live(s, c) && Exec(s, c) == AfterNew() && Inv(AfterNew())
  {
    var s, c := AfterReset(), New(20, 3, 2);
    ExecOk(s, c);
    TimesAreDistinct(s);
    hide Inv;
    NodeIsUnique(s.nodes, 20, 2);
    var (s1, n) := Obtained(s, 20, 3);
    assert n == 2 && s1 == s;
    assert [2] + s.nodes[2].cblist == [2];
    assert Exec(s, c) == AfterNew();
  }

  /**
   A callback resets its point, arms another one for the same time and deletes that again: all
   calls are about live points, and yet the node that the running point waits for is gone.
   */
  lemma DanglingNode()
    ensures var s, c1, c2, c3 := InCallback(), Reset(1, 20, 2), New(20, 3, 2), Del(2);
            && Inv(s) && Live(s, c1) && Exec(s, c1) == AfterReset()
            && Inv(AfterReset()) && Live(AfterReset(), c2) && Exec(AfterReset(), c2) == AfterNew()
            && Inv(AfterNew()) && Live(AfterNew(), c3)
            && var r := Exec(AfterNew(), c3);
            1 in r.points && r.points[1].ref == 2 && 2 !in r.nodes && !Inv(r)
  {
    hide Inv;
    ResetStep();
    NewStep();
    var s := AfterNew();
    assert Removed([2], 2) == [];
    ExecOk(s, Del(2));
    assert s.points[1].running && s.points[1].ref == 2;
  }
}
