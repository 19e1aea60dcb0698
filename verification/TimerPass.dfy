/**
 A whole pass of evdp_timer_run_until (src/evdp/timer.c) as a sequence of configurations: what
 each step does, which firings it records, and what holds over every pass.
 */
module TimerPass {
  import opened Common
  import opened TimerState
  import opened TimerRun

  /**
   Where a pass stands: about to look at a node (zero: at the end of the tree), serving a node
   between two callbacks, or inside the callback of the point `p` with these calls to come.
   */
  datatype Phase =
    | Looking(tn: Id)
    | Serving(tn: Id)
    | Calling(tn: Id, p: Id, calls: seq<Call>, code: Code)

  /** The timer, the phase, and the points fired so far, with the times of their nodes. */
  datatype Config = Config(s: Timer, phase: Phase, log: seq<Firing>)

  /** The callback with number `k`; after the given ones they do nothing and free their point. */
  function Script(scripts: seq<Callback>, k: nat): (cb: Callback)
  {
    if k < |scripts| then scripts[k] else Callback([], Free)
  }

  /** no_auto_del of the current node. */
  function Flagged(s: Timer, tn: Id, flag: bool): (r: Timer)
    requires tn in s.nodes
  {
    s.(nodes := s.nodes[tn := s.nodes[tn].(noAutoDel := flag)])
  }

  // ---------------------------------------------------------------------------
  // Steps
  // ---------------------------------------------------------------------------

  ghost predicate Enters(abs: int, a: Config, b: Config)
    requires a.phase.Looking?
  {
    var tn := a.phase.tn;
    tn in a.s.nodes && a.s.nodes[tn].ts <= abs && b == Config(Flagged(a.s, tn, true), Serving(tn), a.log)
  }

  /** The head of the list is taken out, and its callback starts. */
  ghost predicate Fires(scripts: seq<Callback>, a: Config, b: Config)
    requires a.phase.Serving?
  {
    var s, tn := a.s, a.phase.tn;
    && tn in s.nodes && s.nodes[tn].cblist != []
    && var p, cb := s.nodes[tn].cblist[0], Script(scripts, |a.log|);
    && p in s.points && PlaceOk(s, p)
    && b == Config(Lifted(s, p), Calling(tn, p, cb.calls, cb.code), a.log + [Firing(s.points[p].serial, s.nodes[tn].ts)])
  }

  /** The list is empty: the node leaves, and the next one in time is looked at. */
  ghost predicate Leaves(a: Config, b: Config)
    requires a.phase.Serving?
  {
    var s, tn := a.s, a.phase.tn;
    && tn in s.nodes && s.nodes[tn].cblist == [] && b.phase.Looking? && b.log == a.log
    && IsNext(s.nodes, s.nodes[tn].ts, b.phase.tn) && b.s == NodeDone(Flagged(s, tn, false), tn)
  }

  /** The callback makes its next call. */
  ghost predicate Calls(a: Config, b: Config)
    requires a.phase.Calling?
  {
    var Calling(tn, p, calls, code) := a.phase;
    && calls != [] && Live(a.s, calls[0]) && Harmless(a.s, calls[0]) && Defined(a.s, calls[0])
    && b == Config(Exec(a.s, calls[0]), Calling(tn, p, calls[1..], code), a.log)
  }

  /** The callback returns. */
  ghost predicate Returns(a: Config, b: Config)
    requires a.phase.Calling?
  {
    var Calling(tn, p, calls, code) := a.phase;
    && calls == [] && p in a.s.points && PlaceOk(a.s, p)
    && b == Config(Returned(a.s, p, tn, code), Serving(tn), a.log)
  }

  ghost predicate Steps(abs: int, scripts: seq<Callback>, a: Config, b: Config)
  {
    match a.phase
    case Looking(_) => Enters(abs, a, b)
    case Serving(_) => Fires(scripts, a, b) || Leaves(a, b)
    case Calling(_, _, _, _) => Calls(a, b) || Returns(a, b)
  }

  /** No node, or none that is due. */
  ghost predicate Final(abs: int, c: Config)
  {
    c.phase.Looking? && !(c.phase.tn in c.s.nodes && c.s.nodes[c.phase.tn].ts <= abs)
  }

  /** The next call of the callback is one that it must not make. */
  ghost predicate Stuck(c: Config)
  {
    c.phase.Calling? && c.phase.calls != [] && !(Live(c.s, c.phase.calls[0]) && Harmless(c.s, c.phase.calls[0]))
  }

  /** The configurations of a pass that starts in `s0`, up to some point. */
  ghost predicate IsPass(s0: Timer, abs: int, scripts: seq<Callback>, tr: seq<Config>)
  {
    && tr != [] && tr[0].s == s0 && tr[0].log == [] && tr[0].phase.Looking? && IsMin(s0.nodes, tr[0].phase.tn)
    && forall i :: 0 <= i < |tr| - 1 ==> Steps(abs, scripts, tr[i], tr[i + 1])
  }

  function Last(tr: seq<Config>): (c: Config)
    requires tr != []
  {
    tr[|tr| - 1]
  }

  lemma PassPlus(s0: Timer, abs: int, scripts: seq<Callback>, tr: seq<Config>, c: Config)
    requires IsPass(s0, abs, scripts, tr) && Steps(abs, scripts, Last(tr), c)
    ensures IsPass(s0, abs, scripts, tr + [c]) && Last(tr + [c]) == c
  {
    var r := tr + [c];
    forall i | 0 <= i < |r| - 1 ensures Steps(abs, scripts, r[i], r[i + 1]) {
      assert r[i] == tr[i];
      assert i < |tr| - 1 ==> r[i + 1] == tr[i + 1];
    }
  }

  lemma PassMinus(s0: Timer, abs: int, scripts: seq<Callback>, tr: seq<Config>)
    requires IsPass(s0, abs, scripts, tr) && |tr| > 1
    ensures IsPass(s0, abs, scripts, tr[..|tr| - 1]) && Steps(abs, scripts, tr[|tr| - 2], Last(tr))
    ensures tr == tr[..|tr| - 1] + [Last(tr)] && Last(tr[..|tr| - 1]) == tr[|tr| - 2]
  {
    assert Steps(abs, scripts, tr[|tr| - 2], tr[|tr| - 2 + 1]);
  }

  // ---------------------------------------------------------------------------
  // Every configuration of a pass is sound
  // ---------------------------------------------------------------------------

  ghost predicate OnlyRunning(points: map<Id, Point>, p: Id)
  {
    forall q :: q in points ==> (points[q].running <==> q == p)
  }

  /** The current node is in the tree, due, and protected. */
  ghost predicate Current(s: Timer, tn: Id, abs: int)
  {
    tn in s.nodes && s.nodes[tn].noAutoDel && s.nodes[tn].ts <= abs
  }

  ghost predicate Sound(abs: int, scripts: seq<Callback>, c: Config)
  {
    && Inv(c.s)
    && match c.phase
       case Looking(tn) => NoneRunning(c.s) && (tn != 0 ==> tn in c.s.nodes)
       case Serving(tn) => NoneRunning(c.s) && Current(c.s, tn, abs)
       case Calling(tn, p, calls, code) =>
         && Current(c.s, tn, abs) && p in c.s.points && OnlyRunning(c.s.points, p) && c.log != []
         && OfScript(scripts, |c.log| - 1, calls, code)
  }

  /** The calls to come are the rest of this callback. */
  ghost predicate OfScript(scripts: seq<Callback>, k: nat, calls: seq<Call>, code: Code)
  {
    var cb := Script(scripts, k);
    |calls| <= |cb.calls| && calls == cb.calls[|cb.calls| - |calls|..] && code == cb.code
  }

  lemma OfScriptNext(scripts: seq<Callback>, k: nat, calls: seq<Call>, code: Code)
    requires OfScript(scripts, k, calls, code) && calls != []
    ensures OfScript(scripts, k, calls[1..], code)
    ensures k < |scripts| && |scripts[k].calls| >= |calls| && scripts[k].calls[|scripts[k].calls| - |calls|] == calls[0]
  {
  }

  lemma FlaggedOk(s: Timer, tn: Id, flag: bool)
    requires Inv(s) && tn in s.nodes
    ensures Inv(Flagged(s, tn, flag)) && (NoneRunning(s) ==> NoneRunning(Flagged(s, tn, flag)))
  {
    var r := Flagged(s, tn, flag);
    forall m | m in r.nodes ensures ListOk(r.points, r.nodes[m].cblist, m) {
      assert ListOk(s.points, s.nodes[m].cblist, m);
    }
    forall p | p in r.points ensures PlaceOk(r, p) {
      assert PlaceOk(s, p);
    }
    assert r.nodes.Keys == s.nodes.Keys;
  }

  /** A call neither ends the running callback nor takes the current node away. */
  lemma RunningFrame(s: Timer, r: Timer, p: Id, t: Id, tn: Id)
    requires Frame(s, r, t) && p in s.points && OnlyRunning(s.points, p) && tn in s.nodes && s.nodes[tn].noAutoDel
    ensures p in r.points && OnlyRunning(r.points, p) && tn in r.nodes && r.nodes[tn].noAutoDel && r.nodes[tn].ts == s.nodes[tn].ts
  {
  }

  /** The end of a callback leaves the nodes in place, and without running points. */
  lemma ReturnedNodes(s: Timer, p: Id, tn: Id, code: Code)
    requires p in s.points && (s.points[p].ref != 0 ==> s.points[p].ref in s.nodes) && OnlyRunning(s.points, p) && tn in s.nodes
    ensures var r := Returned(s, p, tn, code);
            && NoneRunning(r) && tn in r.nodes && r.nodes[tn].ts == s.nodes[tn].ts && r.nodes[tn].noAutoDel == s.nodes[tn].noAutoDel
  {
  }

  lemma LiftedNodes(s: Timer, p: Id, tn: Id)
    requires Inv(s) && NoneRunning(s) && p in s.points && PlaceOk(s, p) && tn in s.nodes
    ensures var r := Lifted(s, p);
            && p in r.points && OnlyRunning(r.points, p)
            && tn in r.nodes && r.nodes[tn].ts == s.nodes[tn].ts && r.nodes[tn].noAutoDel == s.nodes[tn].noAutoDel
  {
  }

  lemma LeftNodes(s: Timer, tn: Id, next: Id)
    requires Inv(s) && NoneRunning(s) && tn in s.nodes && s.nodes[tn].cblist == [] && IsNext(s.nodes, s.nodes[tn].ts, next)
    ensures var r := NodeDone(Flagged(s, tn, false), tn);
            Inv(r) && NoneRunning(r) && (next != 0 ==> next in r.nodes)
  {
    FlaggedOk(s, tn, false);
    NodeDoneOk(Flagged(s, tn, false), tn);
  }

  /** Every step keeps each point in exactly one place and all else that the next step needs. */
  lemma StepIsSound(abs: int, scripts: seq<Callback>, a: Config, b: Config)
    requires Sound(abs, scripts, a) && Steps(abs, scripts, a, b)
    ensures Sound(abs, scripts, b)
  {
    hide Inv, NoneRunning, OnlyRunning, IsNext, OfScript, Lifted, Returned, Frame, Live, Harmless;
    match a.phase
    case Looking(tn) => FlaggedOk(a.s, tn, true);
    case Serving(tn) =>
      if Leaves(a, b) {
        LeftNodes(a.s, tn, b.phase.tn);
      } else {
        var p := a.s.nodes[tn].cblist[0];
        NotRunning(a.s, p);
        LiftedOk(a.s, p);
        LiftedNodes(a.s, p, tn);
        WholeScript(scripts, |a.log|);
      }
    case Calling(tn, p, calls, code) =>
      if Returns(a, b) {
        IsRunning(a.s, p);
        ReturnedOk(a.s, p, tn, code);
        ReturnedNodes(a.s, p, tn, code);
      } else {
        ExecOk(a.s, calls[0]);
        ExecFrame(a.s, calls[0]);
        RunningFrame(a.s, b.s, p, Target(calls[0]), tn);
        OfScriptNext(scripts, |a.log| - 1, calls, code);
      }
  }

  lemma NotRunning(s: Timer, p: Id)
    requires NoneRunning(s) && p in s.points
    ensures !s.points[p].running
  {
  }

  lemma IsRunning(s: Timer, p: Id)
    requires OnlyRunning(s.points, p) && p in s.points
    ensures s.points[p].running
  {
  }

  lemma WholeScript(scripts: seq<Callback>, k: nat)
    ensures OfScript(scripts, k, Script(scripts, k).calls, Script(scripts, k).code)
  {
  }

  /** A pass that starts outside callbacks is sound to its end. */
  lemma {:induction false} PassIsSound(s0: Timer, abs: int, scripts: seq<Callback>, tr: seq<Config>)
    requires Inv(s0) && NoneRunning(s0) && IsPass(s0, abs, scripts, tr)
    ensures Sound(abs, scripts, Last(tr))
    decreases |tr|
  {
    hide Inv, NoneRunning, Steps;
    if |tr| > 1 {
      PassMinus(s0, abs, scripts, tr);
      PassIsSound(s0, abs, scripts, tr[..|tr| - 1]);
      StepIsSound(abs, scripts, tr[|tr| - 2], Last(tr));
    }
  }

  // ---------------------------------------------------------------------------
  // Firings: in time, and once
  // ---------------------------------------------------------------------------

  ghost function TouchedAt(c: Config): (t: set<nat>)
  {
    if c.phase.Calling? && c.phase.calls != [] then TouchedBy(c.s, c.phase.calls[0]) else {}
  }

  /** The points that a callback of the pass has deleted or reset. */
  ghost function Touched(tr: seq<Config>): (t: set<nat>)
  {
    if |tr| <= 1 then {} else Touched(tr[..|tr| - 1]) + TouchedAt(tr[|tr| - 2])
  }

  /** The time that the pass has come to. */
  function Now(abs: int, c: Config): (ts: int)
  {
    NextTime(c.s.nodes, c.phase.tn, abs)
  }

  ghost predicate Recorded(s0: Timer, abs: int, c: Config, touched: set<nat>)
  {
    && Tracked(s0, c.s, c.log, touched, abs, Now(abs, c), c.phase.tn)
    && InTime(c.log, Now(abs, c)) && InTime(c.log, abs)
  }

  lemma FlaggedTracked(s: Timer, tn: Id, flag: bool, s0: Timer, log: seq<Firing>, touched: set<nat>, abs: int, cur: int)
    requires tn in s.nodes && Tracked(s0, s, log, touched, abs, cur, tn)
    ensures Tracked(s0, Flagged(s, tn, flag), log, touched, abs, cur, tn)
  {
    var r := Flagged(s, tn, flag);
    forall p | p in s0.points && s0.points[p].serial !in touched ensures Status(s0, r, log, p, abs, cur, tn) {
      assert Status(s0, s, log, p, abs, cur, tn);
    }
  }

  lemma LeftTracked(s0: Timer, s: Timer, log: seq<Firing>, touched: set<nat>, abs: int, tn: Id, next: Id)
    requires Inv(s0) && NoneRunning(s0) && Inv(s) && NoneRunning(s)
    requires tn in s.nodes && s.nodes[tn].cblist == [] && IsNext(s.nodes, s.nodes[tn].ts, next)
    requires Tracked(s0, s, log, touched, abs, s.nodes[tn].ts, tn)
    ensures var r := NodeDone(Flagged(s, tn, false), tn);
            Tracked(s0, r, log, touched, abs, NextTime(r.nodes, next, abs), next)
    ensures NextTime(NodeDone(Flagged(s, tn, false), tn).nodes, next, abs) > s.nodes[tn].ts || s.nodes[tn].ts > abs
  {
    var f := Flagged(s, tn, false);
    FlaggedOk(s, tn, false);
    InvMemory(s);
    FlaggedTracked(s, tn, false, s0, log, touched, abs, s.nodes[tn].ts);
    assert IsNext(f.nodes, f.nodes[tn].ts, next);
    TrackedDone(s0, f, log, touched, abs, tn, next);
    assert NextTime(NodeDone(f, tn).nodes, next, abs) == NextTime(f.nodes, next, abs);
  }

  lemma InTimeLater(log: seq<Firing>, a: int, b: int)
    requires InTime(log, a) && a <= b
    ensures InTime(log, b)
  {
  }

  lemma InTimePlus(log: seq<Firing>, f: Firing, ts: int)
    requires InTime(log, ts) && f.ts == ts
    ensures InTime(log + [f], ts)
  {
  }

  lemma StepIsRecorded(s0: Timer, abs: int, scripts: seq<Callback>, a: Config, b: Config, touched: set<nat>)
    requires Inv(s0) && NoneRunning(s0) && Sound(abs, scripts, a) && Steps(abs, scripts, a, b) && Sound(abs, scripts, b)
    requires Recorded(s0, abs, a, touched)
    ensures Recorded(s0, abs, b, touched + TouchedAt(a))
  {
    hide Inv, NoneRunning, OnlyRunning, IsNext, OfScript, Lifted, Returned, Frame, Tracked, InTime, Live, Harmless, Exec;
    match a.phase
    case Looking(tn) =>
      FlaggedTracked(a.s, tn, true, s0, a.log, touched, abs, a.s.nodes[tn].ts);
      assert touched + {} == touched;
    case Serving(tn) =>
      assert touched + {} == touched;
      if Leaves(a, b) {
        LeftTracked(s0, a.s, a.log, touched, abs, tn, b.phase.tn);
        InTimeLater(a.log, a.s.nodes[tn].ts, Now(abs, b));
      } else {
        FiresRecorded(s0, abs, scripts, a, b, touched);
      }
    case Calling(tn, p, calls, code) =>
      if Returns(a, b) {
        assert touched + {} == touched;
        IsRunning(a.s, p);
        TrackedReturned(s0, a.s, a.log, touched, abs, Now(abs, a), tn, p, code);
        ReturnedNodes(a.s, p, tn, code);
      } else {
        ExecOk(a.s, calls[0]);
        TrackedCall(s0, a.s, calls[0], a.log, touched, abs, Now(abs, a), tn);
        ExecFrame(a.s, calls[0]);
        RunningFrame(a.s, b.s, p, Target(calls[0]), tn);
      }
  }

  lemma FiresRecorded(s0: Timer, abs: int, scripts: seq<Callback>, a: Config, b: Config, touched: set<nat>)
    requires Inv(s0) && NoneRunning(s0) && Sound(abs, scripts, a) && a.phase.Serving? && Fires(scripts, a, b)
    requires Recorded(s0, abs, a, touched)
    ensures Recorded(s0, abs, b, touched)
  {
    var tn, s := a.phase.tn, a.s;
    var p := s.nodes[tn].cblist[0];
    assert p in s.nodes[tn].cblist;
    InvMemory(s);
    LiftedNodes(s, p, tn);
    TrackedFired(s0, s, a.log, touched, abs, tn, p);
    hide Inv, NoneRunning, Tracked, InTime, Lifted;
    var f := Firing(s.points[p].serial, s.nodes[tn].ts);
    InTimePlus(a.log, f, f.ts);
    InTimeLater(a.log + [f], f.ts, abs);
  }

  /** At every point of a pass the firings are those of due points, in the order of time, and points keep their status. */
  lemma {:induction false} PassIsRecorded(s0: Timer, abs: int, scripts: seq<Callback>, tr: seq<Config>)
    requires Inv(s0) && NoneRunning(s0) && IsPass(s0, abs, scripts, tr)
    ensures Recorded(s0, abs, Last(tr), Touched(tr))
    decreases |tr|
  {
    hide Inv, NoneRunning, Steps, Recorded, Sound;
    if |tr| > 1 {
      var before := tr[..|tr| - 1];
      PassMinus(s0, abs, scripts, tr);
      PassIsRecorded(s0, abs, scripts, before);
      PassIsSound(s0, abs, scripts, before);
      PassIsSound(s0, abs, scripts, tr);
      StepIsRecorded(s0, abs, scripts, Last(before), Last(tr), Touched(before));
    } else {
      StartIsRecorded(s0, abs, tr[0]);
    }
  }

  lemma StartIsRecorded(s0: Timer, abs: int, c: Config)
    requires Inv(s0) && NoneRunning(s0) && c.s == s0 && c.log == [] && c.phase.Looking? && IsMin(s0.nodes, c.phase.tn)
    ensures Recorded(s0, abs, c, {})
  {
    TrackedStart(s0, abs, c.phase.tn);
  }

  /** A finished pass: every point that was due and that no callback deleted or reset was fired exactly once, all others were left alone. */
  lemma PassOutcome(s0: Timer, abs: int, scripts: seq<Callback>, tr: seq<Config>)
    requires Inv(s0) && NoneRunning(s0) && IsPass(s0, abs, scripts, tr) && Final(abs, Last(tr))
    ensures var c := Last(tr);
            && Inv(c.s) && NoneRunning(c.s) && InTime(c.log, abs)
            && forall p :: p in s0.points && s0.points[p].serial !in Touched(tr) ==> Outcome(s0, c.s, c.log, p, abs)
  {
    PassIsSound(s0, abs, scripts, tr);
    PassIsRecorded(s0, abs, scripts, tr);
    var c := Last(tr);
    TrackedEnd(s0, c.s, c.log, Touched(tr), abs, Now(abs, c), c.phase.tn);
  }

  /** One of the callbacks makes a call about the point at `p`. */
  ghost predicate Aimed(scripts: seq<Callback>, p: Id)
  {
    exists k, j :: 0 <= k < |scripts| && 0 <= j < |scripts[k].calls| && Target(scripts[k].calls[j]) == p
  }

  /** Only points that are named in some callback count as deleted or reset. */
  lemma {:induction false} TouchedIsAimed(s0: Timer, abs: int, scripts: seq<Callback>, tr: seq<Config>, p: Id)
    requires Inv(s0) && NoneRunning(s0) && IsPass(s0, abs, scripts, tr)
    requires p in s0.points && s0.points[p].serial in Touched(tr)
    ensures Aimed(scripts, p)
    decreases |tr|
  {
    hide Inv, NoneRunning, Steps, Aimed, TouchedAt;
    var before := tr[..|tr| - 1];
    PassMinus(s0, abs, scripts, tr);
    if s0.points[p].serial in Touched(before) {
      TouchedIsAimed(s0, abs, scripts, before, p);
    } else {
      PassIsSound(s0, abs, scripts, before);
      PassIsRecorded(s0, abs, scripts, before);
      StepAims(s0, abs, scripts, Last(before), Touched(before), p);
    }
  }

  lemma StepAims(s0: Timer, abs: int, scripts: seq<Callback>, c: Config, touched: set<nat>, p: Id)
    requires Sound(abs, scripts, c) && Recorded(s0, abs, c, touched) && p in s0.points && s0.points[p].serial in TouchedAt(c)
    ensures Aimed(scripts, p)
  {
    hide Inv, NoneRunning, OnlyRunning, Status, InTime, OfScript;
    assert Target(c.phase.calls[0]) == p;
    OfScriptNext(scripts, |c.log| - 1, c.phase.calls, c.phase.code);
  }

  /** Every entry of the log is the firing of the head of the list of a due node, and every firing has its entry. */
  lemma {:induction false} FiringIsReal(s0: Timer, abs: int, scripts: seq<Callback>, tr: seq<Config>, k: nat) returns (i: nat)
    requires Inv(s0) && NoneRunning(s0) && IsPass(s0, abs, scripts, tr) && k < |Last(tr).log|
    ensures i < |tr| - 1 && tr[i].phase.Serving? && |tr[i].log| == k && Fires(scripts, tr[i], tr[i + 1])
    ensures tr[i].phase.tn in tr[i].s.nodes && tr[i].s.nodes[tr[i].phase.tn].ts <= abs
    ensures tr[i + 1].log[k] == Last(tr).log[k]
    decreases |tr|
  {
    hide Inv, NoneRunning, Sound, Fires;
    PassMinus(s0, abs, scripts, tr);
    var before := tr[..|tr| - 1];
    StepLog(abs, scripts, Last(before), Last(tr));
    if k < |Last(before).log| {
      i := FiringIsReal(s0, abs, scripts, before, k);
    } else {
      i := |tr| - 2;
      PassIsSound(s0, abs, scripts, before);
      ServingIsDue(abs, scripts, tr[i]);
    }
  }

  lemma ServingIsDue(abs: int, scripts: seq<Callback>, c: Config)
    requires Sound(abs, scripts, c) && c.phase.Serving?
    ensures c.phase.tn in c.s.nodes && c.s.nodes[c.phase.tn].ts <= abs
  {
  }

  /** The log grows by exactly one entry with each firing. */
  lemma StepLog(abs: int, scripts: seq<Callback>, a: Config, b: Config)
    requires Steps(abs, scripts, a, b)
    ensures a.log <= b.log && |b.log| <= |a.log| + 1
    ensures |b.log| == |a.log| + 1 <==> a.phase.Serving? && Fires(scripts, a, b)
  {
  }

  lemma {:induction false} FirstTouch(tr: seq<Config>, serial: nat) returns (j: nat)
    requires serial in Touched(tr)
    ensures j < |tr| - 1 && serial in TouchedAt(tr[j]) && serial !in Touched(tr[..j + 1])
    decreases |tr|
  {
    hide TouchedAt;
    var before := tr[..|tr| - 1];
    if serial in Touched(before) {
      j := FirstTouch(before, serial);
      assert before[..j + 1] == tr[..j + 1];
    } else {
      j := |tr| - 2;
    }
  }

  lemma {:induction false} LogGrows(s0: Timer, abs: int, scripts: seq<Callback>, tr: seq<Config>, j: nat)
    requires IsPass(s0, abs, scripts, tr) && j < |tr|
    ensures tr[j].log <= Last(tr).log
    decreases |tr|
  {
    hide Steps, IsMin;
    if j < |tr| - 1 {
      PassMinus(s0, abs, scripts, tr);
      LogGrows(s0, abs, scripts, tr[..|tr| - 1], j);
      StepLog(abs, scripts, tr[|tr| - 2], Last(tr));
    }
  }

  lemma {:induction false} FiredIsLogged(log: seq<Firing>, serial: nat, ts: int)
    requires Times(log, serial) > 0 && FiredFor(log, serial, ts)
    ensures Firing(serial, ts) in log
  {
    var f := log[|log| - 1];
    if f.serial == serial {
      assert f == Firing(serial, ts);
    } else {
      FiredIsLogged(log[..|log| - 1], serial, ts);
    }
  }

  /**
   Every point that is due at the start is fired for its time, unless a callback deletes or
   resets it before; what its own callback or a later one does to it makes no difference.
   */
  lemma DueIsFired(s0: Timer, abs: int, scripts: seq<Callback>, tr: seq<Config>, p: Id)
    requires Inv(s0) && NoneRunning(s0) && IsPass(s0, abs, scripts, tr) && Final(abs, Last(tr)) && Due(s0, p, abs)
    ensures var serial, ts := s0.points[p].serial, s0.nodes[s0.points[p].ref].ts;
            || Firing(serial, ts) in Last(tr).log
            || exists j :: 0 <= j < |tr| - 1 && serial in TouchedAt(tr[j]) && Times(tr[j].log, serial) == 0
  {
    var serial, ts := s0.points[p].serial, s0.nodes[s0.points[p].ref].ts;
    hide Inv, NoneRunning, Steps, IsMin, TouchedAt;
    if serial !in Touched(tr) {
      PassOutcome(s0, abs, scripts, tr);
      FiredIsLogged(Last(tr).log, serial, ts);
    } else {
      var j := FirstTouch(tr, serial);
      PassPrefix(s0, abs, scripts, tr, j);
      PassIsRecorded(s0, abs, scripts, tr[..j + 1]);
      LogGrows(s0, abs, scripts, tr, j);
      if Times(tr[j].log, serial) > 0 {
        FiredIsLogged(tr[j].log, serial, ts);
      }
    }
  }

  // ---------------------------------------------------------------------------
  // What a pass leaves behind
  // ---------------------------------------------------------------------------

  /** A call of this step makes the node `m`, for a time before the one that is being served. */
  ghost predicate PutsLate(a: Config, b: Config, m: Id, ts: int)
  {
    && Arms(a, ts) && m !in a.s.nodes && m in b.s.nodes && b.s.nodes[m].ts == ts
    && a.phase.tn in a.s.nodes && ts < a.s.nodes[a.phase.tn].ts
  }

  /** The next call is New or Reset with this time. */
  ghost predicate Arms(c: Config, ts: int)
  {
    && c.phase.Calling? && c.phase.calls != []
    && match c.phase.calls[0]
       case New(t, _, _) => t == ts
       case Del(_) => false
       case Reset(_, t, _) => t == ts
  }

  /** A call of this step takes the node `m` away. */
  ghost predicate TakesAway(a: Config, b: Config, m: Id)
  {
    a.phase.Calling? && m in a.s.nodes && m !in b.s.nodes
  }

  /** A node behind the pass: its time has been passed by. */
  ghost predicate Behind(abs: int, c: Config, m: Id, ts: int)
  {
    m in c.s.nodes && c.s.nodes[m].ts == ts && ts < Now(abs, c)
  }

  lemma LiftedTimes(s: Timer, p: Id)
    requires p in s.points && PlaceOk(s, p)
    ensures var r := Lifted(s, p);
            r.nodes.Keys == s.nodes.Keys && forall n :: n in s.nodes ==> r.nodes[n].ts == s.nodes[n].ts
  {
  }

  /** A new node is made by New or Reset, for the time of the call. */
  lemma NewNodeTime(s: Timer, c: Call, m: Id)
    requires Inv(s) && Live(s, c) && Defined(s, c) && m !in s.nodes && m in Exec(s, c).nodes
    ensures match c
            case New(t, _, _) => Exec(s, c).nodes[m].ts == t
            case Del(_) => false
            case Reset(_, t, _) => Exec(s, c).nodes[m].ts == t
  {
    hide Inv;
  }

  /** Outside calls, nodes keep their times, and only the node that is left goes away. */
  lemma StepNodes(abs: int, scripts: seq<Callback>, a: Config, b: Config)
    requires Sound(abs, scripts, a) && Steps(abs, scripts, a, b) && !(a.phase.Calling? && a.phase.calls != [])
    ensures var gone := if a.phase.Serving? && b.phase.Looking? then {a.phase.tn} else {};
            b.s.nodes.Keys == a.s.nodes.Keys - gone && forall m :: m in b.s.nodes ==> b.s.nodes[m].ts == a.s.nodes[m].ts
  {
    hide Inv, NoneRunning, OnlyRunning, OfScript, Lifted, Returned, IsNext;
    match a.phase
    case Looking(_) =>
    case Serving(tn) =>
      if Fires(scripts, a, b) {
        LiftedTimes(a.s, a.s.nodes[tn].cblist[0]);
      }
    case Calling(tn, p, _, code) => ReturnedTimes(a.s, p, tn, code);
  }

  /** A call keeps the times of nodes, and the node being served. */
  lemma CallNodes(abs: int, scripts: seq<Callback>, a: Config, b: Config)
    requires Sound(abs, scripts, a) && a.phase.Calling? && Calls(a, b)
    ensures b.phase.Calling? && a.phase.tn == b.phase.tn && a.phase.tn in a.s.nodes && Now(abs, a) == Now(abs, b)
    ensures forall m :: m in a.s.nodes && m in b.s.nodes ==> b.s.nodes[m].ts == a.s.nodes[m].ts
    ensures forall m :: m in b.s.nodes && m !in a.s.nodes ==> Arms(a, b.s.nodes[m].ts)
  {
    hide Inv, Exec, Live, Harmless, PointsFrame;
    var c := a.phase.calls[0];
    ExecFrame(a.s, c);
    forall m | m in b.s.nodes && m !in a.s.nodes ensures Arms(a, b.s.nodes[m].ts) {
      NewNodeTime(a.s, c, m);
    }
  }

  lemma SameNow(abs: int, a: Config, b: Config)
    requires a.phase.tn == b.phase.tn && a.s.nodes.Keys == b.s.nodes.Keys
    requires forall m :: m in b.s.nodes ==> b.s.nodes[m].ts == a.s.nodes[m].ts
    ensures Now(abs, a) == Now(abs, b)
  {
  }

  /** From node to node: what is behind the next node was behind this one, and stays. */
  lemma LeavesBehind(abs: int, scripts: seq<Callback>, a: Config, b: Config, m: Id, ts: int)
    requires Sound(abs, scripts, a) && a.phase.Serving? && Leaves(a, b)
    ensures Behind(abs, a, m, ts) <==> Behind(abs, b, m, ts)
  {
    InvMemory(a.s);
    TimesAreDistinct(a.s);
    hide Inv, NoneRunning;
  }

  /** A node stays behind until a call takes it away, and comes there only by a late call. */
  lemma StepBehind(abs: int, scripts: seq<Callback>, a: Config, b: Config, m: Id, ts: int)
    requires Sound(abs, scripts, a) && Steps(abs, scripts, a, b)
    ensures Behind(abs, a, m, ts) && !TakesAway(a, b, m) ==> Behind(abs, b, m, ts)
    ensures Behind(abs, b, m, ts) && !Behind(abs, a, m, ts) ==> PutsLate(a, b, m, ts)
    ensures Behind(abs, b, m, ts) ==> !TakesAway(a, b, m)
  {
    if a.phase.Calling? && Calls(a, b) {
      CallNodes(abs, scripts, a, b);
    } else if a.phase.Serving? && Leaves(a, b) {
      LeavesBehind(abs, scripts, a, b, m, ts);
    } else {
      StepNodes(abs, scripts, a, b);
      SameNow(abs, a, b);
    }
  }

  /** The node was put behind the pass at step `i`, and no call has taken it away since. */
  ghost predicate PutAndLeft(tr: seq<Config>, i: nat, m: Id, ts: int)
  {
    && i < |tr| - 1 && PutsLate(tr[i], tr[i + 1], m, ts)
    && forall j :: i < j < |tr| - 1 ==> !TakesAway(tr[j], tr[j + 1], m)
  }

  lemma NothingBehind(s0: Timer, abs: int, c: Config, m: Id, ts: int)
    requires c.s == s0 && c.phase.Looking? && IsMin(s0.nodes, c.phase.tn)
    ensures !Behind(abs, c, m, ts)
  {
  }

  lemma {:induction false} BehindIsPut(s0: Timer, abs: int, scripts: seq<Callback>, tr: seq<Config>, m: Id, ts: int) returns (i: nat)
    requires Inv(s0) && NoneRunning(s0) && IsPass(s0, abs, scripts, tr) && Behind(abs, Last(tr), m, ts)
    ensures PutAndLeft(tr, i, m, ts)
    decreases |tr|
  {
    hide Inv, NoneRunning, Steps, Sound, Behind, PutsLate, TakesAway, IsMin;
    if |tr| == 1 {
      NothingBehind(s0, abs, tr[0], m, ts);
    } else {
      var before := tr[..|tr| - 1];
      PassMinus(s0, abs, scripts, tr);
      PassIsSound(s0, abs, scripts, before);
      StepBehind(abs, scripts, Last(before), Last(tr), m, ts);
      if Behind(abs, Last(before), m, ts) {
        i := BehindIsPut(s0, abs, scripts, before, m, ts);
      } else {
        i := |tr| - 2;
      }
    }
  }

  lemma {:induction false} PutStaysBehind(s0: Timer, abs: int, scripts: seq<Callback>, tr: seq<Config>, i: nat, m: Id, ts: int)
    requires Inv(s0) && NoneRunning(s0) && IsPass(s0, abs, scripts, tr) && PutAndLeft(tr, i, m, ts)
    ensures Behind(abs, Last(tr), m, ts) && ts <= abs
    decreases |tr|
  {
    var before := tr[..|tr| - 1];
    PassMinus(s0, abs, scripts, tr);
    PassIsSound(s0, abs, scripts, before);
    if i == |tr| - 2 {
      PutIsBehind(abs, scripts, Last(before), Last(tr), m, ts);
    } else {
      assert PutAndLeft(before, i, m, ts);
      PutStaysBehind(s0, abs, scripts, before, i, m, ts);
      hide Inv, NoneRunning, Steps, Sound, Behind, PutsLate, TakesAway;
      StepBehind(abs, scripts, Last(before), Last(tr), m, ts);
    }
  }

  lemma PutIsBehind(abs: int, scripts: seq<Callback>, a: Config, b: Config, m: Id, ts: int)
    requires Sound(abs, scripts, a) && Steps(abs, scripts, a, b) && PutsLate(a, b, m, ts)
    ensures Behind(abs, b, m, ts) && ts <= abs
  {
    hide Inv, OnlyRunning, OfScript, Live, Harmless, Exec;
    CallNodes(abs, scripts, a, b);
  }

  /**
   A pass leaves a node that is due exactly if a callback has armed a point for this time when
   the pass was at a later one already, and no call has taken the node away again.
   */
  lemma LeftOver(s0: Timer, abs: int, scripts: seq<Callback>, tr: seq<Config>, m: Id, ts: int)
    requires Inv(s0) && NoneRunning(s0) && IsPass(s0, abs, scripts, tr) && Final(abs, Last(tr))
    ensures (m in Last(tr).s.nodes && Last(tr).s.nodes[m].ts == ts && ts <= abs) <==> exists i :: PutAndLeft(tr, i, m, ts)
  {
    hide Inv, NoneRunning, Steps, IsMin;
    if m in Last(tr).s.nodes && Last(tr).s.nodes[m].ts == ts && ts <= abs {
      assert Behind(abs, Last(tr), m, ts);
      var i := BehindIsPut(s0, abs, scripts, tr, m, ts);
    }
    hide PutAndLeft;
    if i: nat :| PutAndLeft(tr, i, m, ts) {
      PutStaysBehind(s0, abs, scripts, tr, i, m, ts);
    }
  }

  /** None of the callbacks arms a point for `abs` or earlier. */
  predicate ArmsOnlyLater(scripts: seq<Callback>, abs: int)
  {
    forall k, j :: 0 <= k < |scripts| && 0 <= j < |scripts[k].calls| ==>
      match scripts[k].calls[j]
      case New(t, _, _) => t > abs
      case Del(_) => true
      case Reset(_, t, _) => t > abs
  }

  /** If callbacks arm for later times only, nothing that is due is left. */
  lemma NothingDueIsLeft(s0: Timer, abs: int, scripts: seq<Callback>, tr: seq<Config>)
    requires Inv(s0) && NoneRunning(s0) && IsPass(s0, abs, scripts, tr) && Final(abs, Last(tr)) && ArmsOnlyLater(scripts, abs)
    ensures forall m :: m in Last(tr).s.nodes ==> Last(tr).s.nodes[m].ts > abs
  {
    forall m | m in Last(tr).s.nodes ensures Last(tr).s.nodes[m].ts > abs {
      var ts := Last(tr).s.nodes[m].ts;
      if ts <= abs {
        LeftOver(s0, abs, scripts, tr, m, ts);
        hide Inv, NoneRunning, OnlyRunning;
        var i: nat :| PutAndLeft(tr, i, m, ts);
        PassPrefix(s0, abs, scripts, tr, i);
        PassIsSound(s0, abs, scripts, tr[..i + 1]);
        OfScriptNext(scripts, |tr[i].log| - 1, tr[i].phase.calls, tr[i].phase.code);
      }
    }
  }

  lemma PassPrefix(s0: Timer, abs: int, scripts: seq<Callback>, tr: seq<Config>, i: nat)
    requires IsPass(s0, abs, scripts, tr) && i < |tr|
    ensures IsPass(s0, abs, scripts, tr[..i + 1]) && Last(tr[..i + 1]) == tr[i]
  {
  }

  /** A point is armed for time 10, and nothing else. */
  function Armed(): (s: Timer)
  {
    Timer(map[1 := TNode(10, [1], false)], map[1 := Point(0, false, 1)], [], [], 0, [], 0, 1)
  }

  /** In its callback a point is armed for time 5. */
  function ArmEarlier(): (scripts: seq<Callback>)
  {
    [Callback([New(5, 2, 2)], Free)]
  }

  function EarlierTrace(): (tr: seq<Config>)
  {
    var log := [Firing(0, 10)];
    var n1, n2 := TNode(10, [], true), TNode(5, [2], false);
    var p1, p2 := Point(0, true, 1), Point(1, false, 2);
    [ Config(Armed(), Looking(1), []),
      Config(Flagged(Armed(), 1, true), Serving(1), []),
      Config(Timer(map[1 := n1], map[1 := p1], [], [], 0, [], 0, 1), Calling(1, 1, [New(5, 2, 2)], Free), log),
      Config(Timer(map[1 := n1, 2 := n2], map[1 := p1, 2 := p2], [], [], 0, [], 0, 2), Calling(1, 1, [], Free), log),
      Config(Timer(map[1 := n1, 2 := n2], map[2 := p2], [], [], 0, [], 0, 2), Serving(1), log),
      Config(Timer(map[2 := n2], map[2 := p2], [], [], 0, [], 0, 2), Looking(0), log) ]
  }

  lemma EarlierStart()
    ensures Inv(Armed()) && NoneRunning(Armed())
    ensures var tr := EarlierTrace(); Enters(10, tr[0], tr[1]) && Fires(ArmEarlier(), tr[1], tr[2])
  {
    assert PlaceOk(Armed(), 1);
    var s := EarlierTrace()[1].s;
    assert Removed([1], 1) == [];
    assert Lifted(s, 1) == EarlierTrace()[2].s;
  }

  lemma EarlierCall()
    ensures var tr := EarlierTrace(); Calls(tr[2], tr[3])
  {
    var c := EarlierTrace()[2];
    assert c.phase.calls[1..] == [];
    assert !HasTime(c.s.nodes, 5);
    assert [2] + [] == [2];
    assert Exec(c.s, New(5, 2, 2)) == EarlierTrace()[3].s;
  }

  lemma EarlierEnd()
    ensures var tr := EarlierTrace(); Returns(tr[3], tr[4]) && Leaves(tr[4], tr[5])
  {
    var tr := EarlierTrace();
    assert Returned(tr[3].s, 1, 1, Free) == tr[4].s;
    assert NodeDone(Flagged(tr[4].s, 1, false), 1) == tr[5].s;
  }

  /** The pass up to 10 is over, and a point still waits for time 5. */
  lemma EarlierWaits()
    ensures Inv(Armed()) && NoneRunning(Armed()) && IsPass(Armed(), 10, ArmEarlier(), EarlierTrace())
    ensures var c := Last(EarlierTrace()); Final(10, c) && WaitsAt(c.s, 2, 5)
  {
    EarlierStart();
    EarlierCall();
    EarlierEnd();
    hide Inv, Enters, Fires, Calls, Returns, Leaves;
    var tr, scripts := EarlierTrace(), ArmEarlier();
    assert Steps(10, scripts, tr[0], tr[1]) && Steps(10, scripts, tr[1], tr[2]) && Steps(10, scripts, tr[2], tr[3]);
    assert Steps(10, scripts, tr[3], tr[4]) && Steps(10, scripts, tr[4], tr[5]);
  }

  // ---------------------------------------------------------------------------
  // Every pass comes to an end, and to one only
  // ---------------------------------------------------------------------------

  /** Scripts that are still to come. */
  function Remaining(scripts: seq<Callback>, count: nat): (n: nat)
  {
    if count < |scripts| then |scripts| - count else 0
  }

  /** Calls that are still to come in this callback. */
  function Pending(c: Config): (n: nat)
  {
    if c.phase.Calling? then |c.phase.calls| else 0
  }

  /** Points that wait in the list of the current node. */
  function Waiting(c: Config): (n: nat)
  {
    if c.phase.tn in c.s.nodes then |c.s.nodes[c.phase.tn].cblist| else 0
  }

  function Rank(c: Config): (n: nat)
  {
    if c.phase.Serving? then 0 else 1
  }

  /** Scripts, calls, nodes, points of the node, and phase: one of them gets less, those before stay. */
  ghost predicate Less(scripts: seq<Callback>, b: Config, a: Config)
  {
    var r, r' := Remaining(scripts, |a.log|), Remaining(scripts, |b.log|);
    || r' < r
    || (r' == r && Pending(b) < Pending(a))
    || (r' == r && Pending(b) == Pending(a) && |b.s.nodes.Keys| < |a.s.nodes.Keys|)
    || (r' == r && Pending(b) == Pending(a) && b.s.nodes.Keys == a.s.nodes.Keys && Waiting(b) < Waiting(a))
    || (r' == r && Pending(b) == Pending(a) && b.s.nodes.Keys == a.s.nodes.Keys && Waiting(b) == Waiting(a) && Rank(b) < Rank(a))
  }

  lemma FewerNodes(nodes: set<Id>, tn: Id)
    requires tn in nodes
    ensures |nodes - {tn}| < |nodes|
  {
  }

  /** The end of a callback does not change the list of the node being served. */
  lemma ReturnedWaiting(s: Timer, p: Id, tn: Id, code: Code)
    requires p in s.points && (s.points[p].ref != 0 ==> s.points[p].ref in s.nodes) && tn in s.nodes && tn != 0
    ensures Returned(s, p, tn, code).nodes.Keys == s.nodes.Keys && Returned(s, p, tn, code).nodes[tn].cblist == s.nodes[tn].cblist
  {
  }

  lemma LiftedWaiting(s: Timer, p: Id, tn: Id)
    requires p in s.points && PlaceOk(s, p) && tn in s.nodes && tn != 0 && s.points[p].ref == tn && s.nodes[tn].cblist != [] && s.nodes[tn].cblist[0] == p
    ensures var r := Lifted(s, p); r.nodes.Keys == s.nodes.Keys && |r.nodes[tn].cblist| < |s.nodes[tn].cblist|
  {
  }

  lemma StepIsLess(abs: int, scripts: seq<Callback>, a: Config, b: Config)
    requires Sound(abs, scripts, a) && Steps(abs, scripts, a, b)
    ensures Less(scripts, b, a)
  {
    InvMemory(a.s);
    hide Inv, NoneRunning, OnlyRunning, IsNext, OfScript, Lifted, Returned, Live, Harmless, Exec;
    match a.phase
    case Looking(tn) =>
    case Serving(tn) =>
      if Leaves(a, b) {
        assert b.s.nodes.Keys == a.s.nodes.Keys - {tn};
        FewerNodes(a.s.nodes.Keys, tn);
      } else {
        var p := a.s.nodes[tn].cblist[0];
        assert p in a.s.nodes[tn].cblist;
        InList(a.s, p, tn);
        LiftedWaiting(a.s, p, tn);
      }
    case Calling(tn, p, calls, code) =>
      if Returns(a, b) {
        ReturnedWaiting(a.s, p, tn, code);
      }
  }

  /** There is a next node, or none. */
  lemma HasNext(nodes: map<Id, TNode>, ts: int) returns (n: Id)
    requires 0 !in nodes
    ensures IsNext(nodes, ts, n)
  {
    var later := set m | m in nodes && nodes[m].ts > ts;
    assert forall m :: m in nodes && nodes[m].ts > ts ==> m in later;
    if later == {} {
      n := 0;
    } else {
      n := Earliest(nodes, later);
    }
  }

  lemma {:induction false} Earliest(nodes: map<Id, TNode>, some: set<Id>) returns (n: Id)
    requires some != {} && some <= nodes.Keys
    ensures n in some && forall m :: m in some ==> nodes[m].ts >= nodes[n].ts
    decreases |some|
  {
    n :| n in some;
    if some != {n} {
      var rest := some - {n};
      FewerNodes(some, n);
      assert exists m :: m in some && m != n;
      var m := Earliest(nodes, rest);
      if nodes[m].ts < nodes[n].ts {
        n := m;
      }
    }
  }

  /** Where a pass has neither ended nor met a call that must not be made, it goes on. */
  lemma GoesOn(abs: int, scripts: seq<Callback>, c: Config) returns (d: Config)
    requires Sound(abs, scripts, c) && !Final(abs, c) && !Stuck(c)
    ensures Steps(abs, scripts, c, d)
  {
    InvMemory(c.s);
    hide Inv, NoneRunning, OnlyRunning, OfScript, Lifted, Returned, Live, Harmless, Exec, IsNext;
    match c.phase
    case Looking(tn) => d := Config(Flagged(c.s, tn, true), Serving(tn), c.log);
    case Serving(tn) =>
      if c.s.nodes[tn].cblist == [] {
        var n := HasNext(c.s.nodes, c.s.nodes[tn].ts);
        d := Config(NodeDone(Flagged(c.s, tn, false), tn), Looking(n), c.log);
      } else {
        var p, cb := c.s.nodes[tn].cblist[0], Script(scripts, |c.log|);
        assert p in c.s.nodes[tn].cblist;
        InList(c.s, p, tn);
        PlaceIsOk(c.s, p);
        d := Config(Lifted(c.s, p), Calling(tn, p, cb.calls, cb.code), c.log + [Firing(c.s.points[p].serial, c.s.nodes[tn].ts)]);
      }
    case Calling(tn, p, calls, code) =>
      if calls == [] {
        PlaceIsOk(c.s, p);
        d := Config(Returned(c.s, p, tn, code), Serving(tn), c.log);
      } else {
        ExecOk(c.s, calls[0]);
        d := Config(Exec(c.s, calls[0]), Calling(tn, p, calls[1..], code), c.log);
      }
  }

  /** Every pass can be carried on until it is over, or stands before a call that must not be made. */
  lemma {:induction false} PassEnds(s0: Timer, abs: int, scripts: seq<Callback>, tr: seq<Config>) returns (whole: seq<Config>)
    requires Inv(s0) && NoneRunning(s0) && IsPass(s0, abs, scripts, tr)
    ensures IsPass(s0, abs, scripts, whole) && tr <= whole && (Final(abs, Last(whole)) || Stuck(Last(whole)))
    decreases Remaining(scripts, |Last(tr).log|), Pending(Last(tr)), |Last(tr).s.nodes.Keys|, Waiting(Last(tr)), Rank(Last(tr))
  {
    hide Inv, NoneRunning, Steps, Sound, Final, Stuck;
    if Final(abs, Last(tr)) || Stuck(Last(tr)) {
      whole := tr;
    } else {
      PassIsSound(s0, abs, scripts, tr);
      var d := GoesOn(abs, scripts, Last(tr));
      PassPlus(s0, abs, scripts, tr, d);
      StepIsLess(abs, scripts, Last(tr), d);
      whole := PassEnds(s0, abs, scripts, tr + [d]);
    }
  }

  lemma NextIsUnique(nodes: map<Id, TNode>, ts: int, m: Id, n: Id)
    requires DistinctTimes(nodes) && 0 !in nodes && IsNext(nodes, ts, m) && IsNext(nodes, ts, n)
    ensures m == n
  {
  }

  lemma StepIsUnique(abs: int, scripts: seq<Callback>, a: Config, b: Config, c: Config)
    requires Sound(abs, scripts, a) && Steps(abs, scripts, a, b) && Steps(abs, scripts, a, c)
    ensures b == c && !Final(abs, a) && !Stuck(a)
  {
    if a.phase.Serving? && Leaves(a, b) {
      InvMemory(a.s);
      TimesAreDistinct(a.s);
      NextIsUnique(a.s.nodes, a.s.nodes[a.phase.tn].ts, b.phase.tn, c.phase.tn);
    }
    hide Inv, NoneRunning, OnlyRunning, OfScript, Lifted, Returned, Live, Harmless, Exec, IsNext;
  }

  lemma StartIsUnique(s0: Timer, m: Id, n: Id)
    requires Inv(s0) && IsMin(s0.nodes, m) && IsMin(s0.nodes, n)
    ensures m == n
  {
    InvMemory(s0);
    TimesAreDistinct(s0);
  }

  /** Timer, time and callbacks determine the pass. */
  lemma {:induction false} PassIsUnique(s0: Timer, abs: int, scripts: seq<Callback>, tr: seq<Config>, tr': seq<Config>)
    requires Inv(s0) && NoneRunning(s0) && IsPass(s0, abs, scripts, tr) && IsPass(s0, abs, scripts, tr')
    ensures tr <= tr' || tr' <= tr
    ensures |tr| < |tr'| ==> !Final(abs, Last(tr)) && !Stuck(Last(tr))
    decreases |tr|
  {
    hide Inv, NoneRunning, Sound, Final, Stuck, Steps, IsMin;
    StartIsUnique(s0, tr[0].phase.tn, tr'[0].phase.tn);
    if |tr| > 1 {
      var before := tr[..|tr| - 1];
      PassMinus(s0, abs, scripts, tr);
      PassIsUnique(s0, abs, scripts, before, tr');
    }
    if 1 < |tr| <= |tr'| {
      var k := |tr| - 2;
      assert Steps(abs, scripts, tr[k], tr[k + 1]) && Steps(abs, scripts, tr'[k], tr'[k + 1]);
      PassPrefix(s0, abs, scripts, tr, k);
      PassIsSound(s0, abs, scripts, tr[..k + 1]);
      StepIsUnique(abs, scripts, tr[k], tr[k + 1], tr'[k + 1]);
    }
    if |tr| < |tr'| {
      PassIsSound(s0, abs, scripts, tr);
      var k := |tr| - 1;
      assert tr'[k] == tr[k];
      assert Steps(abs, scripts, tr'[k], tr'[k + 1]);
      StepIsUnique(abs, scripts, tr[k], tr'[k + 1], tr'[k + 1]);
    }
  }

  /** The point `q` alone waits on the node that the running point `p` was reset to. */
  predicate AloneWith(s: Timer, p: Id, q: Id)
  {
    && p in s.points && q in s.points && p != q && s.points[p].ref in s.nodes
    && var n := s.nodes[s.points[p].ref]; n.cblist == [q] && !n.noAutoDel
  }

  /**
   A call on a live point must not be made exactly if it deletes or moves the only point that
   waits on the node to which the running point was reset.
   */
  lemma StuckMeans(abs: int, scripts: seq<Callback>, c: Config)
    requires Sound(abs, scripts, c) && c.phase.Calling? && c.phase.calls != [] && Live(c.s, c.phase.calls[0])
    ensures Stuck(c) <==>
            match c.phase.calls[0]
            case New(_, _, _) => false
            case Del(q) => AloneWith(c.s, c.phase.p, q)
            case Reset(q, ts, mem) =>
              AloneWith(c.s, c.phase.p, q) && c.s.nodes[c.s.points[c.phase.p].ref].ts != ts && (mem != 0 || c.s.tcache != [])
  {
    var s, p := c.s, c.phase.p;
    var q := Target(c.phase.calls[0]);
    if q in s.points {
      AwaitedMeans(s, p, q);
    }
    hide Inv, OfScript, OnlyRunning;
  }

  lemma AwaitedMeans(s: Timer, p: Id, q: Id)
    requires Inv(s) && p in s.points && q in s.points && OnlyRunning(s.points, p)
    ensures TakesAwaited(s, q) <==> AloneWith(s, p, q)
    ensures TakesAwaited(s, q) ==> s.points[q].ref == s.points[p].ref
  {
    if AloneWith(s, p, q) {
      var n := s.points[p].ref;
      assert q in s.nodes[n].cblist;
      InList(s, q, n);
      assert s.points[p].running;
    }
  }

  predicate NoResets(scripts: seq<Callback>)
  {
    forall k, j :: 0 <= k < |scripts| && 0 <= j < |scripts[k].calls| ==> !scripts[k].calls[j].Reset?
  }

  /** The running point still belongs to the node being served, or was deleted. */
  ghost predicate AtHome(c: Config)
  {
    c.phase.Calling? && c.phase.p in c.s.points ==> c.s.points[c.phase.p].ref == 0 || c.s.points[c.phase.p].ref == c.phase.tn
  }

  lemma StepAtHome(abs: int, scripts: seq<Callback>, a: Config, b: Config)
    requires Sound(abs, scripts, a) && Steps(abs, scripts, a, b) && AtHome(a) && NoResets(scripts)
    ensures AtHome(b)
  {
    match a.phase
    case Looking(_) =>
    case Serving(tn) =>
      if Fires(scripts, a, b) {
        var p := a.s.nodes[tn].cblist[0];
        assert p in a.s.nodes[tn].cblist;
        InList(a.s, p, tn);
      }
    case Calling(tn, p, calls, code) =>
      if Calls(a, b) {
        OfScriptNext(scripts, |a.log| - 1, calls, code);
        InvMemory(a.s);
        ExecFrame(a.s, calls[0]);
        hide Inv, NewPoint, NodesFrame, OfScript, Harmless, Live;
        if calls[0] == Del(p) {
          assert a.s.points[p].running;
        }
      }
  }

  lemma {:induction false} PassAtHome(s0: Timer, abs: int, scripts: seq<Callback>, tr: seq<Config>)
    requires Inv(s0) && NoneRunning(s0) && IsPass(s0, abs, scripts, tr) && NoResets(scripts)
    ensures AtHome(Last(tr))
    decreases |tr|
  {
    hide Inv, NoneRunning, Steps, Sound, NoResets;
    if |tr| > 1 {
      PassMinus(s0, abs, scripts, tr);
      PassIsSound(s0, abs, scripts, tr[..|tr| - 1]);
      PassAtHome(s0, abs, scripts, tr[..|tr| - 1]);
      StepAtHome(abs, scripts, tr[|tr| - 2], Last(tr));
    }
  }

  /** If no callback resets a point, every call on a live point may be made. */
  lemma NeverStuck(s0: Timer, abs: int, scripts: seq<Callback>, tr: seq<Config>)
    requires Inv(s0) && NoneRunning(s0) && IsPass(s0, abs, scripts, tr) && NoResets(scripts)
    ensures var c := Last(tr); Stuck(c) ==> !Live(c.s, c.phase.calls[0])
  {
    var c := Last(tr);
    if Stuck(c) && Live(c.s, c.phase.calls[0]) {
      PassIsSound(s0, abs, scripts, tr);
      PassAtHome(s0, abs, scripts, tr);
      StuckMeans(abs, scripts, c);
      InvMemory(c.s);
    }
  }

  // ---------------------------------------------------------------------------
  // Following a pass
  // ---------------------------------------------------------------------------

  /** A pass that started outside callbacks has come to the configuration `c`. */
  ghost predicate Stands(s0: Timer, abs: int, scripts: seq<Callback>, tr: seq<Config>, c: Config)
  {
    Inv(s0) && NoneRunning(s0) && IsPass(s0, abs, scripts, tr) && Last(tr) == c
  }

  lemma StandsSound(s0: Timer, abs: int, scripts: seq<Callback>, tr: seq<Config>, c: Config)
    requires Stands(s0, abs, scripts, tr, c)
    ensures Sound(abs, scripts, c)
  {
    PassIsSound(s0, abs, scripts, tr);
  }

  lemma StandsLast(s0: Timer, abs: int, scripts: seq<Callback>, tr: seq<Config>, c: Config)
    requires Stands(s0, abs, scripts, tr, c)
    ensures IsPass(s0, abs, scripts, tr) && Last(tr) == c
  {
  }

  lemma SoundInv(abs: int, scripts: seq<Callback>, c: Config)
    requires Sound(abs, scripts, c)
    ensures Inv(c.s)
  {
  }

  lemma StandsAtNode(s0: Timer, abs: int, scripts: seq<Callback>, tr: seq<Config>, s: Timer, tn: Id, log: seq<Firing>)
    requires Stands(s0, abs, scripts, tr, Config(s, Serving(tn), log))
    ensures tn in s.nodes
  {
    StandsSound(s0, abs, scripts, tr, Config(s, Serving(tn), log));
  }

  lemma StandsAtLook(s0: Timer, abs: int, scripts: seq<Callback>, tr: seq<Config>, s: Timer, tn: Id, log: seq<Firing>)
    requires Stands(s0, abs, scripts, tr, Config(s, Looking(tn), log))
    ensures 0 !in s.nodes && (tn != 0 ==> tn in s.nodes)
  {
    StandsSound(s0, abs, scripts, tr, Config(s, Looking(tn), log));
    InvMemory(s);
  }

  lemma StandsStart(s0: Timer, abs: int, scripts: seq<Callback>, tn: Id)
    requires Inv(s0) && NoneRunning(s0) && IsMin(s0.nodes, tn)
    ensures var c := Config(s0, Looking(tn), []); Stands(s0, abs, scripts, [c], c)
  {
  }

  lemma StandsStuck(s0: Timer, abs: int, scripts: seq<Callback>, tr: seq<Config>)
    requires tr != [] && Stands(s0, abs, scripts, tr, Last(tr)) && Stuck(Last(tr))
    ensures IsPass(s0, abs, scripts, tr) && |Last(tr).log| > 0
    ensures OfScript(scripts, |Last(tr).log| - 1, Last(tr).phase.calls, Last(tr).phase.code)
  {
    StandsSound(s0, abs, scripts, tr, Last(tr));
  }

  lemma StandsNext(s0: Timer, abs: int, scripts: seq<Callback>, tr: seq<Config>, c: Config, d: Config)
    requires Stands(s0, abs, scripts, tr, c) && Steps(abs, scripts, c, d)
    ensures Stands(s0, abs, scripts, tr + [d], d)
  {
    PassPlus(s0, abs, scripts, tr, d);
  }

  /** The firing of the head of the list, as a step. */
  lemma FiresNext(abs: int, scripts: seq<Callback>, s: Timer, tn: Id, log: seq<Firing>)
    requires Sound(abs, scripts, Config(s, Serving(tn), log)) && s.nodes[tn].cblist != []
    ensures var p, cb := s.nodes[tn].cblist[0], Script(scripts, |log|);
            && p in s.points && PlaceOk(s, p)
            && var d := Config(Lifted(s, p), Calling(tn, p, cb.calls, cb.code), log + [Firing(s.points[p].serial, s.nodes[tn].ts)]);
            && Steps(abs, scripts, Config(s, Serving(tn), log), d)
            && d.s.nodes.Keys == s.nodes.Keys && |d.s.nodes[tn].cblist| < |s.nodes[tn].cblist|
  {
    var p := s.nodes[tn].cblist[0];
    assert p in s.nodes[tn].cblist;
    InvMemory(s);
    InList(s, p, tn);
    PlaceIsOk(s, p);
    hide Inv, NoneRunning, Lifted;
    LiftedWaiting(s, p, tn);
  }

  lemma ReturnsNext(abs: int, scripts: seq<Callback>, s: Timer, tn: Id, p: Id, code: Code, log: seq<Firing>)
    requires Sound(abs, scripts, Config(s, Calling(tn, p, [], code), log))
    ensures p in s.points && PlaceOk(s, p)
    ensures var d := Config(Returned(s, p, tn, code), Serving(tn), log);
            && Steps(abs, scripts, Config(s, Calling(tn, p, [], code), log), d) && tn in s.nodes
            && d.s.nodes.Keys == s.nodes.Keys && d.s.nodes[tn].cblist == s.nodes[tn].cblist
  {
    InvMemory(s);
    PlaceIsOk(s, p);
    hide Inv, OnlyRunning, Returned, OfScript;
    ReturnedWaiting(s, p, tn, code);
  }

  lemma CallsNext(abs: int, scripts: seq<Callback>, c: Config)
    requires Sound(abs, scripts, c) && c.phase.Calling? && c.phase.calls != [] && !Stuck(c)
    ensures Live(c.s, c.phase.calls[0]) && Defined(c.s, c.phase.calls[0])
    ensures Steps(abs, scripts, c, Config(Exec(c.s, c.phase.calls[0]), c.phase.(calls := c.phase.calls[1..]), c.log))
  {
    hide Inv, OnlyRunning, OfScript, Live, Harmless, Exec;
    ExecOk(c.s, c.phase.calls[0]);
  }

  lemma LeavesNext(abs: int, scripts: seq<Callback>, s: Timer, tn: Id, next: Id, log: seq<Firing>)
    requires tn in s.nodes && s.nodes[tn].cblist == [] && IsNext(Flagged(s, tn, false).nodes, s.nodes[tn].ts, next)
    ensures Steps(abs, scripts, Config(s, Serving(tn), log), Config(NodeDone(Flagged(s, tn, false), tn), Looking(next), log))
  {
    var f := Flagged(s, tn, false);
    assert forall m :: m in s.nodes <==> m in f.nodes;
    assert IsNext(s.nodes, s.nodes[tn].ts, next);
  }
}
