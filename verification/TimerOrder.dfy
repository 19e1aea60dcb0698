/** The comparison of tree nodes in src/evdp/timer.c meets what compat/rbtree/rb.c demands of it. */
module TimerOrder {
  import opened RbShape
  import opened RbOrder

  datatype Timespec = Timespec(sec: int, nsec: int)

  /** The CMP macro. */
  function Cmp(a: int, b: int): (r: int)
  {
    if a < b then -1 else if a == b then 0 else 1
  }

  /** evdp_timer_rbtree_cmp_node and evdp_timer_rbtree_cmp_key. */
  function CmpTime(e: Timespec, p: Timespec): (r: int)
  {
    if e.sec == p.sec then Cmp(e.nsec, p.nsec) else Cmp(e.sec, p.sec)
  }

  predicate Normal(t: Timespec)
  {
    0 <= t.nsec < 1_000_000_000
  }

  function Nanos(t: Timespec): (n: int)
  {
    t.sec * 1_000_000_000 + t.nsec
  }

  /** On normal times the comparison is the one of the times in nanoseconds. */
  lemma CmpIsNanos(a: Timespec, b: Timespec)
    requires Normal(a) && Normal(b)
    ensures CmpTime(a, b) == Cmp(Nanos(a), Nanos(b))
  {
  }

  /** The branches of evdp_timer_fetch_neareast_ts, with the borrow of neb_timespecsub: the time left until `first`. */
  function WaitFor(first: Timespec, now: Timespec): (r: Timespec)
    requires Normal(first) && Normal(now)
    ensures Normal(r) && Nanos(r) == if Nanos(first) > Nanos(now) then Nanos(first) - Nanos(now) else 0
  {
    if CmpTime(first, now) <= 0 then Timespec(0, 0)
    else
      var sec, nsec := first.sec - now.sec, first.nsec - now.nsec;
      if nsec < 0 then Timespec(sec - 1, nsec + 1_000_000_000) else Timespec(sec, nsec)
  }

  function CompareNodes(time: Ref -> Timespec): (cmp: Compare)
  {
    (a: Ref, b: Ref) => CmpTime(time(a), time(b))
  }

  /** The tree may rely on the comparison, for whatever times the nodes have. */
  lemma CompareIsOrder(time: Ref -> Timespec)
    ensures IsOrder(CompareNodes(time))
  {
    var cmp := CompareNodes(time);
    forall a: Ref, b: Ref ensures cmp(a, b) < 0 <==> cmp(b, a) > 0 {
      assert CmpTime(time(a), time(b)) == -CmpTime(time(b), time(a));
    }
    forall a: Ref, b: Ref, c: Ref ensures cmp(a, b) <= 0 && cmp(b, c) <= 0 ==> cmp(a, c) <= 0 {
      Transitive(time(a), time(b), time(c));
    }
    forall a: Ref, b: Ref, c: Ref ensures cmp(a, b) < 0 && cmp(b, c) <= 0 ==> cmp(a, c) < 0 {
      Transitive(time(a), time(b), time(c));
    }
    forall a: Ref, b: Ref, c: Ref ensures cmp(a, b) <= 0 && cmp(b, c) < 0 ==> cmp(a, c) < 0 {
      Transitive(time(a), time(b), time(c));
    }
  }

  lemma Transitive(a: Timespec, b: Timespec, c: Timespec)
    ensures CmpTime(a, b) <= 0 && CmpTime(b, c) <= 0 ==> CmpTime(a, c) <= 0
    ensures CmpTime(a, b) < 0 && CmpTime(b, c) <= 0 ==> CmpTime(a, c) < 0
    ensures CmpTime(a, b) <= 0 && CmpTime(b, c) < 0 ==> CmpTime(a, c) < 0
  {
  }

  /** A search for a time splits the nodes in order into those before, at and after it. */
  lemma KeyIsCut(time: Ref -> Timespec, key: Timespec, s: seq<Ref>)
    requires Sorted(CompareNodes(time), s)
    ensures Cut((a: Ref) => CmpTime(time(a), key), s)
  {
    var cmp := CompareNodes(time);
    forall i, j | 0 <= i < j < |s| && CmpTime(time(s[i]), key) >= 0 ensures CmpTime(time(s[j]), key) > 0 {
      assert cmp(s[i], s[j]) < 0;
      Transitive(key, time(s[i]), time(s[j]));
    }
  }
}
