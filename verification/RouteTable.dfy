/**
 The route table of src/net/radix.c: a map from networks to user data on top of the radix
 tree, with a callback that receives every value that leaves the table.
 */
module RouteTable {
  import opened Common
  import opened Radix
  import opened RadixUpdate
  import opened RadixHistory
  import opened RadixTree

  /** A socket address: family, address bits, and the port field with the prefix length. */
  datatype NetAddr = NetAddr(family: int, key: Key, plen: nat)

  /** A value together with the network it was set for. */
  datatype Stored = Stored(route: Route, value: int)

  /** Which of the allocations of a call succeed. */
  datatype Memory = Memory(entry: bool, network: bool, netmask: bool, maskNode: bool)

  // ---------------------------------------------------------------------------
  // The values in a table
  // ---------------------------------------------------------------------------

  ghost function Pairs(m: map<Route, int>): (s: set<Stored>)
  {
    set q | q in m :: Stored(q, m[q])
  }

  ghost function Contents(m: map<Route, int>): (s: multiset<Stored>)
  {
    multiset(Pairs(m))
  }

  lemma Put(m: map<Route, int>, q: Route, d: int)
    requires q !in m
    ensures Contents(m[q := d]) == Contents(m) + multiset{Stored(q, d)}
  {
    assert Pairs(m[q := d]) == Pairs(m) + {Stored(q, d)} by {
      forall x ensures x in Pairs(m[q := d]) <==> x in Pairs(m) + {Stored(q, d)} {
        assert x in Pairs(m[q := d]) <==> x.route in m[q := d] && m[q := d][x.route] == x.value;
        assert x in Pairs(m) <==> x.route in m && m[x.route] == x.value;
      }
    }
  }

  lemma Taken(m: map<Route, int>, q: Route)
    requires q in m
    ensures Contents(m - {q}) + multiset{Stored(q, m[q])} == Contents(m)
  {
    var rest := m - {q};
    assert rest[q := m[q]] == m;
    Put(rest, q, m[q]);
  }

  lemma Replaced(m: map<Route, int>, q: Route, d: int)
    requires q in m
    ensures Contents(m[q := d]) + multiset{Stored(q, m[q])} == Contents(m) + multiset{Stored(q, d)}
  {
    var rest := m - {q};
    assert rest[q := d] == m[q := d];
    Taken(m, q);
    Put(rest, q, d);
  }

  /** The books still balance when one value replaces another, which is reported. */
  lemma Balanced(m: map<Route, int>, log: seq<Stored>, accepted: multiset<Stored>, q: Route, d: int)
    requires q in m && accepted == Contents(m) + multiset(log)
    ensures accepted + multiset{Stored(q, d)} == Contents(m[q := d]) + multiset(log + [Stored(q, m[q])])
  {
    Replaced(m, q, d);
    var was, now := multiset{Stored(q, m[q])}, multiset{Stored(q, d)};
    assert multiset(log + [Stored(q, m[q])]) == multiset(log) + was;
    Exchange(Contents(m), Contents(m[q := d]), multiset(log), was, now);
  }

  lemma Exchange(c: multiset<Stored>, c': multiset<Stored>, l: multiset<Stored>, was: multiset<Stored>, now: multiset<Stored>)
    requires c' + was == c + now
    ensures c + l + now == c' + (l + was)
  {
    assert c + l + now == (c + now) + l;
  }

  lemma NotAllOnes(q: Route)
    requires q.plen < |q.key| && ZeroFrom(q.key, q.plen)
    ensures !AllOnes(q.key)
  {
    assert !q.key[q.plen];
  }

  lemma NotYet(s: seq<Route>, i: nat)
    requires InOrder(s) && i < |s|
    ensures s[i] !in s[..i]
  {
    forall j | 0 <= j < i ensures s[j] != s[i] {
      InOrderIsOnce(s, j, i);
    }
  }

  /** `now` is what is left of a table after the first `i` of these networks are gone. */
  ghost predicate Undropped(before: map<Route, int>, visited: seq<Route>, i: nat, now: map<Route, int>)
  {
    i <= |visited| && now == before - Members(visited[..i])
  }

  lemma DropStep(before: map<Route, int>, visited: seq<Route>, i: nat, now: map<Route, int>)
    requires Undropped(before, visited, i, now) && InOrder(visited) && i < |visited|
    requires forall q :: q in visited ==> q in before
    ensures visited[i] in now && Undropped(before, visited, i + 1, now - {visited[i]})
    ensures Reports(before, visited)[..i + 1] == Reports(before, visited)[..i] + [Stored(visited[i], now[visited[i]])]
  {
    NotYet(visited, i);
    MembersStep(visited, i);
  }

  lemma NoneDropped(before: map<Route, int>, visited: seq<Route>)
    ensures Undropped(before, visited, 0, before)
  {
    assert before - Members([]) == before;
  }

  lemma NoneLeft(before: map<Route, int>, visited: seq<Route>, now: map<Route, int>)
    requires Undropped(before, visited, |visited|, now) && Members(visited) == before.Keys
    ensures now == map[] && Contents(now) == multiset{}
  {
    assert visited[..|visited|] == visited;
  }

  /** The calls of on_del for these networks, one after the other. */
  ghost function Reports(m: map<Route, int>, visited: seq<Route>): (log: seq<Stored>)
    requires forall q :: q in visited ==> q in m
  {
    seq(|visited|, i requires 0 <= i < |visited| => Stored(visited[i], m[visited[i]]))
  }

  // ---------------------------------------------------------------------------
  // The table
  // ---------------------------------------------------------------------------

  class RouteTable {
    const family: int
    const onDel: bool
    const head: RadixHead
    var udata: map<Route, int>
    /** The calls of on_del so far, in order, with the network whose entry held the value. */
    var deleted: seq<Stored>
    /** Every value that was accepted so far, with its network. */
    ghost var accepted: multiset<Stored>

    /** Every accepted value is either the stored one of its network or went to on_del, once. */
    ghost predicate Conserved()
      reads this
    {
      accepted == Contents(udata) + multiset(deleted)
    }

    ghost predicate Ok()
      reads this, head
    {
      && head.Ok() && udata.Keys == Routes(head.top)
      && (forall q :: q in udata ==> q.plen < head.w && udata[q] != 0)
      && (onDel ==> Conserved())
    }

    constructor (fam: int, width: nat, callback: bool)
      requires width > 0
      ensures Ok() && fresh(head) && head.w == width && family == fam && onDel == callback
      ensures udata == map[] && deleted == [] && accepted == multiset{}
    {
      family, onDel := fam, callback;
      head := new RadixHead(width);
      udata, deleted, accepted := map[], [], multiset{};
    }

    /** neb_net_radix_entry_del on an entry that is in the table: its value goes to on_del. */
    method DropEntry(q: Route)
      requires q in udata
      modifies this`udata, this`deleted
      ensures udata == old(udata) - {q}
      ensures deleted == old(deleted) + if onDel then [Stored(q, old(udata)[q])] else []
      ensures old(Conserved()) && onDel ==> Conserved()
    {
      Taken(udata, q);
      if onDel {
        deleted := deleted + [Stored(q, udata[q])];
      }
      udata := udata - {q};
    }

    /** The entry of `q` gets a value; the one that it had goes to on_del. */
    method StoreValue(q: Route, data: int)
      modifies this`udata, this`deleted, this`accepted
      ensures udata == old(udata)[q := data] && accepted == old(accepted) + multiset{Stored(q, data)}
      ensures deleted == old(deleted) + if onDel && q in old(udata) then [Stored(q, old(udata)[q])] else []
      ensures old(Conserved()) && onDel ==> Conserved()
    {
      if q in udata {
        if onDel {
          if Conserved() {
            Balanced(udata, deleted, accepted, q, data);
          }
          deleted := deleted + [Stored(q, udata[q])];
        }
      } else {
        Put(udata, q, data);
      }
      udata := udata[q := data];
      accepted := accepted + multiset{Stored(q, data)};
    }

    /**
     neb_net_radix_tree_set: the new value is stored under exactly its network, and a value that
     was there before goes to on_del; on failure nothing changes. The address bits outside the
     prefix must be zero, as the tree demands.
     */
    method Set(a: NetAddr, data: int, memory: Memory) returns (r: int)
      requires Ok()
      requires a.family == family ==> |a.key| == head.w && (a.plen < head.w ==> ZeroFrom(a.key, a.plen))
      modifies this, head
      ensures Ok()
      ensures r == 0 || r == -1
      ensures r == 0 <==> a.family == family && data != 0 && a.plen < head.w && memory.entry && memory.network
                          && memory.netmask && (a.plen in old(head.masks) || memory.maskNode)
      ensures r == 0 ==> var q := Route(a.key, a.plen);
                         && udata == old(udata)[q := data] && accepted == old(accepted) + multiset{Stored(q, data)}
                         && deleted == old(deleted) + if onDel && q in old(udata) then [Stored(q, old(udata)[q])] else []
      ensures r == -1 ==> udata == old(udata) && deleted == old(deleted) && accepted == old(accepted)
      ensures head.masks == old(head.masks) + if r == 0 then {a.plen} else {}
    {
      hide ValidTop, Routes, ZeroFrom;
      if a.family != family || data == 0 {
        return -1;
      }
      if !memory.entry || a.plen >= head.w || !memory.network || !memory.netmask {
        return -1;
      }
      var q := Route(a.key, a.plen);
      assert Normal(head.w, q);
      var added := head.AddRoute(q, memory.maskNode);
      if !added {
        NotAllOnes(q);
        var x := head.Lookup(q);
        if x.None? {
          return -1;
        }
      }
      StoreValue(q, data);
      return 0;
    }

    /** neb_net_radix_tree_unset: removes exactly this network, if it is there. */
    method Unset(a: NetAddr, memory: bool)
      requires Ok()
      requires a.family == family ==> |a.key| == head.w && a.plen <= head.w
      modifies this, head
      ensures Ok() && accepted == old(accepted)
      ensures var q := Route(a.key, a.plen);
              if a.family == family && memory && q in old(udata) then
                && udata == old(udata) - {q}
                && deleted == old(deleted) + if onDel then [Stored(q, old(udata)[q])] else []
              else udata == old(udata) && deleted == old(deleted)
      ensures head.masks == old(head.masks)
    {
      if a.family != family || !memory {
        return;
      }
      var q := Route(a.key, a.plen);
      var found := head.DeleteRoute(q);
      if found {
        DropEntry(q);
      }
    }

    /** The network whose value a lookup returns. */
    ghost predicate IsAnswer(key: Key, m: Option<Route>)
      reads this, head
    {
      if AllOnes(key) then m == None else IsLongestMatch(udata.Keys, key, m)
    }

    /**
     neb_net_radix_tree_lpm_get: the value of the longest matching network, zero exactly when
     there is none; the all-ones address never has one. With `fill` the address becomes the network.
     */
    method LpmGet(a: NetAddr, fill: bool) returns (value: int, out: NetAddr)
      requires Ok() && (a.family == family ==> |a.key| == head.w)
      ensures a.family != family ==> value == 0 && out == a
      ensures a.family == family ==>
                exists m :: IsAnswer(a.key, m)
                         && match m
                            case None => value == 0 && out == a
                            case Some(q) => q in udata && value == udata[q] != 0
                                            && out == if fill then NetAddr(family, q.key, q.plen) else a
    {
      out := a;
      if a.family != family {
        return 0, a;
      }
      var m := head.Match(a.key);
      if AllOnes(a.key) {
        MatchOfAllOnes(head.w, head.top, a.key);
      }
      assert IsAnswer(a.key, m);
      match m {
        case None => value := 0;
        case Some(q) =>
          value := udata[q];
          if fill {
            out := NetAddr(family, q.key, q.plen);
          }
      }
    }

    /**
     neb_net_radix_tree_destroy: the walk empties the table; with on_del installed every value
     that was ever accepted has then been passed to it exactly once.
     */
    method Destroy()
      requires Ok()
      modifies this, head
      ensures Ok() && udata == map[] && accepted == old(accepted) && head.masks == old(head.masks)
      ensures onDel ==> multiset(deleted) == accepted
      ensures exists visited :: InOrder(visited) && Members(visited) == old(udata).Keys
                && deleted == old(deleted) + if onDel then Reports(old(udata), visited) else []
    {
      hide ValidTop, Normal, InOrder;
      NoRouteToOnes();
      var visited := head.DeleteAll();
      DropAll(visited);
    }

    /** The callback of the walk on every entry that it meets. */
    method DropAll(visited: seq<Route>)
      requires InOrder(visited) && Members(visited) == udata.Keys
      requires onDel ==> Conserved()
      modifies this`udata, this`deleted
      ensures udata == map[] && (onDel ==> multiset(deleted) == accepted)
      ensures deleted == old(deleted) + if onDel then Reports(old(udata), visited) else []
    {
      hide Dropping, InOrder;
      ghost var before, log := udata, deleted;
      DropStart(visited);
      var i := 0;
      while i < |visited|
        invariant i <= |visited| && Dropping(before, log, visited, i)
      {
        DropNext(before, log, visited, i);
        i := i + 1;
      }
      DropEnd(before, log, visited);
    }

    /** The walk has reported the first `i` entries that it meets. */
    ghost predicate Dropping(before: map<Route, int>, log: seq<Stored>, visited: seq<Route>, i: nat)
      reads this
    {
      && i <= |visited| && (forall q :: q in visited ==> q in before)
      && Undropped(before, visited, i, udata)
      && deleted == log + (if onDel then Reports(before, visited)[..i] else [])
      && (onDel ==> Conserved())
    }

    lemma DropStart(visited: seq<Route>)
      requires Members(visited) == udata.Keys && (onDel ==> Conserved())
      ensures Dropping(udata, deleted, visited, 0)
    {
      assert forall q :: q in visited ==> q in Members(visited);
      NoneDropped(udata, visited);
    }

    method DropNext(ghost before: map<Route, int>, ghost log: seq<Stored>, visited: seq<Route>, i: nat)
      requires Dropping(before, log, visited, i) && i < |visited| && InOrder(visited)
      modifies this`udata, this`deleted
      ensures Dropping(before, log, visited, i + 1)
    {
      hide Undropped, Conserved, InOrder;
      DropStep(before, visited, i, udata);
      DropEntry(visited[i]);
    }

    lemma DropEnd(before: map<Route, int>, log: seq<Stored>, visited: seq<Route>)
      requires Dropping(before, log, visited, |visited|) && Members(visited) == before.Keys
      ensures udata == map[] && (onDel ==> multiset(deleted) == accepted)
      ensures deleted == log + if onDel then Reports(before, visited) else []
    {
      NoneLeft(before, visited, udata);
      assert onDel ==> Reports(before, visited)[..|visited|] == Reports(before, visited);
      AllReported();
    }

    lemma AllReported()
      requires Contents(udata) == multiset{}
      ensures Conserved() ==> multiset(deleted) == accepted
    {
    }

    lemma NoRouteToOnes()
      requires Ok()
      ensures RoutesAt(Routes(head.top), Ones(head.w)) == {}
    {
      RoutesAreNormal(head.w, head.top, 0);
      forall q | q in Routes(head.top) ensures q.key != Ones(head.w) {
        NotAllOnes(q);
      }
    }
  }
}
