/**
 Chained hash table (compat/hashtable/hash.c). A bucket's first entry lives in the bucket
 array itself; the others live in overflow cells, which are recycled through a free list.
 Cells carry an identity, so that the model shows where every cell goes.
 */
module HashTransfer {
  import opened Common
  import opened Flattening

  /** A non-NULL pointer to a user entry. */
  type Entry = e: int | e > 0 witness 1

  type Cell = nat

  /** An overflow cell together with the entry that it holds. */
  datatype Link = Link(cell: Cell, data: Entry)

  datatype Bucket = Empty | Used(head: Entry, overflow: seq<Link>)

  type Hasher = (Entry, nat) -> nat
  type Comparator = (Entry, Entry) -> bool

  // ---------------------------------------------------------------------------
  // Abstraction of a bucket array
  // ---------------------------------------------------------------------------

  function Datas(ls: seq<Link>): (r: seq<Entry>)
    ensures |r| == |ls| && forall i :: 0 <= i < |ls| ==> r[i] == ls[i].data
  {
    seq(|ls|, i requires 0 <= i < |ls| => ls[i].data)
  }

  function CellsOf(ls: seq<Link>): (r: seq<Cell>)
    ensures |r| == |ls| && forall i :: 0 <= i < |ls| ==> r[i] == ls[i].cell
  {
    seq(|ls|, i requires 0 <= i < |ls| => ls[i].cell)
  }

  function Chain(b: Bucket): (r: seq<Entry>)
  {
    if b.Empty? then [] else [b.head] + Datas(b.overflow)
  }

  ghost function Overflow(b: Bucket): (r: seq<Cell>)
  {
    if b.Empty? then [] else CellsOf(b.overflow)
  }

  ghost function Chains(bs: seq<Bucket>): (r: seq<seq<Entry>>)
    ensures |r| == |bs| && forall i :: 0 <= i < |bs| ==> r[i] == Chain(bs[i])
  {
    seq(|bs|, i requires 0 <= i < |bs| => Chain(bs[i]))
  }

  ghost function CellChains(bs: seq<Bucket>): (r: seq<seq<Cell>>)
    ensures |r| == |bs| && forall i :: 0 <= i < |bs| ==> r[i] == Overflow(bs[i])
  {
    seq(|bs|, i requires 0 <= i < |bs| => Overflow(bs[i]))
  }

  /** All entries in the order in which the table is walked. */
  ghost function Walk(bs: seq<Bucket>): (r: seq<Entry>)
  {
    Flatten(Chains(bs))
  }

  ghost function Bag(bs: seq<Bucket>): multiset<Entry>
  {
    multiset(Walk(bs))
  }

  /** All overflow cells in use. */
  ghost function CellBag(bs: seq<Bucket>): multiset<Cell>
  {
    multiset(Flatten(CellChains(bs)))
  }

  ghost function UsedCount(bs: seq<Bucket>): (r: nat)
  {
    CountNonEmpty(Chains(bs))
  }

  /** Every entry sits in the bucket that the hasher selects for it. */
  ghost predicate Placed(h: Hasher, bs: seq<Bucket>)
  {
    forall i, e :: 0 <= i < |bs| && e in Chain(bs[i]) ==> h(e, |bs|) == i
  }

  /** What safe_hasher insists on. */
  ghost predicate InRange(h: Hasher)
  {
    forall e: Entry, n: nat :: n > 0 ==> h(e, n) < n
  }

  /** Changing one bucket changes the totals by that bucket's contribution. */
  lemma UpdateBucket(bs: seq<Bucket>, i: nat, b: Bucket)
    requires i < |bs|
    ensures Bag(bs[i := b]) + multiset(Chain(bs[i])) == Bag(bs) + multiset(Chain(b))
    ensures CellBag(bs[i := b]) + multiset(Overflow(bs[i])) == CellBag(bs) + multiset(Overflow(b))
    ensures UsedCount(bs[i := b]) + (if bs[i].Empty? then 0 else 1) == UsedCount(bs) + (if b.Empty? then 0 else 1)
  {
    assert Chains(bs[i := b]) == Chains(bs)[i := Chain(b)];
    assert CellChains(bs[i := b]) == CellChains(bs)[i := Overflow(b)];
    FlattenUpdate(Chains(bs), i, Chain(b));
    FlattenUpdate(CellChains(bs), i, Overflow(b));
  }

  lemma NotIn(h: Hasher, bs: seq<Bucket>, lo: nat, hi: nat, e: Entry)
    requires Placed(h, bs) && lo <= hi <= |bs| && !(lo <= h(e, |bs|) < hi)
    ensures e !in Flatten(Chains(bs)[lo..hi])
  {
    var part := Chains(bs)[lo..hi];
    InFlatten(part, e);
    forall i | 0 <= i < |part| ensures e !in part[i] {
      assert part[i] == Chain(bs[lo + i]);
    }
  }

  lemma CountOfThree<T>(a: seq<T>, b: seq<T>, c: seq<T>, e: T)
    requires e !in a && e !in c
    ensures multiset(a + b + c)[e] == multiset(b)[e]
  {
    assert multiset(a + b + c) == multiset(a) + multiset(b) + multiset(c);
  }

  /** In a placed table the multiplicity of an entry is that in its own bucket. */
  lemma CountInBucket(h: Hasher, bs: seq<Bucket>, e: Entry)
    requires Placed(h, bs) && h(e, |bs|) < |bs|
    ensures Bag(bs)[e] == multiset(Chain(bs[h(e, |bs|)]))[e]
  {
    var j, cs := h(e, |bs|), Chains(bs);
    NotIn(h, bs, 0, j, e);
    NotIn(h, bs, j + 1, |bs|, e);
    var before, after := cs[0..j], cs[j + 1..|bs|];
    assert cs[..j] == before && cs[j + 1..] == after;
    FlattenSplit(cs, j);
    CountOfThree(Flatten(before), cs[j], Flatten(after), e);
  }

  /** A bucket with `e` put in front of its overflow chain, in cell `c`. */
  function Pushed(b: Bucket, l: Link): Bucket
    requires b.Used?
  {
    b.(overflow := [l] + b.overflow)
  }

  lemma PushedContents(b: Bucket, l: Link)
    requires b.Used?
    ensures multiset(Chain(Pushed(b, l))) == multiset(Chain(b)) + multiset{l.data}
    ensures multiset(Overflow(Pushed(b, l))) == multiset(Overflow(b)) + multiset{l.cell}
    ensures forall e :: e in Chain(Pushed(b, l)) <==> e in Chain(b) || e == l.data
  {
    assert Datas([l] + b.overflow) == [l.data] + Datas(b.overflow);
    assert CellsOf([l] + b.overflow) == [l.cell] + CellsOf(b.overflow);
    assert Chain(Pushed(b, l)) == [b.head] + ([l.data] + Datas(b.overflow));
  }

  /** The bucket array after `e` is added: in the bucket itself if that is free, else in cell `c`. */
  function Put(bs: seq<Bucket>, j: nat, e: Entry, c: Cell): (r: seq<Bucket>)
    requires j < |bs|
  {
    if bs[j].Empty? then bs[j := Used(e, [])] else bs[j := Pushed(bs[j], Link(c, e))]
  }

  lemma Cancel<T>(a: multiset<T>, x: multiset<T>, b: multiset<T>, y: multiset<T>)
    requires a + x == b + (x + y)
    ensures a == b + y
  {
    forall e ensures a[e] == (b + y)[e] {
      assert (a + x)[e] == (b + (x + y))[e];
    }
  }

  lemma Regroup<T>(a: multiset<T>, b: multiset<T>, c: multiset<T>)
    ensures (a + b) + c == a + (b + c)
  {
  }

  lemma TakeOne<T>(s: seq<T>, i: nat)
    requires i < |s|
    ensures multiset(s[..i + 1]) == multiset(s[..i]) + multiset{s[i]}
  {
    assert s[..i + 1] == s[..i] + [s[i]];
  }

  lemma PutEntries(h: Hasher, bs: seq<Bucket>, e: Entry, c: Cell)
    requires Placed(h, bs) && h(e, |bs|) < |bs|
    ensures var j := h(e, |bs|);
            var r := Put(bs, j, e, c);
            && Placed(h, r)
            && Bag(r) == Bag(bs) + multiset{e}
            && UsedCount(r) == UsedCount(bs) + (if bs[j].Empty? then 1 else 0)
  {
    var j := h(e, |bs|);
    var b := Put(bs, j, e, c)[j];
    var r := bs[j := b];
    UpdateBucket(bs, j, b);
    if bs[j].Empty? {
      assert Chain(b) == [e];
    } else {
      PushedContents(bs[j], Link(c, e));
      Cancel(Bag(r), multiset(Chain(bs[j])), Bag(bs), multiset{e});
    }
    forall i, x | 0 <= i < |r| && x in Chain(r[i]) ensures h(x, |r|) == i {
      assert i != j ==> r[i] == bs[i];
    }
  }

  lemma PutCells(bs: seq<Bucket>, j: nat, e: Entry, c: Cell)
    requires j < |bs|
    ensures CellBag(Put(bs, j, e, c)) == CellBag(bs) + (if bs[j].Empty? then multiset{} else multiset{c})
  {
    var b := Put(bs, j, e, c)[j];
    UpdateBucket(bs, j, b);
    if bs[j].Used? {
      PushedContents(bs[j], Link(c, e));
      Cancel(CellBag(bs[j := b]), multiset(Overflow(bs[j])), CellBag(bs), multiset{c});
    }
  }

  // ---------------------------------------------------------------------------
  // Why undoing a failed transfer never needs a new cell
  // ---------------------------------------------------------------------------

  lemma SubBagSize<T>(a: multiset<T>, b: multiset<T>)
    requires a <= b
    ensures |a| <= |b|
  {
    assert b == a + (b - a);
  }

  lemma BucketWithin(h: Hasher, bs: seq<Bucket>, orig: seq<Bucket>, extra: multiset<Entry>, i: nat)
    requires |bs| == |orig| && i < |bs| && Placed(h, bs) && Placed(h, orig)
    requires Bag(bs) + extra <= Bag(orig)
    requires forall e :: e in extra ==> h(e, |bs|) == i
    ensures |Chain(bs[i])| + |extra| <= |Chain(orig[i])|
  {
    var a, b := multiset(Chain(bs[i])) + extra, multiset(Chain(orig[i]));
    forall e | e in a ensures a[e] <= b[e] {
      CountInBucket(h, bs, e);
      CountInBucket(h, orig, e);
    }
    assert a <= b;
    SubBagSize(a, b);
  }

  /**
   While entries of `orig` are still missing from `bs`, fewer cells are in use than in
   `orig`: one more entry for a used bucket therefore finds a cell among those of `orig`.
   */
  lemma FewerCells(h: Hasher, bs: seq<Bucket>, orig: seq<Bucket>, e: Entry)
    requires |bs| == |orig| && Placed(h, bs) && Placed(h, orig)
    requires Bag(bs) + multiset{e} <= Bag(orig)
    requires h(e, |bs|) < |bs| && bs[h(e, |bs|)].Used?
    ensures |CellBag(bs)| < |CellBag(orig)|
  {
    var j := h(e, |bs|);
    var a, b := CellChains(bs), CellChains(orig);
    assert Bag(bs) + multiset{} <= Bag(orig);
    forall i | 0 <= i < |a| ensures |a[i]| <= |b[i]| {
      BucketWithin(h, bs, orig, multiset{}, i);
    }
    BucketWithin(h, bs, orig, multiset{e}, j);
    FlattenShorter(a, b, j);
  }

  /** A placed table with the same entries has the same buckets, up to order inside a bucket. */
  lemma SameBuckets(h: Hasher, bs: seq<Bucket>, orig: seq<Bucket>)
    requires |bs| == |orig| && Placed(h, bs) && Placed(h, orig) && Bag(bs) == Bag(orig)
    ensures forall i :: 0 <= i < |bs| ==> multiset(Chain(bs[i])) == multiset(Chain(orig[i]))
    ensures UsedCount(bs) == UsedCount(orig)
  {
    forall i | 0 <= i < |bs| ensures multiset(Chain(bs[i])) == multiset(Chain(orig[i])) {
      var a, b := multiset(Chain(bs[i])), multiset(Chain(orig[i]));
      forall e | e in a || e in b ensures a[e] == b[e] {
        CountInBucket(h, bs, e);
        CountInBucket(h, orig, e);
      }
    }
    forall i | 0 <= i < |bs| ensures Chains(bs)[i] == [] <==> Chains(orig)[i] == [] {
      assert |multiset(Chain(bs[i]))| == |multiset(Chain(orig[i]))|;
    }
    SameNonEmpty(Chains(bs), Chains(orig));
  }

  /** Distinct cells, all of them handed out before `next`. */
  ghost predicate DistinctCells(cells: multiset<Cell>, next: Cell)
  {
    forall c :: c in cells ==> cells[c] == 1 && c < next
  }

  /** The cells handed out from `a` up to `b`. */
  ghost function Fresh(a: Cell, b: Cell): (r: multiset<Cell>)
  {
    if a < b then Fresh(a, b - 1) + multiset{b - 1} else multiset{}
  }

  ghost predicate Bare(bs: seq<Bucket>)
  {
    forall i :: 0 <= i < |bs| ==> Overflow(bs[i]) == []
  }

  ghost predicate AllEmpty(bs: seq<Bucket>)
  {
    forall i :: 0 <= i < |bs| ==> bs[i].Empty?
  }

  // ---------------------------------------------------------------------------
  // Operations on table values
  // ---------------------------------------------------------------------------

  /**
   State of a table. `next` and `mem` are the state of malloc: the next cell that it hands
   out, and how many cells it can still hand out before it fails.
   */
  datatype Table = Table(bucket: seq<Bucket>, used: nat, entries: nat, free: seq<Cell>, next: Cell, mem: nat)

  ghost predicate Shaped(h: Hasher, t: Table)
  {
    |t.bucket| > 0 && Placed(h, t.bucket) && t.used == UsedCount(t.bucket)
  }

  /** Every cell that a table owns, in use or recycled. */
  ghost function Ledger(t: Table): multiset<Cell>
  {
    CellBag(t.bucket) + multiset(t.free)
  }

  /** An entry out of an overflow cell: the cell is relinked, or freed if the bucket was empty. */
  function PutLink(h: Hasher, t: Table, l: Link): (r: Table)
    ensures |r.bucket| == |t.bucket| && (r.next, r.mem, r.entries) == (t.next, t.mem, t.entries)
  {
    var j := h(l.data, |t.bucket|);
    if j >= |t.bucket| then t
    else if t.bucket[j].Used? then t.(bucket := t.bucket[j := Pushed(t.bucket[j], l)])
    else t.(bucket := t.bucket[j := Used(l.data, [])], used := t.used + 1, free := [l.cell] + t.free)
  }

  function PutLinks(h: Hasher, t: Table, ls: seq<Link>): (r: Table)
    ensures |r.bucket| == |t.bucket| && (r.next, r.mem, r.entries) == (t.next, t.mem, t.entries)
  {
    if ls == [] then t else PutLink(h, PutLinks(h, t, ls[..|ls| - 1]), ls[|ls| - 1])
  }

  /** Allocation as allocate_entry does it: a recycled cell, else a new one, else failure. */
  function Allocate(t: Table): (r: (Table, Option<Cell>))
  {
    if t.free != [] then (t.(free := t.free[1..]), Some(t.free[0]))
    else if t.mem > 0 then (t.(next := t.next + 1, mem := t.mem - 1), Some(t.next))
    else (t, None)
  }

  datatype Outcome = Outcome(table: Table, ok: bool)

  /** An entry that owns no cell: into an empty bucket, or into an allocated cell behind the head. */
  function PutEntry(h: Hasher, t: Table, e: Entry): (r: Outcome)
    ensures |r.table.bucket| == |t.bucket| && r.table.entries == t.entries
    ensures !r.ok ==> r.table == t
  {
    var j := h(e, |t.bucket|);
    if j >= |t.bucket| then Outcome(t, false)
    else if t.bucket[j].Empty? then Outcome(t.(bucket := Put(t.bucket, j, e, 0), used := t.used + 1), true)
    else
      var (t1, c) := Allocate(t);
      if c.None? then Outcome(t, false)
      else Outcome(t1.(bucket := Put(t.bucket, j, e, c.value)), true)
  }

  datatype Moved = Moved(dst: Table, src: Table, ok: bool)

  /** transfer_entries for one bucket: overflow entries first, then the head unless `safe`. */
  function MoveBucket(h: Hasher, dst: Table, src: Table, i: nat, safe: bool): (r: Moved)
    requires i < |src.bucket|
    ensures |r.dst.bucket| == |dst.bucket| && |r.src.bucket| == |src.bucket|
    ensures r.dst.entries == dst.entries && r.src.entries == src.entries
  {
    match src.bucket[i]
    case Empty => Moved(dst, src, true)
    case Used(head, overflow) =>
      var dst1 := PutLinks(h, dst, overflow);
      var src1 := Trimmed(src, i);
      if safe then Moved(dst1, src1, true)
      else
        var put := PutEntry(h, dst1, head);
        if put.ok then Moved(put.table, Vacated(src1, i), true) else Moved(put.table, src1, false)
  }

  /** transfer_entries from bucket `i` on. */
  function Transfer(h: Hasher, dst: Table, src: Table, i: nat, safe: bool): (r: Moved)
    ensures |r.dst.bucket| == |dst.bucket| && |r.src.bucket| == |src.bucket|
    ensures r.dst.entries == dst.entries && r.src.entries == src.entries
    decreases |src.bucket| - i
  {
    if i >= |src.bucket| then Moved(dst, src, true)
    else
      var m := MoveBucket(h, dst, src, i, safe);
      if m.ok then Transfer(h, m.dst, m.src, i + 1, safe) else m
  }

  function Trimmed(t: Table, i: nat): Table
    requires i < |t.bucket| && t.bucket[i].Used?
  {
    t.(bucket := t.bucket[i := Used(t.bucket[i].head, [])])
  }

  function Vacated(t: Table, i: nat): Table
    requires i < |t.bucket|
  {
    t.(bucket := t.bucket[i := Empty], used := if t.used > 0 then t.used - 1 else 0)
  }

  // ---------------------------------------------------------------------------
  // What the operations do to entries and cells
  // ---------------------------------------------------------------------------

  lemma PutLinkEntries(h: Hasher, t: Table, l: Link)
    requires Shaped(h, t) && InRange(h)
    ensures var r := PutLink(h, t, l);
            && Shaped(h, r)
            && Bag(r.bucket) == Bag(t.bucket) + multiset{l.data}
  {
    PutEntries(h, t.bucket, l.data, l.cell);
  }

  lemma PutLinkCells(h: Hasher, t: Table, l: Link)
    requires h(l.data, |t.bucket|) < |t.bucket|
    ensures Ledger(PutLink(h, t, l)) == Ledger(t) + multiset{l.cell}
  {
    PutCells(t.bucket, h(l.data, |t.bucket|), l.data, l.cell);
  }

  lemma {:induction false} PutLinksEntries(h: Hasher, t: Table, ls: seq<Link>)
    requires Shaped(h, t) && InRange(h)
    ensures var r := PutLinks(h, t, ls);
            && Shaped(h, r)
            && Bag(r.bucket) == Bag(t.bucket) + multiset(Datas(ls))
  {
    if ls != [] {
      var n := |ls| - 1;
      var t1 := PutLinks(h, t, ls[..n]);
      PutLinksEntries(h, t, ls[..n]);
      PutLinkEntries(h, t1, ls[n]);
      TakeOne(Datas(ls), n);
      assert Datas(ls)[..n] == Datas(ls[..n]) && Datas(ls)[..n + 1] == Datas(ls);
      Regroup(Bag(t.bucket), multiset(Datas(ls[..n])), multiset{ls[n].data});
    }
  }

  lemma {:induction false} PutLinksCells(h: Hasher, t: Table, ls: seq<Link>)
    requires InRange(h) && |t.bucket| > 0
    ensures Ledger(PutLinks(h, t, ls)) == Ledger(t) + multiset(CellsOf(ls))
  {
    if ls != [] {
      var n := |ls| - 1;
      PutLinksCells(h, t, ls[..n]);
      PutLinkCells(h, PutLinks(h, t, ls[..n]), ls[n]);
      TakeOne(CellsOf(ls), n);
      assert CellsOf(ls)[..n] == CellsOf(ls[..n]) && CellsOf(ls)[..n + 1] == CellsOf(ls);
      Regroup(Ledger(t), multiset(CellsOf(ls[..n])), multiset{ls[n].cell});
    }
  }

  lemma PutEntryEntries(h: Hasher, t: Table, e: Entry)
    requires Shaped(h, t) && InRange(h)
    ensures var r := PutEntry(h, t, e);
            && Shaped(h, r.table)
            && (r.ok ==> Bag(r.table.bucket) == Bag(t.bucket) + multiset{e})
            && (!r.ok ==> t.free == [])
  {
    var r := PutEntry(h, t, e);
    if r.ok {
      var j := h(e, |t.bucket|);
      var c := if t.bucket[j].Empty? then 0 else if t.free != [] then t.free[0] else t.next;
      var bs := Put(t.bucket, j, e, c);
      assert r.table.bucket == bs;
      PutEntries(h, t.bucket, e, c);
    }
  }

  lemma AllocateCells(t: Table)
    ensures var (r, c) := Allocate(t);
            && r.bucket == t.bucket && t.next <= r.next
            && (c.Some? ==> multiset(r.free) + multiset{c.value} == multiset(t.free) + Fresh(t.next, r.next))
            && (c.None? ==> r == t && t.free == [] && t.mem == 0)
            && (t.free != [] ==> c.Some? && (r.next, r.mem) == (t.next, t.mem))
  {
    if t.free != [] {
      assert t.free == [t.free[0]] + t.free[1..];
    } else {
      assert Fresh(t.next, t.next + 1) == Fresh(t.next, t.next) + multiset{t.next};
    }
  }

  lemma LedgerExchange(cells: multiset<Cell>, free: multiset<Cell>, free': multiset<Cell>, c: Cell, f: multiset<Cell>)
    requires free' + multiset{c} == free + f
    ensures (cells + multiset{c}) + free' == cells + free + f
  {
    Regroup(cells, multiset{c}, free');
    Regroup(cells, free, f);
  }

  lemma PutEntryCells(h: Hasher, t: Table, e: Entry)
    requires h(e, |t.bucket|) < |t.bucket|
    ensures var r := PutEntry(h, t, e).table;
            t.next <= r.next && Ledger(r) == Ledger(t) + Fresh(t.next, r.next)
  {
    var j := h(e, |t.bucket|);
    AllocateCells(t);
    var (t1, c) := Allocate(t);
    if t.bucket[j].Empty? {
      PutCells(t.bucket, j, e, 0);
    } else if c.Some? {
      PutCells(t.bucket, j, e, c.value);
      LedgerExchange(CellBag(t.bucket), multiset(t.free), multiset(t1.free), c.value, Fresh(t.next, t1.next));
    }
  }

  /** With a recycled cell at hand, or an empty bucket, nothing is asked of malloc. */
  lemma PutEntryRecycles(h: Hasher, t: Table, e: Entry)
    requires h(e, |t.bucket|) < |t.bucket|
    requires t.free != [] || t.bucket[h(e, |t.bucket|)].Empty?
    ensures var r := PutEntry(h, t, e);
            r.ok && (r.table.next, r.table.mem) == (t.next, t.mem)
  {
  }

  // ---------------------------------------------------------------------------
  // Transfer
  // ---------------------------------------------------------------------------

  lemma TrimmedEntries(h: Hasher, t: Table, i: nat)
    requires Shaped(h, t) && i < |t.bucket| && t.bucket[i].Used?
    ensures Shaped(h, Trimmed(t, i))
    ensures Bag(t.bucket) == Bag(Trimmed(t, i).bucket) + multiset(Datas(t.bucket[i].overflow))
  {
    var b, bs := t.bucket[i], t.bucket;
    var b' := Used(b.head, []);
    UpdateBucket(bs, i, b');
    assert Chain(b') == [b.head] && Chain(b) == Chain(b') + Datas(b.overflow);
    var bs' := bs[i := b'];
    Cancel(Bag(bs), multiset(Chain(b')), Bag(bs'), multiset(Datas(b.overflow)));
    forall k, x | 0 <= k < |bs'| && x in Chain(bs'[k]) ensures h(x, |bs'|) == k {
      assert x in Chain(bs[k]);
    }
  }

  lemma TrimmedCells(t: Table, i: nat)
    requires i < |t.bucket| && t.bucket[i].Used?
    ensures CellBag(t.bucket) == CellBag(Trimmed(t, i).bucket) + multiset(CellsOf(t.bucket[i].overflow))
  {
    UpdateBucket(t.bucket, i, Used(t.bucket[i].head, []));
  }

  lemma VacatedEntries(h: Hasher, t: Table, i: nat)
    requires Shaped(h, t) && i < |t.bucket| && t.bucket[i].Used? && t.bucket[i].overflow == []
    ensures Shaped(h, Vacated(t, i))
    ensures Bag(t.bucket) == Bag(Vacated(t, i).bucket) + multiset{t.bucket[i].head}
  {
    var bs := t.bucket;
    var bs' := bs[i := Empty];
    UpdateBucket(bs, i, Empty);
    assert Chain(bs[i]) == [bs[i].head] && Chain(Empty) == [];
    Cancel(Bag(bs), multiset{}, Bag(bs'), multiset{bs[i].head});
    forall k, x | 0 <= k < |bs'| && x in Chain(bs'[k]) ensures h(x, |bs'|) == k {
      assert x in Chain(bs[k]);
    }
  }

  lemma VacatedCells(t: Table, i: nat)
    requires i < |t.bucket| && t.bucket[i].Used? && t.bucket[i].overflow == []
    ensures CellBag(t.bucket) == CellBag(Vacated(t, i).bucket)
  {
    var bs := t.bucket;
    UpdateBucket(bs, i, Empty);
    assert Overflow(bs[i]) == [] && Overflow(Empty) == [];
    Cancel(CellBag(bs), multiset{}, CellBag(bs[i := Empty]), multiset{});
  }

  /** What one side gives up the other side receives. */
  lemma Handover<T>(d: multiset<T>, d': multiset<T>, s: multiset<T>, s': multiset<T>, x: multiset<T>)
    requires d' == d + x && s == s' + x
    ensures d' + s' == d + s
  {
  }

  lemma MoveBucketEntries(h: Hasher, dst: Table, src: Table, i: nat, safe: bool)
    requires Shaped(h, dst) && Shaped(h, src) && InRange(h) && i < |src.bucket|
    ensures var m := MoveBucket(h, dst, src, i, safe);
            && Shaped(h, m.dst) && Shaped(h, m.src)
            && Bag(m.dst.bucket) + Bag(m.src.bucket) == Bag(dst.bucket) + Bag(src.bucket)
  {
    if src.bucket[i].Used? {
      var ls, head := src.bucket[i].overflow, src.bucket[i].head;
      var dst1, src1 := PutLinks(h, dst, ls), Trimmed(src, i);
      PutLinksEntries(h, dst, ls);
      TrimmedEntries(h, src, i);
      Handover(Bag(dst.bucket), Bag(dst1.bucket), Bag(src.bucket), Bag(src1.bucket), multiset(Datas(ls)));
      if !safe {
        MoveHeadEntries(h, dst1, src1, i);
      }
    }
  }

  lemma MoveHeadEntries(h: Hasher, dst: Table, src: Table, i: nat)
    requires Shaped(h, dst) && Shaped(h, src) && InRange(h)
    requires i < |src.bucket| && src.bucket[i].Used? && src.bucket[i].overflow == []
    ensures var put := PutEntry(h, dst, src.bucket[i].head);
            && Shaped(h, put.table) && Shaped(h, Vacated(src, i))
            && (put.ok ==> Bag(put.table.bucket) + Bag(Vacated(src, i).bucket) == Bag(dst.bucket) + Bag(src.bucket))
  {
    var head := src.bucket[i].head;
    var put, src2 := PutEntry(h, dst, head), Vacated(src, i);
    PutEntryEntries(h, dst, head);
    VacatedEntries(h, src, i);
    if put.ok {
      Handover(Bag(dst.bucket), Bag(put.table.bucket), Bag(src.bucket), Bag(src2.bucket), multiset{head});
    }
  }

  lemma {:induction false} TransferEntries(h: Hasher, dst: Table, src: Table, i: nat, safe: bool)
    requires Shaped(h, dst) && Shaped(h, src) && InRange(h)
    ensures var m := Transfer(h, dst, src, i, safe);
            && Shaped(h, m.dst) && Shaped(h, m.src)
            && Bag(m.dst.bucket) + Bag(m.src.bucket) == Bag(dst.bucket) + Bag(src.bucket)
    decreases |src.bucket| - i
  {
    if i < |src.bucket| {
      var m := MoveBucket(h, dst, src, i, safe);
      MoveBucketEntries(h, dst, src, i, safe);
      if m.ok {
        TransferEntries(h, m.dst, m.src, i + 1, safe);
      }
    }
  }

  lemma {:induction false} FreshSplit(a: Cell, b: Cell, c: Cell)
    requires a <= b <= c
    ensures Fresh(a, c) == Fresh(a, b) + Fresh(b, c)
  {
    if b < c {
      FreshSplit(a, b, c - 1);
      var last := multiset{c - 1};
      assert Fresh(a, c) == Fresh(a, c - 1) + last;
      Regroup(Fresh(a, b), Fresh(b, c - 1), last);
    } else {
      assert Fresh(a, b) + multiset{} == Fresh(a, b);
    }
  }

  lemma MoveBucketCells(h: Hasher, dst: Table, src: Table, i: nat, safe: bool)
    requires |dst.bucket| > 0 && InRange(h) && i < |src.bucket|
    ensures var m := MoveBucket(h, dst, src, i, safe);
            && dst.next <= m.dst.next
            && Ledger(m.dst) + CellBag(m.src.bucket) == Ledger(dst) + CellBag(src.bucket) + Fresh(dst.next, m.dst.next)
  {
    assert Fresh(dst.next, dst.next) == multiset{};
    if src.bucket[i].Used? {
      var ls, head := src.bucket[i].overflow, src.bucket[i].head;
      var dst1, src1 := PutLinks(h, dst, ls), Trimmed(src, i);
      PutLinksCells(h, dst, ls);
      TrimmedCells(src, i);
      Handover(Ledger(dst), Ledger(dst1), CellBag(src.bucket), CellBag(src1.bucket), multiset(CellsOf(ls)));
      if !safe {
        var put := PutEntry(h, dst1, head);
        PutEntryCells(h, dst1, head);
        VacatedCells(src1, i);
        Reorder(Ledger(dst1), Fresh(dst.next, put.table.next), CellBag(src1.bucket), multiset{});
      }
    }
  }

  lemma Reorder<T>(a: multiset<T>, f: multiset<T>, s: multiset<T>, g: multiset<T>)
    ensures (a + f) + s + g == a + s + (f + g)
    ensures (a + f) + s == a + s + f
  {
  }

  /** No cell is lost or shared: what comes on top is exactly what malloc handed out. */
  lemma {:induction false} TransferCells(h: Hasher, dst: Table, src: Table, i: nat, safe: bool)
    requires |dst.bucket| > 0 && InRange(h)
    ensures var m := Transfer(h, dst, src, i, safe);
            && dst.next <= m.dst.next
            && Ledger(m.dst) + CellBag(m.src.bucket) == Ledger(dst) + CellBag(src.bucket) + Fresh(dst.next, m.dst.next)
    decreases |src.bucket| - i
  {
    if i < |src.bucket| {
      var m := MoveBucket(h, dst, src, i, safe);
      MoveBucketCells(h, dst, src, i, safe);
      if m.ok {
        TransferCells(h, m.dst, m.src, i + 1, safe);
        var r := Transfer(h, m.dst, m.src, i + 1, safe);
        FreshSplit(dst.next, m.dst.next, r.dst.next);
        Regroup(Ledger(dst) + CellBag(src.bucket), Fresh(dst.next, m.dst.next), Fresh(m.dst.next, r.dst.next));
      }
    } else {
      assert Fresh(dst.next, dst.next) == multiset{};
    }
  }

  /** A safe pass always succeeds and leaves bucket heads only; a full one empties the source. */
  lemma {:induction false} TransferOutcome(h: Hasher, dst: Table, src: Table, i: nat, safe: bool)
    requires forall k :: 0 <= k < i && k < |src.bucket| ==> if safe then Overflow(src.bucket[k]) == [] else src.bucket[k].Empty?
    ensures var m := Transfer(h, dst, src, i, safe);
            && (safe ==> m.ok && Bare(m.src.bucket) && (m.dst.next, m.dst.mem) == (dst.next, dst.mem))
            && (!safe && m.ok ==> AllEmpty(m.src.bucket))
    decreases |src.bucket| - i
  {
    if i < |src.bucket| {
      var m := MoveBucket(h, dst, src, i, safe);
      assert forall k :: 0 <= k < i ==> m.src.bucket[k] == src.bucket[k];
      if m.ok {
        TransferOutcome(h, m.dst, m.src, i + 1, safe);
      }
    }
  }

  lemma OneLessUsed(bs: seq<Bucket>, i: nat)
    requires i < |bs| && bs[i].Used?
    ensures UsedCount(bs[i := Empty]) + 1 == UsedCount(bs)
  {
    UpdateBucket(bs, i, Empty);
  }

  lemma MoveBucketNeeds(h: Hasher, dst: Table, src: Table, i: nat)
    requires |dst.bucket| > 0 && InRange(h) && i < |src.bucket|
    ensures var m := MoveBucket(h, dst, src, i, false);
            && m.dst.next + m.dst.mem == dst.next + dst.mem
            && if m.ok then dst.mem <= m.dst.mem + (UsedCount(src.bucket) - UsedCount(m.src.bucket))
            else m.dst.mem == 0 && m.dst.free == [] && dst.mem == 0 && UsedCount(src.bucket) > 0
  {
    hide UsedCount;
    if src.bucket[i].Used? {
      OneLessUsed(src.bucket, i);
      assert Vacated(Trimmed(src, i), i).bucket == src.bucket[i := Empty];
    }
  }

  /** A transfer asks malloc for at most one cell per used bucket, and fails only when malloc has nothing left. */
  lemma {:induction false} TransferNeeds(h: Hasher, dst: Table, src: Table, i: nat)
    requires |dst.bucket| > 0 && InRange(h)
    ensures var m := Transfer(h, dst, src, i, false);
            && dst.mem <= m.dst.mem + UsedCount(src.bucket)
            && (!m.ok ==> m.dst.mem == 0 && dst.mem < UsedCount(src.bucket))
            && m.dst.next + m.dst.mem == dst.next + dst.mem
    decreases |src.bucket| - i
  {
    if i < |src.bucket| {
      var m := MoveBucket(h, dst, src, i, false);
      MoveBucketNeeds(h, dst, src, i);
      if m.ok {
        TransferNeeds(h, m.dst, m.src, i + 1);
      }
    }
  }

  /**
   `dst` is on the way back to `orig`: together with the heads left in `src` it has the
   entries of `orig`, and it owns at least as many cells as `orig` had in use.
   */
  ghost predicate OnTheWayBack(h: Hasher, dst: Table, src: Table, orig: seq<Bucket>)
  {
    && Shaped(h, dst) && Shaped(h, src) && |dst.bucket| == |orig| && Placed(h, orig)
    && Bare(src.bucket)
    && Bag(dst.bucket) + Bag(src.bucket) == Bag(orig)
    && |CellBag(orig)| <= |Ledger(dst)|
  }

  /** The next head finds an empty bucket or a recycled cell. */
  lemma RoomForHead(h: Hasher, dst: Table, src: Table, orig: seq<Bucket>, i: nat)
    requires OnTheWayBack(h, dst, src, orig) && InRange(h)
    requires i < |src.bucket| && src.bucket[i].Used?
    ensures dst.free != [] || dst.bucket[h(src.bucket[i].head, |dst.bucket|)].Empty?
  {
    var e := src.bucket[i].head;
    if dst.bucket[h(e, |dst.bucket|)].Used? {
      var cs := Chains(src.bucket);
      InFlatten(cs, e);
      assert e in cs[i];
      assert Bag(dst.bucket) + multiset{e} <= Bag(orig);
      FewerCells(h, dst.bucket, orig, e);
      assert |multiset(dst.free)| == |Ledger(dst)| - |CellBag(dst.bucket)|;
    }
  }

  /** Moving one head keeps OnTheWayBack and asks nothing of malloc. */
  lemma HeadGoesBack(h: Hasher, dst: Table, src: Table, orig: seq<Bucket>, i: nat)
    requires OnTheWayBack(h, dst, src, orig) && InRange(h)
    requires i < |src.bucket| && src.bucket[i].Used?
    ensures var put := PutEntry(h, dst, src.bucket[i].head);
            && put.ok && (put.table.next, put.table.mem) == (dst.next, dst.mem)
            && OnTheWayBack(h, put.table, Vacated(src, i), orig)
  {
    var e := src.bucket[i].head;
    var put, src' := PutEntry(h, dst, e), Vacated(src, i);
    RoomForHead(h, dst, src, orig, i);
    PutEntryRecycles(h, dst, e);
    assert Overflow(src.bucket[i]) == [];
    MoveHeadEntries(h, dst, src, i);
    SameLedger(h, dst, e);
    assert Bare(src'.bucket);
  }

  lemma SameLedger(h: Hasher, t: Table, e: Entry)
    requires h(e, |t.bucket|) < |t.bucket| && PutEntry(h, t, e).table.next == t.next
    ensures Ledger(PutEntry(h, t, e).table) == Ledger(t)
  {
    PutEntryCells(h, t, e);
    assert Fresh(t.next, t.next) == multiset{};
    assert Ledger(t) + multiset{} == Ledger(t);
  }

  lemma BucketGoesBack(h: Hasher, dst: Table, src: Table, orig: seq<Bucket>, i: nat)
    requires OnTheWayBack(h, dst, src, orig) && InRange(h) && i < |src.bucket|
    ensures var m := MoveBucket(h, dst, src, i, false);
            m.ok && (m.dst.next, m.dst.mem) == (dst.next, dst.mem) && OnTheWayBack(h, m.dst, m.src, orig)
  {
    if src.bucket[i].Used? {
      assert Overflow(src.bucket[i]) == [];
      assert src.bucket[i].overflow == [];
      assert Trimmed(src, i) == src && PutLinks(h, dst, []) == dst;
      HeadGoesBack(h, dst, src, orig, i);
    }
  }

  /** Undoing: the second pass back to `orig` succeeds without asking malloc for anything. */
  lemma {:induction false} UndoSucceeds(h: Hasher, dst: Table, src: Table, orig: seq<Bucket>, i: nat)
    requires OnTheWayBack(h, dst, src, orig) && InRange(h)
    ensures var m := Transfer(h, dst, src, i, false);
            m.ok && (m.dst.next, m.dst.mem) == (dst.next, dst.mem)
    decreases |src.bucket| - i
  {
    if i < |src.bucket| {
      var m := MoveBucket(h, dst, src, i, false);
      BucketGoesBack(h, dst, src, orig, i);
      UndoSucceeds(h, m.dst, m.src, orig, i + 1);
    }
  }

  // ---------------------------------------------------------------------------
  // Rehash
  // ---------------------------------------------------------------------------

  datatype RehashResult = Rehashed(table: Table) | Refused(table: Table) | Aborted

  /** A new size and whether the new bucket array can be allocated; size 0 stands for "too large". */
  datatype Resize = Resize(size: nat, arrayAvailable: bool)

  /** The calloc'ed new table, which shares the free list (and malloc's state) with the old one. */
  function Vacant(n: nat, t: Table): Table
  {
    Table(seq(n, _ => Empty), 0, 0, t.free, t.next, t.mem)
  }

  function Rehash(h: Hasher, t: Table, z: Resize): (r: RehashResult)
    ensures !r.Aborted? && |t.bucket| > 0 ==> |r.table.bucket| > 0
  {
    if z.size == 0 then Refused(t)
    else if z.size == |t.bucket| then Rehashed(t)
    else if !z.arrayAvailable then Refused(t)
    else
      var vacant := Vacant(z.size, t);
      var m := Transfer(h, vacant, t, 0, false);
      if m.ok then Rehashed(m.dst.(entries := t.entries))
      else
        var back := Transfer(h, TakeOver(m.src, m.dst), m.dst, 0, true);
        var rest := Transfer(h, back.dst, back.src, 0, false);
        if back.ok && rest.ok then Refused(rest.dst) else Aborted
  }

  /** The old table takes the shared free list (and malloc's state) back from the new one. */
  function TakeOver(t: Table, from: Table): Table
  {
    t.(free := from.free, next := from.next, mem := from.mem)
  }

  lemma EmptyArray(h: Hasher, n: nat)
    ensures var bs := seq(n, _ => Empty);
            Bag(bs) == multiset{} && CellBag(bs) == multiset{} && UsedCount(bs) == 0 && Placed(h, bs)
  {
    var bs: seq<Bucket> := seq(n, _ => Empty);
    FlattenOfEmpties(Chains(bs));
    FlattenOfEmpties(CellChains(bs));
  }

  lemma AllEmptyContents(bs: seq<Bucket>)
    requires AllEmpty(bs)
    ensures Bag(bs) == multiset{} && CellBag(bs) == multiset{}
  {
    FlattenOfEmpties(Chains(bs));
    FlattenOfEmpties(CellChains(bs));
  }

  lemma BareCells(bs: seq<Bucket>)
    requires Bare(bs)
    ensures CellBag(bs) == multiset{}
  {
    FlattenOfEmpties(CellChains(bs));
  }

  /** First pass of the undo: only overflow cells move, so it cannot fail. */
  lemma FirstPassBack(h: Hasher, dst: Table, src: Table)
    requires Shaped(h, dst) && Shaped(h, src) && InRange(h)
    ensures var m := Transfer(h, dst, src, 0, true);
            && m.ok && (m.dst.next, m.dst.mem) == (dst.next, dst.mem)
            && Shaped(h, m.dst) && Shaped(h, m.src) && Bare(m.src.bucket)
            && Bag(m.dst.bucket) + Bag(m.src.bucket) == Bag(dst.bucket) + Bag(src.bucket)
            && Ledger(m.dst) == Ledger(dst) + CellBag(src.bucket)
  {
    var m := Transfer(h, dst, src, 0, true);
    TransferOutcome(h, dst, src, 0, true);
    TransferEntries(h, dst, src, 0, true);
    PassCells(h, dst, src, true);
  }

  /** A pass that asks nothing of malloc and leaves no cell in the source takes over its cells. */
  lemma PassCells(h: Hasher, dst: Table, src: Table, safe: bool)
    requires |dst.bucket| > 0 && InRange(h)
    requires var m := Transfer(h, dst, src, 0, safe);
             m.dst.next == dst.next && Bare(m.src.bucket)
    ensures Ledger(Transfer(h, dst, src, 0, safe).dst) == Ledger(dst) + CellBag(src.bucket)
  {
    var m := Transfer(h, dst, src, 0, safe);
    TransferCells(h, dst, src, 0, safe);
    BareCells(m.src.bucket);
    DropEmpties(Ledger(m.dst), CellBag(m.src.bucket), Ledger(dst) + CellBag(src.bucket), Fresh(dst.next, m.dst.next));
  }

  lemma DropEmpties<T>(a: multiset<T>, x: multiset<T>, b: multiset<T>, y: multiset<T>)
    requires a + x == b + y && x == multiset{} && y == multiset{}
    ensures a == b
  {
    assert a + x == a && b + y == b;
  }

  /** Second pass of the undo: the bucket heads go back, and the old entries are complete. */
  lemma SecondPassBack(h: Hasher, dst: Table, src: Table, orig: seq<Bucket>)
    requires OnTheWayBack(h, dst, src, orig) && InRange(h)
    ensures var m := Transfer(h, dst, src, 0, false);
            && m.ok && (m.dst.next, m.dst.mem) == (dst.next, dst.mem)
            && Shaped(h, m.dst) && Bag(m.dst.bucket) == Bag(orig)
            && Ledger(m.dst) == Ledger(dst)
  {
    var m := Transfer(h, dst, src, 0, false);
    UndoSucceeds(h, dst, src, orig, 0);
    TransferOutcome(h, dst, src, 0, false);
    TransferEntries(h, dst, src, 0, false);
    AllEmptyContents(m.src.bucket);
    PassCells(h, dst, src, false);
    BareCells(src.bucket);
  }

  /** A failed forward transfer is undone completely, and without the help of malloc. */
  lemma UndoRestores(h: Hasher, t: Table, m: Moved)
    requires Shaped(h, t) && Shaped(h, m.dst) && Shaped(h, m.src) && InRange(h)
    requires |m.src.bucket| == |t.bucket|
    requires Bag(m.dst.bucket) + Bag(m.src.bucket) == Bag(t.bucket)
    requires |CellBag(t.bucket)| <= |Ledger(m.dst) + CellBag(m.src.bucket)|
    ensures var back := Transfer(h, TakeOver(m.src, m.dst), m.dst, 0, true);
            var rest := Transfer(h, back.dst, back.src, 0, false);
            && back.ok && rest.ok
            && Shaped(h, rest.dst) && Bag(rest.dst.bucket) == Bag(t.bucket)
            && (rest.dst.next, rest.dst.mem) == (m.dst.next, m.dst.mem)
            && Ledger(rest.dst) == Ledger(m.dst) + CellBag(m.src.bucket)
  {
    var old1 := TakeOver(m.src, m.dst);
    var back := Transfer(h, old1, m.dst, 0, true);
    FirstPassBack(h, old1, m.dst);
    SharedList(CellBag(m.src.bucket), CellBag(m.dst.bucket), multiset(m.dst.free));
    assert Ledger(back.dst) == Ledger(m.dst) + CellBag(m.src.bucket);
    Commute(Bag(m.dst.bucket), Bag(m.src.bucket));
    assert OnTheWayBack(h, back.dst, back.src, t.bucket);
    SecondPassBack(h, back.dst, back.src, t.bucket);
  }

  lemma Commute<T>(a: multiset<T>, b: multiset<T>)
    ensures a + b == b + a
  {
  }

  lemma SharedList(a: multiset<Cell>, b: multiset<Cell>, free: multiset<Cell>)
    ensures (a + free) + b == (b + free) + a
  {
  }

  /** The forward transfer into a new array. */
  lemma ForwardTransfer(h: Hasher, t: Table, n: nat)
    requires Shaped(h, t) && InRange(h) && n > 0
    ensures var m := Transfer(h, Vacant(n, t), t, 0, false);
            && Shaped(h, m.dst) && Shaped(h, m.src) && t.next <= m.dst.next
            && Bag(m.dst.bucket) + Bag(m.src.bucket) == Bag(t.bucket)
            && Ledger(m.dst) + CellBag(m.src.bucket) == Ledger(t) + Fresh(t.next, m.dst.next)
            && (m.ok ==> AllEmpty(m.src.bucket))
  {
    var v := Vacant(n, t);
    EmptyArray(h, n);
    TransferEntries(h, v, t, 0, false);
    TransferCells(h, v, t, 0, false);
    TransferOutcome(h, v, t, 0, false);
    assert Ledger(v) + CellBag(t.bucket) == Ledger(t);
  }

  lemma MoreCells(cells: multiset<Cell>, free: multiset<Cell>, f: multiset<Cell>)
    ensures |cells| <= |cells + free + f|
  {
  }

  lemma FreshAreDistinct(cells: multiset<Cell>, a: Cell, b: Cell)
    requires a <= b && DistinctCells(cells, a)
    ensures DistinctCells(cells + Fresh(a, b), b)
    decreases b
  {
    if a < b {
      FreshAreDistinct(cells, a, b - 1);
      Regroup(cells, Fresh(a, b - 1), multiset{b - 1});
    }
  }

  /** A new size, an array for it unless it is the old one, and a cell for each used bucket. */
  predicate CanRehash(t: Table, z: Resize)
  {
    z.size > 0 && (z.size == |t.bucket| || (z.arrayAvailable && t.mem >= t.used))
  }

  /**
   hash_rehash: never aborts. On success the same entries sit in the new array; on failure
   the old array is back, bucket by bucket, with the same number of used buckets. It fails only
   for want of memory: without a size, without the array, or with nothing left for malloc to give.
   */
  lemma RehashIsSafe(h: Hasher, t: Table, z: Resize)
    requires Shaped(h, t) && InRange(h) && DistinctCells(Ledger(t), t.next)
    ensures var r := Rehash(h, t, z);
            && !r.Aborted?
            && Shaped(h, r.table) && Bag(r.table.bucket) == Bag(t.bucket) && r.table.entries == t.entries
            && DistinctCells(Ledger(r.table), r.table.next)
            && Ledger(r.table) == Ledger(t) + Fresh(t.next, r.table.next) && r.table.next + r.table.mem == t.next + t.mem
            && (r.Rehashed? ==> |r.table.bucket| == z.size > 0 && (z.size == |t.bucket| || z.arrayAvailable))
            && (z.size == 0 || z.size == |t.bucket| || !z.arrayAvailable ==> r.table == t)
            && (r.Refused? ==> SameTable(t, r.table) && !CanRehash(t, z))
            && (r.Refused? && z.size > 0 && z.arrayAvailable ==> r.table.mem == 0)
            && (r.Rehashed? ==> t.mem <= r.table.mem + t.used)
  {
    if z.size != 0 && z.size != |t.bucket| && z.arrayAvailable {
      var m := Transfer(h, Vacant(z.size, t), t, 0, false);
      TransferNeeds(h, Vacant(z.size, t), t, 0);
      if m.ok {
        CompleteTransfer(h, t, z.size);
      } else {
        FailedTransfer(h, t, z.size);
      }
    } else {
      assert Fresh(t.next, t.next) == multiset{};
    }
  }

  lemma CompleteTransfer(h: Hasher, t: Table, n: nat)
    requires Shaped(h, t) && InRange(h) && DistinctCells(Ledger(t), t.next) && n > 0
    requires Transfer(h, Vacant(n, t), t, 0, false).ok
    ensures var r := Transfer(h, Vacant(n, t), t, 0, false).dst;
            && Shaped(h, r) && Bag(r.bucket) == Bag(t.bucket) && DistinctCells(Ledger(r), r.next)
            && Ledger(r) == Ledger(t) + Fresh(t.next, r.next)
  {
    var m := Transfer(h, Vacant(n, t), t, 0, false);
    ForwardTransfer(h, t, n);
    AllEmptyContents(m.src.bucket);
    assert Bag(m.dst.bucket) + Bag(m.src.bucket) == Bag(m.dst.bucket);
    assert Ledger(m.dst) + CellBag(m.src.bucket) == Ledger(m.dst);
    FreshAreDistinct(Ledger(t), t.next, m.dst.next);
  }

  lemma FailedTransfer(h: Hasher, t: Table, n: nat)
    requires Shaped(h, t) && InRange(h) && DistinctCells(Ledger(t), t.next) && n > 0
    ensures var m := Transfer(h, Vacant(n, t), t, 0, false);
            var back := Transfer(h, TakeOver(m.src, m.dst), m.dst, 0, true);
            var rest := Transfer(h, back.dst, back.src, 0, false);
            && back.ok && rest.ok && Shaped(h, rest.dst) && Bag(rest.dst.bucket) == Bag(t.bucket)
            && SameTable(t, rest.dst) && DistinctCells(Ledger(rest.dst), rest.dst.next)
            && (rest.dst.next, rest.dst.mem) == (m.dst.next, m.dst.mem)
            && Ledger(rest.dst) == Ledger(t) + Fresh(t.next, rest.dst.next)
  {
    var m := Transfer(h, Vacant(n, t), t, 0, false);
    ForwardTransfer(h, t, n);
    FreshAreDistinct(Ledger(t), t.next, m.dst.next);
    MoreCells(CellBag(t.bucket), multiset(t.free), Fresh(t.next, m.dst.next));
    UndoRestores(h, t, m);
    var back := Transfer(h, TakeOver(m.src, m.dst), m.dst, 0, true);
    var rest := Transfer(h, back.dst, back.src, 0, false);
    SameBuckets(h, rest.dst.bucket, t.bucket);
  }

  /** The same size, the same entries in every bucket, the same counters. */
  ghost predicate SameTable(a: Table, b: Table)
  {
    && |a.bucket| == |b.bucket| && a.used == b.used && a.entries == b.entries
    && forall i :: 0 <= i < |a.bucket| ==> multiset(Chain(a.bucket[i])) == multiset(Chain(b.bucket[i]))
  }
}
