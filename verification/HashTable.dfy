/**
 Lookup, insertion, removal, clearing and walking of the chained hash table
 (compat/hashtable/hash.c) as a set of entries modulo the comparator, first on table values
 and then as the class whose methods update the table in place.
 */
module HashTable {
  import opened Common
  import opened Flattening
  import opened HashTransfer
  import opened HashOrder

  // ---------------------------------------------------------------------------
  // The set that a table stands for
  // ---------------------------------------------------------------------------

  /** The test of every chain scan: the same pointer, or equal for the comparator. */
  predicate Same(cmp: Comparator, a: Entry, b: Entry)
  {
    a == b || cmp(a, b)
  }

  /** What the table needs of its two functions: in range, symmetric, equal entries hashed alike. */
  ghost predicate GoodFunctions(h: Hasher, cmp: Comparator)
  {
    && InRange(h)
    && (forall a, b :: cmp(a, b) ==> cmp(b, a))
    && (forall a, b, n: nat :: cmp(a, b) ==> h(a, n) == h(b, n))
  }

  /** No two entries of the bag are the same. */
  ghost predicate NoTwins(cmp: Comparator, bag: multiset<Entry>)
  {
    && (forall a :: a in bag ==> bag[a] == 1)
    && (forall a, b :: a in bag && b in bag && Same(cmp, a, b) ==> a == b)
  }

  ghost predicate Valid(h: Hasher, cmp: Comparator, t: Table)
  {
    && Shaped(h, t)
    && t.entries == |Bag(t.bucket)|
    && NoTwins(cmp, Bag(t.bucket))
    && DistinctCells(Ledger(t), t.next)
  }

  // ---------------------------------------------------------------------------
  // Operations on table values
  // ---------------------------------------------------------------------------

  /** First position from `k` on of an entry that is the same as `e`. */
  function Scan(cmp: Comparator, chain: seq<Entry>, e: Entry, k: nat): (r: Option<nat>)
    requires k <= |chain|
    ensures r.Some? ==> k <= r.value < |chain| && Same(cmp, e, chain[r.value])
    ensures r.None? ==> forall i :: k <= i < |chain| ==> !Same(cmp, e, chain[i])
    decreases |chain| - k
  {
    if k == |chain| then None
    else if Same(cmp, e, chain[k]) then Some(k)
    else Scan(cmp, chain, e, k + 1)
  }

  function Lookup(h: Hasher, cmp: Comparator, t: Table, e: Entry): (r: Option<Entry>)
  {
    var j := h(e, |t.bucket|);
    if j >= |t.bucket| then None
    else match Scan(cmp, Chain(t.bucket[j]), e, 0)
      case None => None
      case Some(k) => Some(Chain(t.bucket[j])[k])
  }

  datatype InsertResult = Existing(matched: Entry) | Inserted | NoMemory | InsertAborted

  /** hash_insert_if_absent; `grow` says whether the growth test holds, and for which new size. */
  function Insert(h: Hasher, cmp: Comparator, t: Table, e: Entry, grow: Option<Resize>): (r: (Table, InsertResult))
  {
    match Lookup(h, cmp, t, e)
    case Some(d) => (t, Existing(d))
    case None =>
      if grow.None? then Add(h, t, e)
      else match Rehash(h, t, grow.value)
        case Aborted => (t, InsertAborted)
        case Refused(t1) => (t1, NoMemory)
        case Rehashed(t1) => if Lookup(h, cmp, t1, e).Some? then (t1, InsertAborted) else Add(h, t1, e)
  }

  function Add(h: Hasher, t: Table, e: Entry): (r: (Table, InsertResult))
  {
    var put := PutEntry(h, t, e);
    if put.ok then (put.table.(entries := t.entries + 1), Inserted) else (put.table, NoMemory)
  }

  /** A chain without its element `k`: the head is replaced by the first overflow entry. */
  function Unlinked(b: Bucket, k: nat): (r: Bucket)
    requires k < |Chain(b)|
  {
    if k > 0 then b.(overflow := b.overflow[..k - 1] + b.overflow[k..])
    else if b.overflow != [] then Used(b.overflow[0].data, b.overflow[1..])
    else Empty
  }

  /** The cell that unlinking element `k` recycles. */
  function Recycled(b: Bucket, k: nat): (r: seq<Cell>)
    requires k < |Chain(b)|
  {
    if k > 0 then [b.overflow[k - 1].cell]
    else if b.overflow != [] then [b.overflow[0].cell]
    else []
  }

  /** Unlinking element `k` of bucket `j`, with the counters of hash_remove. */
  function Removed(t: Table, j: nat, k: nat): (r: Table)
    requires j < |t.bucket| && k < |Chain(t.bucket[j])|
  {
    var b := Unlinked(t.bucket[j], k);
    t.(bucket := t.bucket[j := b],
       free := Recycled(t.bucket[j], k) + t.free,
       entries := if t.entries > 0 then t.entries - 1 else 0,
       used := if b.Empty? && t.used > 0 then t.used - 1 else t.used)
  }

  datatype RemoveResult = Gone(data: Entry) | Absent | RemoveAborted

  /** hash_remove; a refused shrink gives the recycled cells back to malloc. */
  function Remove(h: Hasher, cmp: Comparator, t: Table, e: Entry, shrink: Option<Resize>): (r: (Table, RemoveResult))
  {
    var j := h(e, |t.bucket|);
    if j >= |t.bucket| then (t, Absent)
    else match Scan(cmp, Chain(t.bucket[j]), e, 0)
      case None => (t, Absent)
      case Some(k) =>
        var d := Chain(t.bucket[j])[k];
        var t1 := Removed(t, j, k);
        if t1.bucket[j].Used? || shrink.None? then (t1, Gone(d))
        else match Rehash(h, t1, shrink.value)
          case Aborted => (t1, RemoveAborted)
          case Refused(t2) => (t2.(free := []), Gone(d))
          case Rehashed(t2) => (t2, Gone(d))
  }

  // ---------------------------------------------------------------------------
  // Correctness of the operations
  // ---------------------------------------------------------------------------

  /** `d` stands at `k`, and is the first entry of the chain that is the same as `e`. */
  ghost predicate IsFirstSame(cmp: Comparator, chain: seq<Entry>, e: Entry, k: nat, d: Entry)
  {
    k < |chain| && chain[k] == d && Same(cmp, e, d) && forall i :: 0 <= i < k ==> !Same(cmp, e, chain[i])
  }

  lemma {:induction false} ScanIsFirst(cmp: Comparator, chain: seq<Entry>, e: Entry, k: nat)
    requires k <= |chain|
    ensures match Scan(cmp, chain, e, k)
            case Some(p) => forall i :: k <= i < p ==> !Same(cmp, e, chain[i])
            case None => true
    decreases |chain| - k
  {
    if k < |chain| && !Same(cmp, e, chain[k]) {
      ScanIsFirst(cmp, chain, e, k + 1);
    }
  }

  /** Lookup agrees with membership modulo the comparator. */
  lemma LookupIsMembership(h: Hasher, cmp: Comparator, t: Table, e: Entry)
    requires Shaped(h, t) && GoodFunctions(h, cmp)
    ensures match Lookup(h, cmp, t, e)
            case Some(d) => d in Bag(t.bucket) && Same(cmp, e, d)
                         && exists k :: IsFirstSame(cmp, Chain(t.bucket[h(e, |t.bucket|)]), e, k, d)
            case None => forall d :: d in Bag(t.bucket) ==> !Same(cmp, e, d)
  {
    var j := h(e, |t.bucket|);
    var chain := Chain(t.bucket[j]);
    ScanIsFirst(cmp, chain, e, 0);
    match Scan(cmp, chain, e, 0)
    case Some(k) =>
      assert IsFirstSame(cmp, chain, e, k, chain[k]);
      CountInBucket(h, t.bucket, chain[k]);
    case None =>
      forall d | d in Bag(t.bucket) ensures !Same(cmp, e, d) {
        CountInBucket(h, t.bucket, d);
      }
  }

  lemma AddIsInsertion(h: Hasher, cmp: Comparator, t: Table, e: Entry)
    requires Valid(h, cmp, t) && GoodFunctions(h, cmp)
    requires forall d :: d in Bag(t.bucket) ==> !Same(cmp, e, d)
    ensures var (r, code) := Add(h, t, e);
            && Valid(h, cmp, r)
            && (code == Inserted || code == NoMemory)
            && (code == NoMemory <==> t.free == [] && t.mem == 0 && t.bucket[h(e, |t.bucket|)].Used?)
            && Bag(r.bucket) == Bag(t.bucket) + (if code == Inserted then multiset{e} else multiset{})
  {
    var put := PutEntry(h, t, e);
    PutEntryEntries(h, t, e);
    PutEntryCells(h, t, e);
    if put.ok {
      FreshAreDistinct(Ledger(t), t.next, put.table.next);
      TwinFree(cmp, Bag(t.bucket), e);
    }
  }

  lemma TwinFree(cmp: Comparator, bag: multiset<Entry>, e: Entry)
    requires NoTwins(cmp, bag)
    requires forall a, b :: cmp(a, b) ==> cmp(b, a)
    requires forall d :: d in bag ==> !Same(cmp, e, d)
    ensures NoTwins(cmp, bag + multiset{e})
  {
    assert e !in bag;
  }

  /** Memory for one more entry: a cell, and before that what a rehash takes. */
  predicate Enough(t: Table, grow: Option<Resize>)
  {
    match grow
    case None => t.free != [] || t.mem > 0
    case Some(z) => CanRehash(t, z) && t.mem > t.used
  }

  /** Insertion: the matching entry and no change, or one more entry, or not enough memory and no change. */
  lemma InsertRefinesSet(h: Hasher, cmp: Comparator, t: Table, e: Entry, grow: Option<Resize>)
    requires Valid(h, cmp, t) && GoodFunctions(h, cmp)
    ensures var (r, code) := Insert(h, cmp, t, e, grow);
            && Valid(h, cmp, r)
            && match code
               case Existing(d) => r == t && d in Bag(t.bucket) && Same(cmp, e, d)
               case Inserted => Bag(r.bucket) == Bag(t.bucket) + multiset{e}
                             && forall d :: d in Bag(t.bucket) ==> !Same(cmp, e, d)
               case NoMemory => Bag(r.bucket) == Bag(t.bucket) && !Enough(t, grow)
                             && forall d :: d in Bag(t.bucket) ==> !Same(cmp, e, d)
               case InsertAborted => false
    ensures var (r, code) := Insert(h, cmp, t, e, grow);
            code == Inserted ==>
              if grow.None? then |r.bucket| == |t.bucket|
              else |r.bucket| == grow.value.size > 0 && (grow.value.size == |t.bucket| || grow.value.arrayAvailable)
  {
    InsertResizes(h, cmp, t, e, grow);
    InsertKeepsSet(h, cmp, t, e, grow);
    hide Valid, Insert, Enough, NoTwins, Same;
  }

  lemma InsertResizes(h: Hasher, cmp: Comparator, t: Table, e: Entry, grow: Option<Resize>)
    ensures var (r, code) := Insert(h, cmp, t, e, grow);
            code == Inserted ==>
              if grow.None? then |r.bucket| == |t.bucket|
              else |r.bucket| == grow.value.size && (grow.value.size == |t.bucket| || grow.value.arrayAvailable) && grow.value.size > 0
  {
    hide Lookup, Transfer;
  }

  lemma InsertKeepsSet(h: Hasher, cmp: Comparator, t: Table, e: Entry, grow: Option<Resize>)
    requires Valid(h, cmp, t) && GoodFunctions(h, cmp)
    ensures var (r, code) := Insert(h, cmp, t, e, grow);
            && Valid(h, cmp, r)
            && match code
               case Existing(d) => r == t && d in Bag(t.bucket) && Same(cmp, e, d)
               case Inserted => Bag(r.bucket) == Bag(t.bucket) + multiset{e}
                             && forall d :: d in Bag(t.bucket) ==> !Same(cmp, e, d)
               case NoMemory => Bag(r.bucket) == Bag(t.bucket) && !Enough(t, grow)
                             && forall d :: d in Bag(t.bucket) ==> !Same(cmp, e, d)
               case InsertAborted => false
  {
    LookupIsMembership(h, cmp, t, e);
    if Lookup(h, cmp, t, e).None? {
      if grow.None? {
        AddIsInsertion(h, cmp, t, e);
      } else {
        RehashIsSafe(h, t, grow.value);
        var t1 := Rehash(h, t, grow.value).table;
        LookupIsMembership(h, cmp, t1, e);
        AddIsInsertion(h, cmp, t1, e);
      }
    }
  }

  lemma DatasDrop(ls: seq<Link>, k: nat)
    requires k < |ls|
    ensures Datas(ls[..k] + ls[k + 1..]) == Datas(ls)[..k] + Datas(ls)[k + 1..]
    ensures CellsOf(ls[..k] + ls[k + 1..]) == CellsOf(ls)[..k] + CellsOf(ls)[k + 1..]
  {
  }

  lemma DropOne<T>(s: seq<T>, k: nat)
    requires k < |s|
    ensures multiset(s) == multiset(s[..k] + s[k + 1..]) + multiset{s[k]}
  {
    assert s == s[..k] + [s[k]] + s[k + 1..];
  }

  lemma DropBehind<T>(x: T, d: seq<T>, k: nat)
    requires 0 < k <= |d|
    ensures ([x] + d)[..k] + ([x] + d)[k + 1..] == [x] + (d[..k - 1] + d[k..])
  {
    var s := [x] + d;
    assert s[..k] == [x] + d[..k - 1] && s[k + 1..] == d[k..];
  }

  lemma DropFirst<T>(x: T, d: seq<T>)
    ensures ([x] + d)[..0] + ([x] + d)[1..] == d
  {
  }

  lemma ConsBag<T>(x: T, s: seq<T>)
    ensures multiset([x] + s) == multiset(s) + multiset([x])
  {
  }

  lemma HeadOfLinks(ls: seq<Link>)
    requires ls != []
    ensures Datas(ls) == [ls[0].data] + Datas(ls[1..])
    ensures CellsOf(ls) == [ls[0].cell] + CellsOf(ls[1..])
  {
  }

  /** Unlinking drops exactly element `k` and keeps the order. */
  lemma UnlinkedChain(b: Bucket, k: nat)
    requires k < |Chain(b)|
    ensures Chain(Unlinked(b, k)) == Chain(b)[..k] + Chain(b)[k + 1..]
  {
    var ls := b.overflow;
    if k > 0 {
      DatasDrop(ls, k - 1);
      DropBehind(b.head, Datas(ls), k);
    } else {
      DropFirst(b.head, Datas(ls));
      if ls != [] {
        HeadOfLinks(ls);
      }
    }
  }

  /** It recycles exactly one cell, or none if the bucket held a single entry. */
  lemma UnlinkedCells(b: Bucket, k: nat)
    requires k < |Chain(b)|
    ensures multiset(Overflow(b)) == multiset(Overflow(Unlinked(b, k))) + multiset(Recycled(b, k))
  {
    var ls := b.overflow;
    if k > 0 {
      DatasDrop(ls, k - 1);
      DropOne(CellsOf(ls), k - 1);
    } else if ls != [] {
      HeadOfLinks(ls);
      ConsBag(ls[0].cell, CellsOf(ls[1..]));
    }
  }

  lemma RemovedBag(t: Table, j: nat, k: nat)
    requires j < |t.bucket| && k < |Chain(t.bucket[j])|
    ensures Bag(t.bucket) == Bag(Removed(t, j, k).bucket) + multiset{Chain(t.bucket[j])[k]}
  {
    var bs, b := t.bucket, Unlinked(t.bucket[j], k);
    var c := Chain(bs[j]);
    UnlinkedChain(bs[j], k);
    DropOne(c, k);
    UpdateBucket(bs, j, b);
    Cancel(Bag(bs), multiset(Chain(b)), Bag(bs[j := b]), multiset{c[k]});
  }

  /** A bucket with fewer entries leaves the others where they belong. */
  lemma FewerPlaced(h: Hasher, bs: seq<Bucket>, j: nat, b: Bucket)
    requires Placed(h, bs) && j < |bs| && forall x :: x in Chain(b) ==> x in Chain(bs[j])
    ensures Placed(h, bs[j := b])
  {
    var bs' := bs[j := b];
    forall i, x | 0 <= i < |bs'| && x in Chain(bs'[i]) ensures h(x, |bs'|) == i {
      assert x in Chain(bs[i]);
    }
  }

  lemma RemovedEntries(h: Hasher, t: Table, j: nat, k: nat)
    requires Shaped(h, t) && j < |t.bucket| && k < |Chain(t.bucket[j])|
    ensures Shaped(h, Removed(t, j, k))
    ensures Bag(t.bucket) == Bag(Removed(t, j, k).bucket) + multiset{Chain(t.bucket[j])[k]}
  {
    RemovedBag(t, j, k);
    UnlinkedChain(t.bucket[j], k);
    UpdateBucket(t.bucket, j, Unlinked(t.bucket[j], k));
    FewerPlaced(h, t.bucket, j, Unlinked(t.bucket[j], k));
    hide Bag, CellBag, UsedCount, Placed, Unlinked, Recycled;
  }

  lemma RemovedCells(t: Table, j: nat, k: nat)
    requires j < |t.bucket| && k < |Chain(t.bucket[j])|
    ensures Ledger(Removed(t, j, k)) == Ledger(t)
  {
    var bs, b, r := t.bucket, Unlinked(t.bucket[j], k), multiset(Recycled(t.bucket[j], k));
    var bs' := bs[j := b];
    UnlinkedCells(bs[j], k);
    UpdateBucket(bs, j, b);
    Cancel(CellBag(bs), multiset(Overflow(b)), CellBag(bs'), r);
    Regroup(CellBag(bs'), r, multiset(t.free));
  }

  lemma RemovedIsValid(h: Hasher, cmp: Comparator, t: Table, j: nat, k: nat)
    requires Valid(h, cmp, t) && j < |t.bucket| && k < |Chain(t.bucket[j])|
    ensures Valid(h, cmp, Removed(t, j, k))
    ensures Bag(t.bucket) == Bag(Removed(t, j, k).bucket) + multiset{Chain(t.bucket[j])[k]}
  {
    RemovedEntries(h, t, j, k);
    RemovedCells(t, j, k);
    var bag := Bag(Removed(t, j, k).bucket);
    assert bag <= Bag(t.bucket);
  }

  lemma FewerCellsAreDistinct(cells: multiset<Cell>, free: multiset<Cell>, next: Cell)
    requires DistinctCells(cells + free, next)
    ensures DistinctCells(cells + multiset([]), next)
  {
    forall c | c in cells ensures cells[c] == 1 && c < next {
      assert c in cells + free;
    }
  }

  /** Removal: exactly the one entry that is the same goes, or nothing changes. */
  ghost predicate RemovalSpec(cmp: Comparator, s: multiset<Entry>, e: Entry, s': multiset<Entry>, res: RemoveResult)
  {
    match res
    case Gone(d) => Same(cmp, e, d) && s == s' + multiset{d}
    case Absent => s' == s && forall d :: d in s ==> !Same(cmp, e, d)
    case RemoveAborted => false
  }

  lemma RemoveFound(h: Hasher, cmp: Comparator, t: Table, e: Entry, shrink: Option<Resize>, k: nat)
    requires Valid(h, cmp, t) && InRange(h)
    requires Scan(cmp, Chain(t.bucket[h(e, |t.bucket|)]), e, 0) == Some(k)
    ensures var (r, res) := Remove(h, cmp, t, e, shrink);
            !res.Absent? && Valid(h, cmp, r) && RemovalSpec(cmp, Bag(t.bucket), e, Bag(r.bucket), res)
  {
    var j := h(e, |t.bucket|);
    var t1 := Removed(t, j, k);
    var (r, res) := Remove(h, cmp, t, e, shrink);
    RemovedIsValid(h, cmp, t, j, k);
    if t1.bucket[j].Used? || shrink.None? {
      assert r == t1;
    } else {
      ShrinkIsValid(h, cmp, t1, shrink.value);
      var t2 := Rehash(h, t1, shrink.value).table;
      assert r.bucket == t2.bucket;
    }
  }

  lemma RemoveMissing(h: Hasher, cmp: Comparator, t: Table, e: Entry, shrink: Option<Resize>)
    requires Shaped(h, t) && GoodFunctions(h, cmp)
    requires Scan(cmp, Chain(t.bucket[h(e, |t.bucket|)]), e, 0) == None
    ensures Remove(h, cmp, t, e, shrink) == (t, Absent)
    ensures RemovalSpec(cmp, Bag(t.bucket), e, Bag(t.bucket), Absent)
  {
    LookupIsMembership(h, cmp, t, e);
  }

  lemma RemoveRefinesSet(h: Hasher, cmp: Comparator, t: Table, e: Entry, shrink: Option<Resize>)
    requires Valid(h, cmp, t) && GoodFunctions(h, cmp)
    ensures var (r, res) := Remove(h, cmp, t, e, shrink);
            && Valid(h, cmp, r) && RemovalSpec(cmp, Bag(t.bucket), e, Bag(r.bucket), res)
            && (res.Absent? ==> r == t)
  {
    var at := Scan(cmp, Chain(t.bucket[h(e, |t.bucket|)]), e, 0);
    var (r, res) := Remove(h, cmp, t, e, shrink);
    if at.None? {
      RemoveMissing(h, cmp, t, e, shrink);
      assert r == t && res == Absent;
    } else {
      RemoveFound(h, cmp, t, e, shrink, at.value);
    }
  }

  lemma ShrinkIsValid(h: Hasher, cmp: Comparator, t: Table, z: Resize)
    requires Valid(h, cmp, t) && InRange(h)
    ensures var r := Rehash(h, t, z);
            && !r.Aborted? && Bag(r.table.bucket) == Bag(t.bucket)
            && Valid(h, cmp, r.table) && Valid(h, cmp, r.table.(free := []))
  {
    RehashIsSafe(h, t, z);
    var t2 := Rehash(h, t, z).table;
    FewerCellsAreDistinct(CellBag(t2.bucket), multiset(t2.free), t2.next);
  }

  // ---------------------------------------------------------------------------
  // What insertion and removal leave in each bucket
  // ---------------------------------------------------------------------------

  /** The table in another array: all entries in the order of their arrival, and no cell lost. */
  ghost predicate InNewArray(h: Hasher, t: Table, n: nat, r: Table)
  {
    && |r.bucket| == n && LaidOut(h, r.bucket, Arrivals(t.bucket))
    && r.entries == t.entries && r.used == UsedCount(r.bucket)
    && Ledger(r) == Ledger(t) + Fresh(t.next, r.next) && r.next + r.mem == t.next + t.mem
  }

  /** The old array again, after malloc has given all that it could. */
  ghost predicate Restored(t: Table, r: Table)
  {
    SameTable(t, r) && r.mem == 0 && t.mem < t.used && Ledger(r) == Ledger(t) + Fresh(t.next, r.next)
  }

  /** What a rehash leaves behind, done or not. */
  ghost predicate RehashEffect(h: Hasher, t: Table, z: Resize, r: Table, done: bool)
  {
    if z.size == |t.bucket| then done && r == t
    else if z.size == 0 || !z.arrayAvailable then !done && r == t
    else if done then InNewArray(h, t, z.size, r)
    else Restored(t, r)
  }

  lemma RehashHasEffect(h: Hasher, t: Table, z: Resize)
    requires Shaped(h, t) && InRange(h) && DistinctCells(Ledger(t), t.next)
    ensures match Rehash(h, t, z)
            case Rehashed(r) => RehashEffect(h, t, z, r, true)
            case Refused(r) => RehashEffect(h, t, z, r, false)
            case Aborted => false
  {
    RehashIsSafe(h, t, z);
    if Rehash(h, t, z).Rehashed? && z.size != |t.bucket| {
      RehashOrder(h, t, z);
    }
    hide LaidOut, Ledger;
  }

  /** The new entry is the head of an empty bucket, or right behind the head in a recycled or else a new cell. */
  ghost predicate StoredIn(h: Hasher, t: Table, e: Entry, r: Table)
    requires h(e, |t.bucket|) < |t.bucket|
  {
    var j := h(e, |t.bucket|);
    var b := t.bucket[j];
    && |r.bucket| == |t.bucket| && (forall i :: 0 <= i < |t.bucket| && i != j ==> r.bucket[i] == t.bucket[i])
    && r.entries == t.entries + 1
    && if b.Empty? then
         r.bucket[j] == Used(e, []) && r.used == t.used + 1 && r.free == t.free && r.next == t.next && r.mem == t.mem
       else if t.free != [] then
         && r.bucket[j] == Used(b.head, [Link(t.free[0], e)] + b.overflow) && r.used == t.used
         && r.free == t.free[1..] && r.next == t.next && r.mem == t.mem
       else
         && r.bucket[j] == Used(b.head, [Link(t.next, e)] + b.overflow) && r.used == t.used
         && r.free == [] && t.mem > 0 && r.next == t.next + 1 && r.mem == t.mem - 1
  }

  /** Storing an entry fails exactly if its bucket is in use and there is no cell. */
  ghost predicate AddEffect(h: Hasher, t: Table, e: Entry, r: Table, code: InsertResult)
    requires h(e, |t.bucket|) < |t.bucket|
  {
    if t.bucket[h(e, |t.bucket|)].Used? && t.free == [] && t.mem == 0 then code == NoMemory && r == t
    else code == Inserted && StoredIn(h, t, e, r)
  }

  lemma AddHasEffect(h: Hasher, t: Table, e: Entry)
    requires h(e, |t.bucket|) < |t.bucket|
    ensures AddEffect(h, t, e, Add(h, t, e).0, Add(h, t, e).1)
  {
  }

  /** Insertion of an entry that is not there: the rehash comes first, and without it nothing is inserted. */
  ghost predicate InsertEffect(h: Hasher, t: Table, e: Entry, grow: Option<Resize>, r: Table, code: InsertResult)
    requires InRange(h) && |t.bucket| > 0
  {
    match grow
    case None => AddEffect(h, t, e, r, code)
    case Some(z) =>
      if z.size == |t.bucket| then AddEffect(h, t, e, r, code)
      else if z.size == 0 || !z.arrayAvailable then code == NoMemory && r == t
      else
        || (code == NoMemory && Restored(t, r))
        || (exists m :: InNewArray(h, t, z.size, m) && AddEffect(h, m, e, r, code))
  }

  lemma InsertHasEffect(h: Hasher, cmp: Comparator, t: Table, e: Entry, grow: Option<Resize>)
    requires Valid(h, cmp, t) && GoodFunctions(h, cmp) && forall d :: d in Bag(t.bucket) ==> !Same(cmp, e, d)
    ensures var (r, code) := Insert(h, cmp, t, e, grow); InsertEffect(h, t, e, grow, r, code)
  {
    LookupIsMembership(h, cmp, t, e);
    if grow.None? {
      AddHasEffect(h, t, e);
    } else {
      var z := grow.value;
      RehashHasEffect(h, t, z);
      RehashIsSafe(h, t, z);
      var m := Rehash(h, t, z).table;
      LookupIsMembership(h, cmp, m, e);
      hide Valid, Ledger, LaidOut, AddEffect, Rehash, Add, GoodFunctions, NoTwins;
      AddHasEffect(h, m, e);
    }
  }

  /** The entry of the chain that is the same is reported, or there is none. */
  ghost predicate InsertionMeans(h: Hasher, cmp: Comparator, t: Table, e: Entry, grow: Option<Resize>, r: Table, code: InsertResult)
    requires InRange(h) && |t.bucket| > 0
  {
    if code.Existing? then r == t && exists k :: IsFirstSame(cmp, Chain(t.bucket[h(e, |t.bucket|)]), e, k, code.matched)
    else (forall d :: d in Bag(t.bucket) ==> !Same(cmp, e, d)) && InsertEffect(h, t, e, grow, r, code)
  }

  lemma InsertMeans(h: Hasher, cmp: Comparator, t: Table, e: Entry, grow: Option<Resize>)
    requires Valid(h, cmp, t) && GoodFunctions(h, cmp)
    ensures var (r, code) := Insert(h, cmp, t, e, grow); !code.InsertAborted? && InsertionMeans(h, cmp, t, e, grow, r, code)
  {
    LookupIsMembership(h, cmp, t, e);
    InsertRefinesSet(h, cmp, t, e, grow);
    if Lookup(h, cmp, t, e).None? {
      InsertHasEffect(h, cmp, t, e, grow);
    }
  }

  /** Bucket `j` has lost the entry at `k`, whose cell, if any, can be used again. */
  ghost predicate ShorterBy(t: Table, j: nat, k: nat, r: Table)
    requires j < |t.bucket| && k < |Chain(t.bucket[j])|
  {
    var c := Chain(t.bucket[j]);
    && |r.bucket| == |t.bucket| && (forall i :: 0 <= i < |t.bucket| && i != j ==> r.bucket[i] == t.bucket[i])
    && Chain(r.bucket[j]) == c[..k] + c[k + 1..]
    && r.entries == t.entries - 1 && r.used == (if |c| == 1 then t.used - 1 else t.used)
    && Ledger(r) == Ledger(t) && |r.free| == |t.free| + (if |c| == 1 then 0 else 1) && r.next == t.next && r.mem == t.mem
  }

  /** Then the table shrinks, if the bucket is empty and the time has come; a refused rehash gives the spare cells back. */
  ghost predicate ShrinkEffect(h: Hasher, t: Table, shrink: Option<Resize>, emptied: bool, r: Table)
  {
    if !emptied || shrink.None? || shrink.value.size == |t.bucket| then r == t
    else
      var z := shrink.value;
      if z.size == 0 || !z.arrayAvailable then r == t.(free := [])
      else InNewArray(h, t, z.size, r) || (exists m :: Restored(t, m) && r == m.(free := []))
  }

  /** Removal of the entry at `k` of bucket `j`. */
  ghost predicate RemoveEffect(h: Hasher, t: Table, j: nat, k: nat, shrink: Option<Resize>, r: Table)
    requires j < |t.bucket| && k < |Chain(t.bucket[j])|
  {
    exists m :: ShorterBy(t, j, k, m) && ShrinkEffect(h, m, shrink, |Chain(t.bucket[j])| == 1, r)
  }

  lemma CountersArePositive(h: Hasher, cmp: Comparator, t: Table, j: nat, k: nat)
    requires Valid(h, cmp, t) && j < |t.bucket| && k < |Chain(t.bucket[j])|
    ensures t.entries > 0 && t.used > 0
  {
    OneLessUsed(t.bucket, j);
    RemovedEntries(h, t, j, k);
  }

  lemma UnlinkedShape(b: Bucket, k: nat)
    requires k < |Chain(b)|
    ensures Unlinked(b, k).Empty? <==> |Chain(b)| == 1
    ensures |Recycled(b, k)| == if |Chain(b)| == 1 then 0 else 1
  {
  }

  lemma RemovedIsShorter(h: Hasher, cmp: Comparator, t: Table, j: nat, k: nat)
    requires Valid(h, cmp, t) && j < |t.bucket| && k < |Chain(t.bucket[j])|
    ensures ShorterBy(t, j, k, Removed(t, j, k)) && (Removed(t, j, k).bucket[j].Empty? <==> |Chain(t.bucket[j])| == 1)
  {
    CountersArePositive(h, cmp, t, j, k);
    UnlinkedChain(t.bucket[j], k);
    UnlinkedShape(t.bucket[j], k);
    RemovedCells(t, j, k);
    hide Valid, Ledger, Chain, Unlinked, Recycled;
  }

  lemma ShrinkHasEffect(h: Hasher, t: Table, z: Resize)
    requires Shaped(h, t) && InRange(h) && DistinctCells(Ledger(t), t.next)
    ensures match Rehash(h, t, z)
            case Aborted => false
            case Refused(r) => ShrinkEffect(h, t, Some(z), true, r.(free := []))
            case Rehashed(r) => ShrinkEffect(h, t, Some(z), true, r)
  {
    RehashHasEffect(h, t, z);
    hide Ledger, LaidOut, Rehash, InNewArray, Restored;
  }

  /** hash_remove takes the first entry of the chain that is the same. */
  lemma RemoveHasEffect(h: Hasher, cmp: Comparator, t: Table, e: Entry, shrink: Option<Resize>) returns (k: nat)
    requires Valid(h, cmp, t) && GoodFunctions(h, cmp) && Remove(h, cmp, t, e, shrink).1.Gone?
    ensures var (r, res) := Remove(h, cmp, t, e, shrink);
            var j := h(e, |t.bucket|);
            && j < |t.bucket| && IsFirstSame(cmp, Chain(t.bucket[j]), e, k, res.data)
            && RemoveEffect(h, t, j, k, shrink, r)
  {
    var j := h(e, |t.bucket|);
    var chain := Chain(t.bucket[j]);
    ScanIsFirst(cmp, chain, e, 0);
    k := Scan(cmp, chain, e, 0).value;
    var m := Removed(t, j, k);
    RemovedIsShorter(h, cmp, t, j, k);
    RemovedIsValid(h, cmp, t, j, k);
    if |chain| == 1 && shrink.Some? {
      ShrinkHasEffect(h, m, shrink.value);
    }
    hide Ledger, ShorterBy, Removed, Rehash, NoTwins;
    assert ShrinkEffect(h, m, shrink, |chain| == 1, Remove(h, cmp, t, e, shrink).0);
  }

  /** Removal takes the first entry of the chain that is the same, or there is none. */
  ghost predicate RemovalMeans(h: Hasher, cmp: Comparator, t: Table, e: Entry, shrink: Option<Resize>, r: Table, res: RemoveResult)
    requires InRange(h) && |t.bucket| > 0
  {
    var j := h(e, |t.bucket|);
    match res
    case Gone(d) => exists k :: IsFirstSame(cmp, Chain(t.bucket[j]), e, k, d) && RemoveEffect(h, t, j, k, shrink, r)
    case Absent => r == t && forall d :: d in Bag(t.bucket) ==> !Same(cmp, e, d)
    case RemoveAborted => false
  }

  lemma RemoveMeans(h: Hasher, cmp: Comparator, t: Table, e: Entry, shrink: Option<Resize>)
    requires Valid(h, cmp, t) && GoodFunctions(h, cmp)
    ensures var (r, res) := Remove(h, cmp, t, e, shrink); RemovalMeans(h, cmp, t, e, shrink, r, res)
  {
    RemoveRefinesSet(h, cmp, t, e, shrink);
    if Remove(h, cmp, t, e, shrink).1.Gone? {
      var k := RemoveHasEffect(h, cmp, t, e, shrink);
    }
  }

  // ---------------------------------------------------------------------------
  // Clearing
  // ---------------------------------------------------------------------------

  /** The free list after the cells of a chain have been pushed on it one by one. */
  function PushCells(ls: seq<Link>, free: seq<Cell>): (r: seq<Cell>)
  {
    if ls == [] then free else [ls[|ls| - 1].cell] + PushCells(ls[..|ls| - 1], free)
  }

  /** The free list after the first `n` buckets have been cleared. */
  function FreeAfter(bs: seq<Bucket>, n: nat, free: seq<Cell>): (r: seq<Cell>)
    requires n <= |bs|
  {
    if n == 0 then free
    else if bs[n - 1].Empty? then FreeAfter(bs, n - 1, free)
    else PushCells(bs[n - 1].overflow, FreeAfter(bs, n - 1, free))
  }

  /** The entries handed to data_freer for the first `n` buckets: overflow first, then the head. */
  function FreedData(bs: seq<Bucket>, n: nat): (r: seq<Entry>)
    requires n <= |bs|
  {
    if n == 0 then []
    else if bs[n - 1].Empty? then FreedData(bs, n - 1)
    else FreedData(bs, n - 1) + (Datas(bs[n - 1].overflow) + [bs[n - 1].head])
  }

  function Cleared(t: Table): (r: Table)
  {
    t.(bucket := seq(|t.bucket|, _ => Empty), used := 0, entries := 0, free := FreeAfter(t.bucket, |t.bucket|, t.free))
  }

  lemma {:induction false} PushedCells(ls: seq<Link>, free: seq<Cell>)
    ensures multiset(PushCells(ls, free)) == multiset(CellsOf(ls)) + multiset(free)
  {
    if ls != [] {
      var n := |ls| - 1;
      PushedCells(ls[..n], free);
      TakeOne(CellsOf(ls), n);
      assert CellsOf(ls)[..n] == CellsOf(ls[..n]) && CellsOf(ls)[..n + 1] == CellsOf(ls);
      var rest := PushCells(ls[..n], free);
      assert multiset([ls[n].cell] + rest) == multiset{ls[n].cell} + multiset(rest);
      Regroup(multiset{ls[n].cell}, multiset(CellsOf(ls[..n])), multiset(free));
    }
  }

  lemma {:induction false} FreeAfterCells(bs: seq<Bucket>, n: nat, free: seq<Cell>)
    requires n <= |bs|
    ensures multiset(FreeAfter(bs, n, free)) == multiset(Flatten(CellChains(bs)[..n])) + multiset(free)
  {
    var cs := CellChains(bs);
    if n > 0 {
      FreeAfterCells(bs, n - 1, free);
      FlattenTake(cs, n - 1);
      if bs[n - 1].Used? {
        PushedCells(bs[n - 1].overflow, FreeAfter(bs, n - 1, free));
        var a, b := multiset(cs[n - 1]), multiset(Flatten(cs[..n - 1]));
        Regroup(a, b, multiset(free));
      }
    }
  }

  lemma FlattenTake<T>(ss: seq<seq<T>>, n: nat)
    requires n < |ss|
    ensures multiset(Flatten(ss[..n + 1])) == multiset(ss[n]) + multiset(Flatten(ss[..n]))
  {
    var a := ss[..n + 1];
    assert a[..n] == ss[..n] && a[n] == ss[n];
  }

  lemma {:induction false} FreedIsEverything(bs: seq<Bucket>, n: nat)
    requires n <= |bs|
    ensures multiset(FreedData(bs, n)) == multiset(Flatten(Chains(bs)[..n]))
  {
    var cs := Chains(bs);
    if n > 0 {
      FreedIsEverything(bs, n - 1);
      FlattenTake(cs, n - 1);
      if bs[n - 1].Used? {
        var d := Datas(bs[n - 1].overflow);
        assert multiset(d + [bs[n - 1].head]) == multiset([bs[n - 1].head] + d);
      }
    }
  }

  /** hash_clear recycles every cell. */
  lemma ClearRecycles(h: Hasher, t: Table)
    ensures Ledger(Cleared(t)) == Ledger(t)
  {
    var n, cs, r := |t.bucket|, CellChains(t.bucket), Cleared(t);
    assert cs[..n] == cs;
    FreeAfterCells(t.bucket, n, t.free);
    EmptyArray(h, n);
    assert CellBag(r.bucket) == multiset{};
    assert multiset{} + multiset(r.free) == multiset(r.free);
  }

  /** In a bucket the entries of the overflow come before the head. */
  lemma {:induction false} FreedInOrder(bs: seq<Bucket>, n: nat)
    requires n <= |bs|
    ensures FreedData(bs, n) == Flatten(HeadsLast(bs)[..n])
  {
    if n > 0 {
      FreedInOrder(bs, n - 1);
      var ls := HeadsLast(bs)[..n];
      assert ls[..n - 1] == HeadsLast(bs)[..n - 1];
    }
  }

  /** hash_clear hands every entry to data_freer exactly once, bucket by bucket. */
  lemma ClearFreesAll(t: Table)
    ensures FreedData(t.bucket, |t.bucket|) == Arrivals(t.bucket)
    ensures multiset(FreedData(t.bucket, |t.bucket|)) == Bag(t.bucket)
  {
    var n, cs := |t.bucket|, Chains(t.bucket);
    assert cs[..n] == cs;
    FreedIsEverything(t.bucket, n);
    FreedInOrder(t.bucket, n);
    assert HeadsLast(t.bucket)[..n] == HeadsLast(t.bucket);
  }

  /** hash_clear leaves a valid empty table. */
  lemma ClearEmpties(h: Hasher, cmp: Comparator, t: Table)
    requires Valid(h, cmp, t)
    ensures Valid(h, cmp, Cleared(t)) && Bag(Cleared(t).bucket) == multiset{}
    ensures |Cleared(t).bucket| == |t.bucket| && AllEmpty(Cleared(t).bucket)
  {
    ClearRecycles(h, t);
    EmptyArray(h, |t.bucket|);
  }

  // ---------------------------------------------------------------------------
  // Walking
  // ---------------------------------------------------------------------------

  /** Head of the first used bucket from `j` on. */
  function FirstFrom(bs: seq<Bucket>, j: nat): (r: Option<Entry>)
    decreases |bs| - j
  {
    if j >= |bs| then None
    else if bs[j].Used? then Some(bs[j].head)
    else FirstFrom(bs, j + 1)
  }

  datatype FirstResult = First(entry: Option<Entry>) | FirstAborted

  function GetFirst(t: Table): (r: FirstResult)
  {
    if t.entries == 0 then First(None)
    else match FirstFrom(t.bucket, 0)
      case None => FirstAborted
      case Some(e) => First(Some(e))
  }

  /** Position from `k` on at which the chain has the pointer `e` with a successor. */
  function WithSuccessor(chain: seq<Entry>, e: Entry, k: nat): (r: Option<nat>)
    ensures r.Some? ==> k <= r.value < |chain| - 1 && chain[r.value] == e
    ensures r.None? ==> forall i :: k <= i < |chain| - 1 ==> chain[i] != e
    decreases |chain| - k
  {
    if k + 1 >= |chain| then None
    else if chain[k] == e then Some(k)
    else WithSuccessor(chain, e, k + 1)
  }

  function GetNext(h: Hasher, t: Table, e: Entry): (r: Option<Entry>)
  {
    var j := h(e, |t.bucket|);
    if j >= |t.bucket| then None
    else match WithSuccessor(Chain(t.bucket[j]), e, 0)
      case Some(k) => Some(Chain(t.bucket[j])[k + 1])
      case None => FirstFrom(t.bucket, j + 1)
  }

  lemma {:induction false} FirstFromIsWalk(bs: seq<Bucket>, j: nat)
    requires j <= |bs|
    ensures var w := Flatten(Chains(bs)[j..]);
            FirstFrom(bs, j) == if w == [] then None else Some(w[0])
    decreases |bs| - j
  {
    var cs := Chains(bs);
    if j < |bs| {
      FirstFromIsWalk(bs, j + 1);
      var rest := cs[j..];
      FlattenSplit(rest, 0);
      assert rest[..0] == [] && rest[0] == Chain(bs[j]) && rest[1..] == cs[j + 1..];
    }
  }

  lemma TwoPlaces(w: seq<Entry>, i: nat, j: nat)
    requires i < j < |w| && w[i] == w[j]
    ensures multiset(w)[w[i]] >= 2
  {
    var a, b, x := w[..j], w[j..], w[i];
    assert w == a + b && a[i] == x && b[0] == x;
    assert multiset(w) == multiset(a) + multiset(b);
    assert x in multiset(a) && x in multiset(b);
  }

  lemma WalkIsDistinct(cmp: Comparator, w: seq<Entry>)
    requires NoTwins(cmp, multiset(w))
    ensures NoDup(w)
  {
    forall i, j | 0 <= i < j < |w| ensures w[i] != w[j] {
      if w[i] == w[j] {
        TwoPlaces(w, i, j);
      }
    }
  }

  /** An entry of the walk is found in the chain of its own bucket. */
  lemma InOwnBucket(h: Hasher, bs: seq<Bucket>, e: Entry) returns (k: nat)
    requires Placed(h, bs) && h(e, |bs|) < |bs| && e in Walk(bs)
    ensures k < |Chain(bs[h(e, |bs|)])| && Chain(bs[h(e, |bs|)])[k] == e
  {
    CountInBucket(h, bs, e);
    assert e in Bag(bs);
    assert e in Chain(bs[h(e, |bs|)]);
    k :| 0 <= k < |Chain(bs[h(e, |bs|)])| && Chain(bs[h(e, |bs|)])[k] == e;
  }

  /** Walking starts at the first entry; it starts nowhere exactly when the table is empty. */
  lemma GetFirstIsFirst(h: Hasher, cmp: Comparator, t: Table)
    requires Valid(h, cmp, t)
    ensures var w := Walk(t.bucket);
            GetFirst(t) == First(if w == [] then None else Some(w[0]))
  {
    FirstFromIsWalk(t.bucket, 0);
    assert Chains(t.bucket)[0..] == Chains(t.bucket);
  }

  /** From every entry of the walk the next step leads to the entry right after it. */
  lemma GetNextIsNext(h: Hasher, cmp: Comparator, t: Table, p: nat)
    requires Valid(h, cmp, t) && InRange(h)
    requires p < |Walk(t.bucket)|
    ensures var w := Walk(t.bucket);
            GetNext(h, t, w[p]) == if p + 1 < |w| then Some(w[p + 1]) else None
  {
    var w := Walk(t.bucket);
    var e := w[p];
    var j := h(e, |t.bucket|);
    var k := InOwnBucket(h, t.bucket, e);
    WalkIsDistinct(cmp, w);
    var cs := Chains(t.bucket);
    var before, after := Flatten(cs[..j]), Flatten(cs[j + 1..]);
    FlattenSplit(cs, j);
    FirstFromIsWalk(t.bucket, j + 1);
    NextValue(h, t, w, before, after, k, p);
  }

  lemma NextValue(h: Hasher, t: Table, w: seq<Entry>, before: seq<Entry>, after: seq<Entry>, k: nat, p: nat)
    requires NoDup(w) && p < |w|
    requires var j := h(w[p], |t.bucket|);
             && j < |t.bucket| && k < |Chain(t.bucket[j])| && Chain(t.bucket[j])[k] == w[p]
             && w == before + Chain(t.bucket[j]) + after
             && FirstFrom(t.bucket, j + 1) == if after == [] then None else Some(after[0])
    ensures GetNext(h, t, w[p]) == if p + 1 < |w| then Some(w[p + 1]) else None
  {
    NextInChain(w, before, Chain(t.bucket[h(w[p], |t.bucket|)]), after, w[p], k, p);
  }

  /** The successor of `chain[k]` in `before + chain + after`, all elements distinct. */
  lemma NextInChain(w: seq<Entry>, before: seq<Entry>, chain: seq<Entry>, after: seq<Entry>, e: Entry, k: nat, p: nat)
    requires w == before + chain + after && k < |chain| && chain[k] == e
    requires NoDup(w) && p < |w| && w[p] == e
    ensures match WithSuccessor(chain, e, 0)
            case Some(q) => p + 1 < |w| && w[p + 1] == chain[q + 1]
            case None => if after == [] then p + 1 == |w| else p + 1 < |w| && w[p + 1] == after[0]
  {
    assert w[|before| + k] == e;
    match WithSuccessor(chain, e, 0)
    case Some(q) =>
      assert w[|before| + q] == e;
    case None =>
  }

  // ---------------------------------------------------------------------------
  // Whole runs
  // ---------------------------------------------------------------------------

  /** One call, with the choices that tuning and memory make for it; Memory changes what malloc can give. */
  datatype Op =
    | OpInsert(e: Entry, resize: Option<Resize>)
    | OpRemove(e: Entry, resize: Option<Resize>)
    | OpRehash(z: Resize)
    | OpClear
    | Memory(mem: nat)

  /** The table after one call; None when the call aborts. */
  function Step(h: Hasher, cmp: Comparator, t: Table, op: Op): (r: Option<Table>)
  {
    match op
    case OpInsert(e, z) => var (t1, code) := Insert(h, cmp, t, e, z); if code.InsertAborted? then None else Some(t1)
    case OpRemove(e, z) => var (t1, res) := Remove(h, cmp, t, e, z); if res.RemoveAborted? then None else Some(t1)
    case OpRehash(z) => (match Rehash(h, t, z) case Aborted => None case Rehashed(t1) => Some(t1) case Refused(t1) => Some(t1))
    case OpClear => Some(Cleared(t))
    case Memory(mem) => Some(t.(mem := mem))
  }

  function Run(h: Hasher, cmp: Comparator, t: Table, ops: seq<Op>): (r: Option<Table>)
  {
    if ops == [] then Some(t)
    else match Run(h, cmp, t, ops[..|ops| - 1])
      case None => None
      case Some(t1) => Step(h, cmp, t1, ops[|ops| - 1])
  }

  /** What a call does to a set of entries modulo the comparator; only an insertion without enough memory has a choice. */
  ghost predicate Allowed(cmp: Comparator, s: multiset<Entry>, op: Op, enough: bool, s': multiset<Entry>)
  {
    match op
    case OpInsert(e, _) =>
      if exists d :: d in s && Same(cmp, e, d) then s' == s else s' == s + multiset{e} || (!enough && s' == s)
    case OpRemove(e, _) =>
      if exists d :: d in s && Same(cmp, e, d) then exists d :: d in s && Same(cmp, e, d) && s == s' + multiset{d}
      else s' == s
    case OpClear => s' == multiset{}
    case _ => s' == s
  }

  predicate EnoughFor(t: Table, op: Op)
  {
    op.OpInsert? ==> Enough(t, op.resize)
  }

  lemma InsertAllowed(h: Hasher, cmp: Comparator, t: Table, e: Entry, z: Option<Resize>)
    requires Valid(h, cmp, t) && GoodFunctions(h, cmp)
    ensures var (r, code) := Insert(h, cmp, t, e, z);
            !code.InsertAborted? && Valid(h, cmp, r) && Allowed(cmp, Bag(t.bucket), OpInsert(e, z), Enough(t, z), Bag(r.bucket))
  {
    InsertRefinesSet(h, cmp, t, e, z);
    LookupIsMembership(h, cmp, t, e);
    var (r, code) := Insert(h, cmp, t, e, z);
    match Lookup(h, cmp, t, e)
    case Some(d) => assert r == t;
    case None => assert code == NoMemory || Bag(r.bucket) == Bag(t.bucket) + multiset{e};
  }

  lemma RemoveAllowed(h: Hasher, cmp: Comparator, t: Table, e: Entry, z: Option<Resize>)
    requires Valid(h, cmp, t) && GoodFunctions(h, cmp)
    ensures var (r, res) := Remove(h, cmp, t, e, z);
            !res.RemoveAborted? && Valid(h, cmp, r) && Allowed(cmp, Bag(t.bucket), OpRemove(e, z), true, Bag(r.bucket))
  {
    RemoveRefinesSet(h, cmp, t, e, z);
    var (r, res) := Remove(h, cmp, t, e, z);
    if res.Gone? {
      var d := res.data;
      assert d in Bag(r.bucket) + multiset{d};
    }
  }

  lemma StepRefinesSet(h: Hasher, cmp: Comparator, t: Table, op: Op)
    requires Valid(h, cmp, t) && GoodFunctions(h, cmp)
    ensures Step(h, cmp, t, op).Some? && Valid(h, cmp, Step(h, cmp, t, op).value)
    ensures Allowed(cmp, Bag(t.bucket), op, EnoughFor(t, op), Bag(Step(h, cmp, t, op).value.bucket))
  {
    match op
    case OpInsert(e, z) => InsertAllowed(h, cmp, t, e, z);
    case OpRemove(e, z) => RemoveAllowed(h, cmp, t, e, z);
    case OpRehash(z) => RehashIsSafe(h, t, z);
    case OpClear => ClearEmpties(h, cmp, t);
    case Memory(mem) => assert t.(mem := mem).bucket == t.bucket;
  }

  /** `sets` are the successive sets of a run of calls from `t`, each step one that the call allows. */
  ghost predicate AllowedRun(h: Hasher, cmp: Comparator, t: Table, ops: seq<Op>, sets: seq<multiset<Entry>>)
  {
    |sets| == |ops| + 1 && forall i :: 0 <= i < |ops| ==> AllowedAt(h, cmp, t, ops, sets, i)
  }

  ghost predicate AllowedAt(h: Hasher, cmp: Comparator, t: Table, ops: seq<Op>, sets: seq<multiset<Entry>>, i: nat)
    requires i < |ops| && i + 1 < |sets|
  {
    var r := Run(h, cmp, t, ops[..i]);
    r.Some? && Allowed(cmp, sets[i], ops[i], EnoughFor(r.value, ops[i]), sets[i + 1])
  }

  /** Every run of calls stays valid, never aborts, and is a run of the set. */
  lemma {:induction false} RunRefinesSet(h: Hasher, cmp: Comparator, t: Table, ops: seq<Op>)
    returns (sets: seq<multiset<Entry>>)
    requires Valid(h, cmp, t) && GoodFunctions(h, cmp)
    ensures Run(h, cmp, t, ops).Some? && Valid(h, cmp, Run(h, cmp, t, ops).value)
    ensures AllowedRun(h, cmp, t, ops, sets)
    ensures sets[0] == Bag(t.bucket) && sets[|ops|] == Bag(Run(h, cmp, t, ops).value.bucket)
  {
    hide Valid, GoodFunctions, Allowed;
    if ops == [] {
      sets := [Bag(t.bucket)];
    } else {
      var n := |ops| - 1;
      var before := RunRefinesSet(h, cmp, t, ops[..n]);
      var t1 := Run(h, cmp, t, ops[..n]).value;
      StepRefinesSet(h, cmp, t1, ops[n]);
      sets := Extended(h, cmp, t, ops, before, Bag(Run(h, cmp, t, ops).value.bucket));
    }
  }

  lemma Extended(h: Hasher, cmp: Comparator, t: Table, ops: seq<Op>, before: seq<multiset<Entry>>, s: multiset<Entry>)
    returns (sets: seq<multiset<Entry>>)
    requires ops != [] && AllowedRun(h, cmp, t, ops[..|ops| - 1], before)
    requires AllowedAt(h, cmp, t, ops, before + [s], |ops| - 1)
    ensures AllowedRun(h, cmp, t, ops, sets) && sets == before + [s]
  {
    sets := before + [s];
    var less := ops[..|ops| - 1];
    forall i | 0 <= i < |ops| ensures AllowedAt(h, cmp, t, ops, sets, i) {
      if i < |ops| - 1 {
        assert AllowedAt(h, cmp, t, less, before, i);
        assert less[..i] == ops[..i] && less[i] == ops[i];
      }
    }
  }

  /** A new table is valid and empty. */
  lemma NewTableIsValid(h: Hasher, cmp: Comparator, n: nat, next: Cell, mem: nat)
    requires n > 0
    ensures var t := Table(seq(n, _ => Empty), 0, 0, [], next, mem);
            Valid(h, cmp, t) && Bag(t.bucket) == multiset{}
  {
    EmptyArray(h, n);
  }

  // ---------------------------------------------------------------------------
  // The table as an object
  // ---------------------------------------------------------------------------

  datatype RehashCode = Done | NotDone | Abort

  class HashTable {
    const hasher: Hasher
    const comparator: Comparator
    var bucket: seq<Bucket>
    var nBucketsUsed: nat
    var nEntries: nat
    var freeList: seq<Cell>
    var nextCell: Cell
    var mem: nat

    ghost function State(): Table
      reads this
    {
      Table(bucket, nBucketsUsed, nEntries, freeList, nextCell, mem)
    }

    /** hash_initialize with a given bucket count. */
    constructor (h: Hasher, cmp: Comparator, n: nat, next: Cell, available: nat)
      requires n > 0
      ensures hasher == h && comparator == cmp
      ensures State() == Table(seq(n, _ => Empty), 0, 0, [], next, available)
    {
      hasher, comparator := h, cmp;
      bucket, nBucketsUsed, nEntries := seq(n, _ => Empty), 0, 0;
      freeList, nextCell, mem := [], next, available;
    }

    /** The fresh table of hash_rehash, sharing the free list of `t`. */
    constructor Sibling(t: HashTable, n: nat)
      ensures hasher == t.hasher && comparator == t.comparator
      ensures State() == Vacant(n, t.State())
    {
      hasher, comparator := t.hasher, t.comparator;
      bucket, nBucketsUsed, nEntries := seq(n, _ => Empty), 0, 0;
      freeList, nextCell, mem := t.freeList, t.nextCell, t.mem;
    }

    method Find(e: Entry) returns (r: Option<Entry>)
      requires InRange(hasher) && |bucket| > 0
      ensures r == Lookup(hasher, comparator, State(), e)
    {
      var chain := Chain(bucket[hasher(e, |bucket|)]);
      for k := 0 to |chain|
        invariant Scan(comparator, chain, e, 0) == Scan(comparator, chain, e, k)
      {
        if e == chain[k] || comparator(e, chain[k]) {
          return Some(chain[k]);
        }
      }
      r := None;
    }

    method MoveLinks(ls: seq<Link>)
      requires InRange(hasher) && |bucket| > 0
      modifies this
      ensures State() == PutLinks(hasher, old(State()), ls)
    {
      for k := 0 to |ls|
        invariant State() == PutLinks(hasher, old(State()), ls[..k])
      {
        assert ls[..k + 1][..k] == ls[..k];
        var l := ls[k];
        var j := hasher(l.data, |bucket|);
        if bucket[j].Used? {
          bucket := bucket[j := Pushed(bucket[j], l)];
        } else {
          bucket := bucket[j := Used(l.data, [])];
          nBucketsUsed := nBucketsUsed + 1;
          freeList := [l.cell] + freeList;
        }
      }
      assert ls[..|ls|] == ls;
    }

    method AllocateEntry() returns (c: Option<Cell>)
      modifies this
      ensures (State(), c) == Allocate(old(State()))
      ensures if old(freeList) != [] then c == Some(old(freeList)[0]) && freeList == old(freeList)[1..] && mem == old(mem)
              else freeList == [] && if old(mem) > 0 then c == Some(old(nextCell)) && mem == old(mem) - 1 else c == None && mem == 0
      ensures bucket == old(bucket) && nBucketsUsed == old(nBucketsUsed) && nEntries == old(nEntries)
    {
      if freeList != [] {
        c := Some(freeList[0]);
        freeList := freeList[1..];
      } else if mem > 0 {
        c := Some(nextCell);
        nextCell, mem := nextCell + 1, mem - 1;
      } else {
        c := None;
      }
    }

    method StoreEntry(e: Entry) returns (ok: bool)
      requires InRange(hasher) && |bucket| > 0
      modifies this
      ensures Outcome(State(), ok) == PutEntry(hasher, old(State()), e)
    {
      var j := hasher(e, |bucket|);
      if bucket[j].Used? {
        var c := AllocateEntry();
        if c.None? {
          return false;
        }
        bucket := bucket[j := Pushed(bucket[j], Link(c.value, e))];
      } else {
        bucket := bucket[j := Used(e, [])];
        nBucketsUsed := nBucketsUsed + 1;
      }
      ok := true;
    }

    /** transfer_entries from `src` into this table. */
    method TransferFrom(src: HashTable, safe: bool) returns (ok: bool)
      requires src != this && InRange(hasher) && |bucket| > 0
      modifies this, src
      ensures Moved(State(), src.State(), ok) == Transfer(hasher, old(State()), old(src.State()), 0, safe)
    {
      ghost var goal := Transfer(hasher, State(), src.State(), 0, safe);
      for i := 0 to |src.bucket|
        invariant |src.bucket| == old(|src.bucket|) && |bucket| == old(|bucket|)
        invariant goal == Transfer(hasher, State(), src.State(), i, safe)
      {
        if src.bucket[i].Used? {
          var b := src.bucket[i];
          MoveLinks(b.overflow);
          src.bucket := src.bucket[i := Used(b.head, [])];
          if !safe {
            var stored := StoreEntry(b.head);
            if !stored {
              return false;
            }
            src.bucket := src.bucket[i := Empty];
            src.nBucketsUsed := if src.nBucketsUsed > 0 then src.nBucketsUsed - 1 else 0;
          }
        }
      }
      ok := true;
    }

    /** hash_rehash; Aborted stands for the call of abort(). */
    method DoRehash(z: Resize) returns (code: RehashCode)
      requires InRange(hasher) && |bucket| > 0
      modifies this
      ensures match Rehash(hasher, old(State()), z)
              case Rehashed(t) => code == Done && State() == t
              case Refused(t) => code == NotDone && State() == t
              case Aborted => code == Abort
      ensures old(Shaped(hasher, State()) && DistinctCells(Ledger(State()), nextCell)) ==>
                code != Abort && RehashEffect(hasher, old(State()), z, State(), code == Done)
    {
      if Shaped(hasher, State()) && DistinctCells(Ledger(State()), nextCell) {
        RehashHasEffect(hasher, State(), z);
      }
      hide RehashEffect, Ledger, Shaped, DistinctCells;
      if z.size == 0 {
        return NotDone;
      }
      if z.size == |bucket| {
        return Done;
      }
      if !z.arrayAvailable {
        return NotDone;
      }
      var newTable := new HashTable.Sibling(this, z.size);
      var done := newTable.TransferFrom(this, false);
      if done {
        bucket, nBucketsUsed := newTable.bucket, newTable.nBucketsUsed;
        freeList, nextCell, mem := newTable.freeList, newTable.nextCell, newTable.mem;
        return Done;
      }
      freeList, nextCell, mem := newTable.freeList, newTable.nextCell, newTable.mem;
      var first := TransferFrom(newTable, true);
      if !first {
        return Abort;
      }
      var second := TransferFrom(newTable, false);
      code := if second then NotDone else Abort;
    }

    method InsertIfAbsent(e: Entry, grow: Option<Resize>) returns (code: InsertResult)
      requires InRange(hasher) && |bucket| > 0
      modifies this
      ensures var (t, c) := Insert(hasher, comparator, old(State()), e, grow);
              code == c && (code.InsertAborted? || State() == t)
      ensures old(Valid(hasher, comparator, State())) && GoodFunctions(hasher, comparator) ==>
                InsertionMeans(hasher, comparator, old(State()), e, grow, State(), code)
    {
      if Valid(hasher, comparator, State()) && GoodFunctions(hasher, comparator) {
        InsertMeans(hasher, comparator, State(), e, grow);
      }
      hide InsertionMeans, Valid, GoodFunctions, Rehash, PutEntry, Lookup, RehashEffect, Ledger, Shaped, DistinctCells;
      var found := Find(e);
      if found.Some? {
        return Existing(found.value);
      }
      if grow.Some? {
        var done := DoRehash(grow.value);
        if done != Done {
          return if done == NotDone then NoMemory else InsertAborted;
        }
        found := Find(e);
        if found.Some? {
          return InsertAborted;
        }
      }
      var stored := StoreEntry(e);
      if !stored {
        return NoMemory;
      }
      nEntries := nEntries + 1;
      code := Inserted;
    }

    /** hash_find_entry with the delete flag, and the counters of hash_remove. */
    method Unlink(e: Entry) returns (r: Option<Entry>, emptied: bool)
      requires InRange(hasher) && |bucket| > 0
      modifies this
      ensures var j := hasher(e, |old(bucket)|);
              match Scan(comparator, Chain(old(bucket)[j]), e, 0)
              case None => r.None? && State() == old(State())
              case Some(k) =>
                && r == Some(Chain(old(bucket)[j])[k])
                && State() == Removed(old(State()), j, k)
                && emptied == bucket[j].Empty?
    {
      var j := hasher(e, |bucket|);
      var b := bucket[j];
      var chain := Chain(b);
      emptied := false;
      for k := 0 to |chain|
        invariant Scan(comparator, chain, e, 0) == Scan(comparator, chain, e, k)
        invariant State() == old(State())
      {
        if e == chain[k] || comparator(e, chain[k]) {
          freeList := Recycled(b, k) + freeList;
          bucket := bucket[j := Unlinked(b, k)];
          emptied := bucket[j].Empty?;
          nEntries := if nEntries > 0 then nEntries - 1 else 0;
          nBucketsUsed := if emptied && nBucketsUsed > 0 then nBucketsUsed - 1 else nBucketsUsed;
          return Some(chain[k]), emptied;
        }
      }
      r := None;
    }

    method RemoveEntry(e: Entry, shrink: Option<Resize>) returns (r: RemoveResult)
      requires InRange(hasher) && |bucket| > 0
      modifies this
      ensures var (t, res) := Remove(hasher, comparator, old(State()), e, shrink);
              r == res && (r.RemoveAborted? || State() == t)
      ensures old(Valid(hasher, comparator, State())) && GoodFunctions(hasher, comparator) ==>
                RemovalMeans(hasher, comparator, old(State()), e, shrink, State(), r)
    {
      if Valid(hasher, comparator, State()) && GoodFunctions(hasher, comparator) {
        RemoveMeans(hasher, comparator, State(), e, shrink);
      }
      hide RemovalMeans, Valid, GoodFunctions;
      var data, emptied := Unlink(e);
      if data.None? {
        return Absent;
      }
      if emptied && shrink.Some? {
        var done := DoRehash(shrink.value);
        if done == Abort {
          return RemoveAborted;
        }
        if done == NotDone {
          freeList := [];
        }
      }
      r := Gone(data.value);
    }

    /** hash_clear; `freed` is the order in which data_freer sees the entries. */
    method Clear() returns (freed: seq<Entry>)
      modifies this
      ensures State() == Cleared(old(State()))
      ensures freed == FreedData(old(bucket), |old(bucket)|)
    {
      freed := [];
      ghost var before := bucket;
      for i := 0 to |bucket|
        invariant |bucket| == |before|
        invariant forall k :: 0 <= k < i ==> bucket[k] == Empty
        invariant forall k :: i <= k < |bucket| ==> bucket[k] == before[k]
        invariant freed == FreedData(before, i)
        invariant freeList == FreeAfter(before, i, old(freeList))
        invariant nextCell == old(nextCell) && mem == old(mem)
      {
        if bucket[i].Used? {
          var b, cells := bucket[i], freeList;
          for k := 0 to |b.overflow|
            invariant cells == PushCells(b.overflow[..k], FreeAfter(before, i, old(freeList)))
          {
            assert b.overflow[..k + 1][..k] == b.overflow[..k];
            cells := [b.overflow[k].cell] + cells;
          }
          assert b.overflow[..|b.overflow|] == b.overflow;
          freeList := cells;
          freed := freed + (Datas(b.overflow) + [b.head]);
          bucket := bucket[i := Empty];
        }
      }
      nBucketsUsed, nEntries := 0, 0;
      assert bucket == seq(|before|, _ => Empty);
    }

    method FirstEntry() returns (r: FirstResult)
      ensures r == GetFirst(State())
    {
      if nEntries == 0 {
        return First(None);
      }
      for i := 0 to |bucket|
        invariant FirstFrom(bucket, 0) == FirstFrom(bucket, i)
      {
        if bucket[i].Used? {
          return First(Some(bucket[i].head));
        }
      }
      r := FirstAborted;
    }

    method NextEntry(e: Entry) returns (r: Option<Entry>)
      requires InRange(hasher) && |bucket| > 0
      ensures r == GetNext(hasher, State(), e)
    {
      var j := hasher(e, |bucket|);
      var chain := Chain(bucket[j]);
      var k := 0;
      while k + 1 < |chain|
        invariant WithSuccessor(chain, e, 0) == WithSuccessor(chain, e, k)
      {
        if chain[k] == e {
          return Some(chain[k + 1]);
        }
        k := k + 1;
      }
      for i := j + 1 to |bucket|
        invariant FirstFrom(bucket, j + 1) == FirstFrom(bucket, i)
      {
        if bucket[i].Used? {
          return Some(bucket[i].head);
        }
      }
      r := None;
    }

    /** hash_table_ok compares recounted totals with the counters. */
    method TableOk() returns (ok: bool)
      ensures ok == (nBucketsUsed == UsedCount(bucket) && nEntries == |Walk(bucket)|)
    {
      var usedBuckets, entries := 0, 0;
      ghost var cs := Chains(bucket);
      for i := 0 to |bucket|
        invariant usedBuckets == CountNonEmpty(cs[..i]) && entries == |Flatten(cs[..i])|
      {
        CountStep(cs, i);
        if bucket[i].Used? {
          usedBuckets := usedBuckets + 1;
          entries := entries + 1 + |bucket[i].overflow|;
        }
      }
      assert cs[..|bucket|] == cs;
      ok := usedBuckets == nBucketsUsed && entries == nEntries;
    }
  }

  lemma CountStep<T>(ss: seq<seq<T>>, i: nat)
    requires i < |ss|
    ensures CountNonEmpty(ss[..i + 1]) == CountNonEmpty(ss[..i]) + (if ss[i] == [] then 0 else 1)
    ensures |Flatten(ss[..i + 1])| == |Flatten(ss[..i])| + |ss[i]|
  {
    var a := ss[..i + 1];
    assert a[..i] == ss[..i] && a[i] == ss[i];
  }
}
