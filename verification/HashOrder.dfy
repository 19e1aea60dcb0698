/**
 Where hash_rehash of compat/hashtable/hash.c puts the entries: the first that arrives in a bucket
 is its head, and each later one goes right behind the head.
 */
module HashOrder {
  import opened Common
  import opened Flattening
  import opened HashTransfer

  /** The entries of a bucket, the head after the overflow. */
  function HeadLast(b: Bucket): (r: seq<Entry>)
  {
    if b.Empty? then [] else Datas(b.overflow) + [b.head]
  }

  ghost function HeadsLast(bs: seq<Bucket>): (r: seq<seq<Entry>>)
    ensures |r| == |bs| && forall i :: 0 <= i < |bs| ==> r[i] == HeadLast(bs[i])
  {
    seq(|bs|, i requires 0 <= i < |bs| => HeadLast(bs[i]))
  }

  /** The order in which transfer_entries and hash_clear meet the entries. */
  ghost function Arrivals(bs: seq<Bucket>): (r: seq<Entry>)
  {
    Flatten(HeadsLast(bs))
  }

  /** Those of `arrived` that belong to bucket `j` of `n`. */
  ghost function Mine(h: Hasher, n: nat, arrived: seq<Entry>, j: nat): (r: seq<Entry>)
  {
    if arrived == [] then []
    else
      var last := arrived[|arrived| - 1];
      Mine(h, n, arrived[..|arrived| - 1], j) + if h(last, n) == j then [last] else []
  }

  /** The first one in front, the others behind it with the latest first. */
  function Laid(m: seq<Entry>): (r: seq<Entry>)
    ensures |r| == |m|
  {
    seq(|m|, i requires 0 <= i < |m| => if i == 0 then m[0] else m[|m| - i])
  }

  ghost predicate LaidOut(h: Hasher, bs: seq<Bucket>, arrived: seq<Entry>)
  {
    forall j :: 0 <= j < |bs| ==> Chain(bs[j]) == Laid(Mine(h, |bs|, arrived, j))
  }

  lemma LaidNext(m: seq<Entry>, e: Entry)
    ensures Laid(m + [e]) == if m == [] then [e] else [m[0], e] + Laid(m)[1..]
  {
  }

  lemma MineNext(h: Hasher, n: nat, arrived: seq<Entry>, e: Entry, j: nat)
    ensures Mine(h, n, arrived + [e], j) == Mine(h, n, arrived, j) + if h(e, n) == j then [e] else []
  {
    assert (arrived + [e])[..|arrived|] == arrived;
  }

  lemma PushedChain(b: Bucket, l: Link)
    requires b.Used?
    ensures Chain(Pushed(b, l)) == [b.head, l.data] + Chain(b)[1..]
  {
    var d := Datas(b.overflow);
    assert Datas([l] + b.overflow) == [l.data] + d;
    Behind(b.head, l.data, d);
  }

  lemma Behind(x: Entry, y: Entry, d: seq<Entry>)
    ensures [x] + ([y] + d) == [x, y] + ([x] + d)[1..]
  {
    assert ([x] + d)[1..] == d;
  }

  /** One more entry arrives. */
  lemma PutIsNext(h: Hasher, bs: seq<Bucket>, e: Entry, c: Cell, arrived: seq<Entry>)
    requires LaidOut(h, bs, arrived) && h(e, |bs|) < |bs|
    ensures LaidOut(h, Put(bs, h(e, |bs|), e, c), arrived + [e])
  {
    var j := h(e, |bs|);
    var r := Put(bs, j, e, c);
    forall i | 0 <= i < |r| ensures Chain(r[i]) == Laid(Mine(h, |r|, arrived + [e], i)) {
      MineNext(h, |r|, arrived, e, i);
      var m := Mine(h, |r|, arrived, i);
      assert Chain(bs[i]) == Laid(m);
      if i == j {
        LaidNext(m, e);
        if bs[j].Empty? {
          assert m == [] && Chain(r[j]) == [e];
        } else {
          PushedChain(bs[j], Link(c, e));
          assert Laid(m)[0] == m[0];
        }
      } else {
        assert m + [] == m;
      }
    }
  }

  lemma {:induction false} LinksArrive(h: Hasher, t: Table, ls: seq<Link>, arrived: seq<Entry>)
    requires LaidOut(h, t.bucket, arrived) && InRange(h) && |t.bucket| > 0
    ensures LaidOut(h, PutLinks(h, t, ls).bucket, arrived + Datas(ls))
  {
    if ls != [] {
      var n := |ls| - 1;
      var t1, l := PutLinks(h, t, ls[..n]), ls[n];
      LinksArrive(h, t, ls[..n], arrived);
      assert Datas(ls) == Datas(ls[..n]) + [l.data];
      assert arrived + Datas(ls) == (arrived + Datas(ls[..n])) + [l.data];
      PutIsNext(h, t1.bucket, l.data, l.cell, arrived + Datas(ls[..n]));
    } else {
      assert arrived + Datas(ls) == arrived;
    }
  }

  lemma EntryArrives(h: Hasher, t: Table, e: Entry, arrived: seq<Entry>)
    requires LaidOut(h, t.bucket, arrived) && InRange(h) && |t.bucket| > 0 && PutEntry(h, t, e).ok
    ensures LaidOut(h, PutEntry(h, t, e).table.bucket, arrived + [e])
  {
    var j := h(e, |t.bucket|);
    var c := if t.bucket[j].Empty? then 0 else if t.free != [] then t.free[0] else t.next;
    assert PutEntry(h, t, e).table.bucket == Put(t.bucket, j, e, c);
    PutIsNext(h, t.bucket, e, c, arrived);
  }

  lemma BucketArrives(h: Hasher, dst: Table, src: Table, i: nat, arrived: seq<Entry>)
    requires LaidOut(h, dst.bucket, arrived) && InRange(h) && |dst.bucket| > 0 && i < |src.bucket|
    requires MoveBucket(h, dst, src, i, false).ok
    ensures LaidOut(h, MoveBucket(h, dst, src, i, false).dst.bucket, arrived + HeadLast(src.bucket[i]))
  {
    match src.bucket[i]
    case Empty => assert arrived + [] == arrived;
    case Used(head, overflow) =>
      LinksArrive(h, dst, overflow, arrived);
      EntryArrives(h, PutLinks(h, dst, overflow), head, arrived + Datas(overflow));
      assert arrived + HeadLast(src.bucket[i]) == (arrived + Datas(overflow)) + [head];
  }

  /** A complete transfer of the buckets of `orig`. */
  lemma {:induction false} TransferArrives(h: Hasher, dst: Table, src: Table, i: nat, orig: seq<Bucket>)
    requires InRange(h) && |dst.bucket| > 0 && |src.bucket| == |orig| && i <= |orig|
    requires forall k :: i <= k < |orig| ==> src.bucket[k] == orig[k]
    requires LaidOut(h, dst.bucket, Flatten(HeadsLast(orig)[..i])) && Transfer(h, dst, src, i, false).ok
    ensures LaidOut(h, Transfer(h, dst, src, i, false).dst.bucket, Arrivals(orig))
    decreases |orig| - i
  {
    var ls := HeadsLast(orig);
    if i < |orig| {
      var m := MoveBucket(h, dst, src, i, false);
      BucketArrives(h, dst, src, i, Flatten(ls[..i]));
      assert ls[..i + 1][..i] == ls[..i];
      TransferArrives(h, m.dst, m.src, i + 1, orig);
    } else {
      assert ls[..i] == ls;
    }
  }

  lemma NoneArrived(h: Hasher, n: nat)
    ensures LaidOut(h, seq(n, _ => Empty), [])
  {
  }

  /** After a rehash to another size each bucket has its entries in the order of their arrival. */
  lemma RehashOrder(h: Hasher, t: Table, z: Resize)
    requires InRange(h) && Rehash(h, t, z).Rehashed? && z.size != |t.bucket|
    ensures LaidOut(h, Rehash(h, t, z).table.bucket, Arrivals(t.bucket))
  {
    NoneArrived(h, z.size);
    TransferArrives(h, Vacant(z.size, t), t, 0, t.bucket);
  }
}
