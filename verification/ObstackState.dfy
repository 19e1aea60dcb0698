/**
 The obstack allocator (compat/obstack/obstack.c and its header): a stack of objects in chunks,
 of which the last one is still growing. The state holds the addresses that the source computes
 with, and next to them the finished objects, which the source does not record.
 */
module ObstackState {
  import opened Common

  /** A chunk occupies the addresses `base..limit`. */
  datatype Chunk = Chunk(base: nat, limit: nat)

  /** A finished object: its address, its bytes when it was finished, and the chunk it lies in. */
  datatype Object = Object(addr: nat, bytes: seq<Byte>, at: nat)

  /** `chunks` runs from the oldest to the current one. */
  datatype Obstack = Obstack(
    align: nat, chunkSize: nat, chunks: seq<Chunk>, base: nat, next: nat, maybeEmpty: bool,
    mem: map<nat, Byte>, objects: seq<Object>)

  /** sizeof the chunk header: `limit` and `prev`. */
  const HEADER: nat := 16

  // ---------------------------------------------------------------------------
  // Alignment
  // ---------------------------------------------------------------------------

  predicate Aligned(p: nat, align: nat)
    requires align > 0
  {
    p % align == 0
  }

  /** __PTR_ALIGN. */
  function AlignUp(p: nat, align: nat): (r: nat)
    requires align > 0
  {
    (p + align - 1) / align * align
  }

  /** `a` is the least multiple of the alignment from `p` on. */
  ghost predicate IsNextMultiple(a: nat, p: nat, align: nat)
  {
    p <= a < p + align && a % align == 0
  }

  lemma AlignUpOk(p: nat, align: nat)
    requires align > 0
    ensures IsNextMultiple(AlignUp(p, align), p, align)
    ensures p <= AlignUp(p, align) < p + align && Aligned(AlignUp(p, align), align)
    ensures Aligned(p, align) ==> AlignUp(p, align) == p
  {
    var q := (p + align - 1) / align;
    assert p + align - 1 == q * align + (p + align - 1) % align;
    Multiple(q, align);
    if Aligned(p, align) {
      var k := p / align;
      assert p == k * align;
      Between(p, k, q, align);
    }
  }

  lemma Multiple(q: nat, align: nat)
    requires align > 0
    ensures q * align % align == 0
  {
    if q > 0 {
      Multiple(q - 1, align);
      assert q * align == (q - 1) * align + align;
      Shift((q - 1) * align, align);
    }
  }

  lemma Shift(x: nat, align: nat)
    requires align > 0
    ensures (x + align) % align == x % align
  {
    var k, r := x / align, x % align;
    assert x + align == (k + 1) * align + r;
    Remainder(k + 1, r, align);
  }

  lemma Remainder(k: nat, r: nat, align: nat)
    requires r < align
    ensures (k * align + r) % align == r
  {
    var x := k * align + r;
    var k', r' := x / align, x % align;
    assert x == k' * align + r' && 0 <= r' < align;
    Monotone(k + 1, k', align);
    Monotone(k' + 1, k, align);
  }

  lemma Between(p: nat, k: nat, q: nat, align: nat)
    requires align > 0 && p == k * align && p <= q * align < p + align
    ensures q == k
  {
    Monotone(k + 1, q, align);
    Monotone(q + 1, k, align);
  }

  lemma Monotone(a: nat, b: nat, c: nat)
    ensures a <= b ==> a * c <= b * c
  {
    if a <= b {
      assert b * c == a * c + (b - a) * c;
    }
  }

  // ---------------------------------------------------------------------------
  // Memory
  // ---------------------------------------------------------------------------

  function Read(mem: map<nat, Byte>, a: nat): (b: Byte)
  {
    if a in mem then mem[a] else 0
  }

  function Bytes(mem: map<nat, Byte>, a: nat, n: nat): (s: seq<Byte>)
    ensures |s| == n && forall i :: 0 <= i < n ==> s[i] == Read(mem, a + i)
  {
    if n == 0 then [] else Bytes(mem, a, n - 1) + [Read(mem, a + n - 1)]
  }

  /** memcpy to `a`. */
  function Write(mem: map<nat, Byte>, a: nat, s: seq<Byte>): (r: map<nat, Byte>)
  {
    if s == [] then mem else Write(mem, a, s[..|s| - 1])[a + |s| - 1 := s[|s| - 1]]
  }

  lemma {:induction false} ReadWrite(mem: map<nat, Byte>, a: nat, s: seq<Byte>, x: nat)
    ensures Read(Write(mem, a, s), x) == if a <= x < a + |s| then s[x - a] else Read(mem, x)
  {
    if s != [] {
      ReadWrite(mem, a, s[..|s| - 1], x);
    }
  }

  /** Two memories agree on a range. */
  ghost predicate SameOn(m: map<nat, Byte>, m': map<nat, Byte>, a: nat, b: nat)
  {
    forall x :: a <= x < b ==> Read(m, x) == Read(m', x)
  }

  lemma SameBytes(m: map<nat, Byte>, m': map<nat, Byte>, a: nat, n: nat)
    requires SameOn(m, m', a, a + n)
    ensures Bytes(m, a, n) == Bytes(m', a, n)
  {
    forall i | 0 <= i < n ensures Bytes(m, a, n)[i] == Bytes(m', a, n)[i] {
      assert Read(m, a + i) == Read(m', a + i);
    }
  }

  /** A write does not reach what lies outside of it. */
  lemma WriteElsewhere(mem: map<nat, Byte>, a: nat, s: seq<Byte>, lo: nat, hi: nat)
    requires hi <= a || a + |s| <= lo
    ensures SameOn(mem, Write(mem, a, s), lo, hi)
  {
    forall x | lo <= x < hi ensures Read(mem, x) == Read(Write(mem, a, s), x) {
      ReadWrite(mem, a, s, x);
    }
  }

  lemma WrittenBytes(mem: map<nat, Byte>, a: nat, s: seq<Byte>)
    ensures Bytes(Write(mem, a, s), a, |s|) == s
  {
    forall i | 0 <= i < |s| ensures Bytes(Write(mem, a, s), a, |s|)[i] == s[i] {
      ReadWrite(mem, a, s, a + i);
    }
  }

  lemma JoinedBytes(mem: map<nat, Byte>, a: nat, n: nat, m: nat)
    ensures Bytes(mem, a, n + m) == Bytes(mem, a, n) + Bytes(mem, a + n, m)
  {
    var x, y := Bytes(mem, a, n + m), Bytes(mem, a, n) + Bytes(mem, a + n, m);
    forall i | 0 <= i < |x| ensures x[i] == y[i] {
    }
  }

  // ---------------------------------------------------------------------------
  // Invariant
  // ---------------------------------------------------------------------------

  /** Where the objects of a chunk begin. */
  function Start(c: Chunk, align: nat): (a: nat)
    requires align > 0
  {
    AlignUp(c.base + HEADER, align)
  }

  ghost predicate Apart(c: Chunk, d: Chunk)
  {
    c.limit <= d.base || d.limit <= c.base
  }

  ghost predicate ChunksOk(chunks: seq<Chunk>, align: nat)
    requires align > 0
  {
    && chunks != []
    && (forall i :: 0 <= i < |chunks| ==> 0 < chunks[i].base && Start(chunks[i], align) <= chunks[i].limit)
    && (forall i, j :: 0 <= i < j < |chunks| ==> Apart(chunks[i], chunks[j]))
  }

  /** An address where an object may begin: aligned, or at the very end of the chunk. */
  ghost predicate PlaceOk(c: Chunk, a: nat, align: nat)
    requires align > 0
  {
    Start(c, align) <= a <= c.limit && (Aligned(a, align) || a == c.limit)
  }

  /** A finished object lies in a live chunk with its bytes intact. */
  ghost predicate ObjectOk(s: Obstack, o: Object)
    requires s.align > 0
  {
    && o.at < |s.chunks| && PlaceOk(s.chunks[o.at], o.addr, s.align)
    && o.addr + |o.bytes| <= s.chunks[o.at].limit
    && Bytes(s.mem, o.addr, |o.bytes|) == o.bytes
  }

  /** Objects follow each other upwards in a chunk and from chunk to chunk. */
  ghost predicate Follows(o: Object, p: Object)
  {
    o.at < p.at || (o.at == p.at && o.addr + |o.bytes| <= p.addr)
  }

  function Current(s: Obstack): (c: Chunk)
    requires s.chunks != []
  {
    s.chunks[|s.chunks| - 1]
  }

  /** The object that grows comes after all finished ones. */
  ghost predicate GrowsLast(s: Obstack, o: Object)
  {
    o.at + 1 < |s.chunks| || (o.at + 1 == |s.chunks| && o.addr + |o.bytes| <= s.base)
  }

  ghost predicate ObjectsOk(s: Obstack)
    requires s.align > 0
  {
    && (forall i :: 0 <= i < |s.objects| ==> ObjectOk(s, s.objects[i]) && GrowsLast(s, s.objects[i]))
    && (forall i, j :: 0 <= i < j < |s.objects| ==> Follows(s.objects[i], s.objects[j]))
  }

  ghost predicate Valid(s: Obstack)
  {
    && s.align > 0 && ChunksOk(s.chunks, s.align)
    && PlaceOk(Current(s), s.base, s.align) && s.base <= s.next <= Current(s).limit
    && ObjectsOk(s)
    && (!s.maybeEmpty ==> forall i :: 0 <= i < |s.objects| && s.objects[i].at + 1 == |s.chunks| ==> s.objects[i].bytes != [])
  }

  lemma OpenValid(s: Obstack)
    requires Valid(s)
    ensures s.align > 0 && s.chunks != [] && s.base <= s.next <= Current(s).limit
  {
  }

  /** The bytes of the growing object. */
  function Growing(s: Obstack): (b: seq<Byte>)
    requires s.base <= s.next
  {
    Bytes(s.mem, s.base, s.next - s.base)
  }

  // ---------------------------------------------------------------------------
  // What the invariant means
  // ---------------------------------------------------------------------------

  /** Finished objects share no byte with each other, ... */
  lemma ObjectsAreDisjoint(s: Obstack, i: nat, j: nat)
    requires Valid(s) && i < j < |s.objects|
    ensures var o, p := s.objects[i], s.objects[j]; o.addr + |o.bytes| <= p.addr || p.addr + |p.bytes| <= o.addr
  {
    var o, p := s.objects[i], s.objects[j];
    assert ObjectOk(s, o) && ObjectOk(s, p) && Follows(o, p);
    StartIsInside(s.chunks[o.at], s.align);
    StartIsInside(s.chunks[p.at], s.align);
    if o.at < p.at {
      assert Apart(s.chunks[o.at], s.chunks[p.at]);
    }
  }

  lemma StartIsInside(c: Chunk, align: nat)
    requires align > 0
    ensures c.base + HEADER <= Start(c, align) < c.base + HEADER + align && Aligned(Start(c, align), align)
  {
    AlignUpOk(c.base + HEADER, align);
  }

  /** ... nor with the growing one, and they are aligned unless they are empty. */
  lemma ObjectIsPlaced(s: Obstack, i: nat)
    requires Valid(s) && i < |s.objects|
    ensures var o := s.objects[i];
            && (o.bytes != [] ==> Aligned(o.addr, s.align))
            && (o.addr + |o.bytes| <= s.base || s.next <= o.addr)
  {
    var o := s.objects[i];
    assert ObjectOk(s, o) && GrowsLast(s, o);
    StartIsInside(s.chunks[o.at], s.align);
    StartIsInside(Current(s), s.align);
    if o.at + 1 < |s.chunks| {
      assert Apart(s.chunks[o.at], Current(s));
    }
  }

  // ---------------------------------------------------------------------------
  // A new chunk
  // ---------------------------------------------------------------------------

  /** The size that _obstack_newchunk asks for. */
  function NewSize(s: Obstack, length: nat): (n: nat)
    requires s.align > 0 && s.base <= s.next
  {
    var obj := s.next - s.base;
    var n := obj + length + (s.align - 1) + obj / 8 + 100;
    if n < s.chunkSize then s.chunkSize else n
  }

  /** The allocator returns unused memory of that size and leaves the live chunks alone. */
  ghost predicate MallocOk(s: Obstack, c: Chunk, size: nat, mem: map<nat, Byte>)
  {
    && 0 < c.base && c.limit == c.base + size
    && forall i :: 0 <= i < |s.chunks| ==> Apart(s.chunks[i], c) && SameOn(s.mem, mem, s.chunks[i].base, s.chunks[i].limit)
  }

  /** The growing object is all that the current chunk holds. */
  predicate OnlyObject(s: Obstack)
    requires s.align > 0 && s.chunks != []
  {
    !s.maybeEmpty && s.base == Start(Current(s), s.align)
  }

  /** _obstack_newchunk, with the chunk `c` from the allocator and the memory after that. */
  function NewChunk(s: Obstack, c: Chunk, mem: map<nat, Byte>): (r: Obstack)
    requires s.align > 0 && s.base <= s.next && s.chunks != []
  {
    var obj, start := s.next - s.base, Start(c, s.align);
    s.(chunks := (if OnlyObject(s) then s.chunks[..|s.chunks| - 1] else s.chunks) + [c],
       base := start, next := start + obj, maybeEmpty := false,
       mem := Write(mem, start, Bytes(mem, s.base, obj)))
  }

  lemma NewChunkIs(s: Obstack, c: Chunk, mem: map<nat, Byte>)
    requires s.align > 0 && s.base <= s.next && s.chunks != []
    ensures var r, rest := NewChunk(s, c, mem), if OnlyObject(s) then s.chunks[..|s.chunks| - 1] else s.chunks;
            r == Obstack(s.align, s.chunkSize, rest + [c], Start(c, s.align), Start(c, s.align) + (s.next - s.base), false,
                         Write(mem, Start(c, s.align), Bytes(mem, s.base, s.next - s.base)), s.objects)
  {
  }

  /** The object that grows stands at the first aligned address behind the header of its chunk. */
  ghost predicate IsFirst(s: Obstack)
    requires s.chunks != []
  {
    IsNextMultiple(s.base, s.chunks[|s.chunks| - 1].base + 16, s.align)
  }

  /**
   What _obstack_newchunk does: a chunk at `address`, of the default size or as large as the object
   with `length` more bytes, an eighth of it and some slack; the old one leaves if nothing else is
   in it; the object begins at the first aligned address behind the header, and other bytes stay.
   */
  ghost predicate NewChunkEffect(s: Obstack, length: nat, address: nat, mem: map<nat, Byte>, r: Obstack)
    requires s.base <= s.next && s.chunks != []
  {
    var obj := s.next - s.base;
    var least := obj + length + s.align - 1 + obj / 8 + 100;
    && r.chunks == (if !s.maybeEmpty && IsFirst(s) then s.chunks[..|s.chunks| - 1] else s.chunks)
                   + [Chunk(address, address + if least < s.chunkSize then s.chunkSize else least)]
    && IsNextMultiple(r.base, address + 16, s.align) && r.next == r.base + obj && !r.maybeEmpty
    && SameOutside(mem, r.mem, r.base, r.next)
    && r.objects == s.objects && r.align == s.align && r.chunkSize == s.chunkSize
  }

  ghost predicate SameOutside(m: map<nat, Byte>, m': map<nat, Byte>, a: nat, b: nat)
  {
    forall x: nat :: !(a <= x < b) ==> Read(m, x) == Read(m', x)
  }

  lemma WriteOutside(mem: map<nat, Byte>, a: nat, s: seq<Byte>)
    ensures SameOutside(mem, Write(mem, a, s), a, a + |s|)
  {
    forall x: nat | !(a <= x < a + |s|) ensures Read(mem, x) == Read(Write(mem, a, s), x) {
      ReadWrite(mem, a, s, x);
    }
  }

  lemma FirstMeansStart(s: Obstack)
    requires s.align > 0 && s.chunks != []
    ensures OnlyObject(s) <==> !s.maybeEmpty && IsFirst(s)
  {
    var c := Current(s);
    StartIsInside(c, s.align);
    AlignUpOk(c.base + HEADER, s.align);
    if IsFirst(s) {
      SameMultiple(s.base, Start(c, s.align), c.base + HEADER, s.align);
    }
  }

  lemma SameMultiple(a: nat, b: nat, p: nat, align: nat)
    requires align > 0 && IsNextMultiple(a, p, align) && IsNextMultiple(b, p, align)
    ensures a == b
  {
    MultipleIs(a, align);
    MultipleIs(b, align);
    if a <= b {
      Between(a, a / align, b / align, align);
    } else {
      Between(b, b / align, a / align, align);
    }
  }

  lemma MultipleIs(a: nat, align: nat)
    requires align > 0 && a % align == 0
    ensures a == a / align * align
  {
  }

  lemma NewChunkHasEffect(s: Obstack, length: nat, address: nat, mem: map<nat, Byte>)
    requires s.align > 0 && s.base <= s.next && s.chunks != []
    ensures NewChunkEffect(s, length, address, mem, NewChunk(s, Chunk(address, address + NewSize(s, length)), mem))
  {
    var c := Chunk(address, address + NewSize(s, length));
    FirstMeansStart(s);
    AlignUpOk(c.base + HEADER, s.align);
    WriteOutside(mem, Start(c, s.align), Bytes(mem, s.base, s.next - s.base));
    hide Write, Bytes, AlignUp, SameOutside;
  }

  lemma NewChunkRoom(s: Obstack, c: Chunk, length: nat)
    requires s.align > 0 && s.base <= s.next && c.limit == c.base + NewSize(s, length)
    ensures PlaceOk(c, Start(c, s.align), s.align) && Start(c, s.align) + (s.next - s.base) + length <= c.limit
  {
    StartIsInside(c, s.align);
  }

  /** The old chunk is given back only if no finished object lies in it. */
  lemma OnlyObjectIsAlone(s: Obstack, i: nat)
    requires Valid(s) && OnlyObject(s) && i < |s.objects|
    ensures s.objects[i].at + 1 < |s.chunks|
  {
    assert ObjectOk(s, s.objects[i]) && GrowsLast(s, s.objects[i]);
  }

  lemma NewChunkChunks(s: Obstack, c: Chunk, length: nat, mem: map<nat, Byte>)
    requires Valid(s) && MallocOk(s, c, NewSize(s, length), mem)
    ensures ChunksOk(NewChunk(s, c, mem).chunks, s.align)
  {
    NewChunkRoom(s, c, length);
    var r := NewChunk(s, c, mem).chunks;
    forall i, j | 0 <= i < j < |r| ensures Apart(r[i], r[j]) {
      assert r[i] == s.chunks[i];
      assert j < |r| - 1 ==> r[j] == s.chunks[j];
    }
    forall i | 0 <= i < |r| ensures 0 < r[i].base && Start(r[i], s.align) <= r[i].limit {
      assert i < |r| - 1 ==> r[i] == s.chunks[i];
    }
  }

  lemma NewChunkObject(s: Obstack, c: Chunk, length: nat, mem: map<nat, Byte>, i: nat)
    requires Valid(s) && MallocOk(s, c, NewSize(s, length), mem) && i < |s.objects|
    ensures var r, o := NewChunk(s, c, mem), s.objects[i]; ObjectOk(r, o) && o.at + 1 < |r.chunks|
  {
    var r, o := NewChunk(s, c, mem), s.objects[i];
    assert ObjectOk(s, o);
    if OnlyObject(s) {
      OnlyObjectIsAlone(s, i);
    }
    var d := s.chunks[o.at];
    assert Apart(d, c) && SameOn(s.mem, mem, d.base, d.limit);
    StartIsInside(d, s.align);
    NewChunkRoom(s, c, length);
    var bytes := Bytes(mem, s.base, s.next - s.base);
    StartIsInside(c, s.align);
    WriteElsewhere(mem, Start(c, s.align), bytes, o.addr, o.addr + |o.bytes|);
    assert SameOn(s.mem, r.mem, o.addr, o.addr + |o.bytes|);
    SameBytes(s.mem, r.mem, o.addr, |o.bytes|);
    assert r.chunks[o.at] == d;
  }

  /** _obstack_newchunk moves the growing object with all its bytes, and leaves the finished ones where they are. */
  lemma NewChunkOk(s: Obstack, c: Chunk, length: nat, mem: map<nat, Byte>)
    requires Valid(s) && MallocOk(s, c, NewSize(s, length), mem)
    ensures var r := NewChunk(s, c, mem);
            && Valid(r) && Growing(r) == Growing(s) && r.objects == s.objects
            && r.next + length <= Current(r).limit && Aligned(r.base, r.align)
  {
    var r := NewChunk(s, c, mem);
    NewChunkRoom(s, c, length);
    NewChunkChunks(s, c, length, mem);
    StartIsInside(c, s.align);
    forall i | 0 <= i < |s.objects| ensures ObjectOk(r, s.objects[i]) && s.objects[i].at + 1 < |r.chunks| {
      NewChunkObject(s, c, length, mem, i);
    }
    var obj, start := s.next - s.base, Start(c, s.align);
    WrittenBytes(mem, start, Bytes(mem, s.base, obj));
    StartIsInside(Current(s), s.align);
    assert SameOn(s.mem, mem, s.base, s.base + obj) by {
      assert SameOn(s.mem, mem, Current(s).base, Current(s).limit);
    }
    SameBytes(s.mem, mem, s.base, obj);
  }

  // ---------------------------------------------------------------------------
  // Growing and finishing
  // ---------------------------------------------------------------------------

  function Room(s: Obstack): (n: int)
    requires s.chunks != []
  {
    Current(s).limit - s.next
  }

  /** obstack_grow when there is room. */
  function Grown(s: Obstack, bytes: seq<Byte>): (r: Obstack)
  {
    s.(next := s.next + |bytes|, mem := Write(s.mem, s.next, bytes))
  }

  lemma GrownOk(s: Obstack, bytes: seq<Byte>)
    requires Valid(s) && |bytes| <= Room(s)
    ensures var r := Grown(s, bytes); Valid(r) && Growing(r) == Growing(s) + bytes && r.objects == s.objects
  {
    GrownValid(s, bytes);
    GrownBytes(s, bytes);
  }

  lemma GrownValid(s: Obstack, bytes: seq<Byte>)
    requires Valid(s) && |bytes| <= Room(s)
    ensures Valid(Grown(s, bytes))
  {
    var r := Grown(s, bytes);
    forall i | 0 <= i < |s.objects| ensures ObjectOk(r, s.objects[i]) && GrowsLast(r, s.objects[i]) {
      GrownObject(s, bytes, i);
    }
    hide Write, ObjectOk, GrowsLast;
  }

  lemma GrownBytes(s: Obstack, bytes: seq<Byte>)
    requires s.base <= s.next
    ensures Growing(Grown(s, bytes)) == Growing(s) + bytes
  {
    hide Write;
    var r := Grown(s, bytes);
    WriteElsewhere(s.mem, s.next, bytes, s.base, s.next);
    SameBytes(s.mem, r.mem, s.base, s.next - s.base);
    WrittenBytes(s.mem, s.next, bytes);
    JoinedBytes(r.mem, s.base, s.next - s.base, |bytes|);
  }

  lemma GrownObject(s: Obstack, bytes: seq<Byte>, i: nat)
    requires Valid(s) && |bytes| <= Room(s) && i < |s.objects|
    ensures ObjectOk(Grown(s, bytes), s.objects[i]) && GrowsLast(Grown(s, bytes), s.objects[i])
  {
    var o, r := s.objects[i], Grown(s, bytes);
    assert ObjectOk(s, o) && GrowsLast(s, o);
    StartIsInside(s.chunks[o.at], s.align);
    StartIsInside(Current(s), s.align);
    if o.at + 1 < |s.chunks| {
      assert Apart(s.chunks[o.at], Current(s));
    }
    WriteElsewhere(s.mem, s.next, bytes, o.addr, o.addr + |o.bytes|);
    SameBytes(s.mem, r.mem, o.addr, |o.bytes|);
  }

  /** obstack_finish: the growing object becomes a finished one, and an empty one starts after it. */
  function Finished(s: Obstack): (r: Obstack)
    requires s.align > 0 && s.chunks != [] && s.base <= s.next
  {
    var up := AlignUp(s.next, s.align);
    var next := if up > Current(s).limit then Current(s).limit else up;
    s.(maybeEmpty := s.maybeEmpty || s.next == s.base, base := next, next := next,
       objects := s.objects + [Object(s.base, Growing(s), |s.chunks| - 1)])
  }

  /** The next object begins at the least aligned address, or at the end of the chunk if that lies beyond. */
  ghost predicate BeginsAfter(next: nat, was: nat, align: nat, limit: nat)
  {
    exists a: nat :: IsNextMultiple(a, was, align) && next == if a <= limit then a else limit
  }

  /** What obstack_finish does. */
  ghost predicate FinishEffect(s: Obstack, r: Obstack)
    requires s.chunks != [] && s.base <= s.next
  {
    && r.base == r.next && BeginsAfter(r.next, s.next, s.align, s.chunks[|s.chunks| - 1].limit)
    && r.maybeEmpty == (s.maybeEmpty || s.next == s.base)
    && r.chunks == s.chunks && r.mem == s.mem && r.align == s.align && r.chunkSize == s.chunkSize
    && r.objects == s.objects + [Object(s.base, Growing(s), |s.chunks| - 1)]
  }

  /** Room for `n` more bytes: without it, and only then, the object moves to a new chunk. */
  ghost predicate RoomEffect(s: Obstack, n: nat, address: nat, mem: map<nat, Byte>, r: Obstack)
    requires s.chunks != [] && s.base <= s.next
  {
    if n <= s.chunks[|s.chunks| - 1].limit - s.next then r == s else NewChunkEffect(s, n, address, mem, r)
  }

  /** Then the object is longer by `n` bytes, and other bytes stay. */
  ghost predicate GrowEffect(s: Obstack, n: nat, address: nat, mem: map<nat, Byte>, r: Obstack)
    requires s.chunks != [] && s.base <= s.next
  {
    exists m :: RoomEffect(s, n, address, mem, m) && LongerBy(m, n, r)
  }

  ghost predicate LongerBy(s: Obstack, n: nat, r: Obstack)
  {
    r == s.(next := s.next + n, mem := r.mem) && SameOutside(s.mem, r.mem, s.next, s.next + n)
  }

  lemma GrownIsLonger(s: Obstack, bytes: seq<Byte>)
    ensures LongerBy(s, |bytes|, Grown(s, bytes))
  {
    WriteOutside(s.mem, s.next, bytes);
  }

  lemma BlankedIsLonger(s: Obstack, n: nat)
    ensures LongerBy(s, n, Blanked(s, n)) && Blanked(s, n).mem == s.mem
  {
  }

  lemma FinishedOk(s: Obstack)
    requires Valid(s)
    ensures var r := Finished(s);
            && Valid(r) && Growing(r) == [] && |r.objects| == |s.objects| + 1 && r.objects[..|s.objects|] == s.objects
            && r.objects[|s.objects|].addr == s.base && r.objects[|s.objects|].bytes == Growing(s)
            && FinishEffect(s, r)
  {
    FinishedObjects(s);
    AlignUpOk(s.next, s.align);
    hide ObjectsOk, AlignUp, IsNextMultiple;
  }

  lemma FinishedObjects(s: Obstack)
    requires Valid(s)
    ensures ObjectsOk(Finished(s))
  {
    var r, o := Finished(s), Object(s.base, Growing(s), |s.chunks| - 1);
    AlignUpOk(s.next, s.align);
    hide AlignUp, Bytes;
    assert ObjectOk(r, o) && GrowsLast(r, o);
    forall i | 0 <= i < |r.objects| ensures ObjectOk(r, r.objects[i]) && GrowsLast(r, r.objects[i]) {
      if i < |s.objects| {
        assert ObjectOk(s, s.objects[i]) && GrowsLast(s, s.objects[i]);
      }
    }
    forall i, j | 0 <= i < j < |r.objects| ensures Follows(r.objects[i], r.objects[j]) {
      if j == |s.objects| {
        assert ObjectOk(s, s.objects[i]) && GrowsLast(s, s.objects[i]);
      }
    }
  }

  /** obstack_blank when there is room: the new bytes are whatever is there. */
  function Blanked(s: Obstack, n: nat): (r: Obstack)
  {
    s.(next := s.next + n)
  }

  lemma BlankedOk(s: Obstack, n: nat)
    requires Valid(s) && n <= Room(s)
    ensures var r := Blanked(s, n);
            && Valid(r) && r.objects == s.objects && |Growing(r)| == |Growing(s)| + n && Growing(r)[..|Growing(s)|] == Growing(s)
  {
    var r := Blanked(s, n);
    forall i | 0 <= i < |r.objects| ensures ObjectOk(r, r.objects[i]) && GrowsLast(r, r.objects[i]) {
      assert ObjectOk(s, s.objects[i]) && GrowsLast(s, s.objects[i]);
    }
    JoinedBytes(s.mem, s.base, s.next - s.base, n);
  }

  // ---------------------------------------------------------------------------
  // Freeing
  // ---------------------------------------------------------------------------

  /** The test by which _obstack_free passes over a chunk. */
  predicate Passes(c: Chunk, a: nat)
  {
    c.base >= a || c.limit < a
  }

  /** All chunks newer than the one of an object are passed over, and that one is not. */
  lemma SearchFindsChunk(s: Obstack, k: nat, i: nat)
    requires Valid(s) && k < |s.objects| && s.objects[k].at <= i < |s.chunks|
    ensures Passes(s.chunks[i], s.objects[k].addr) <==> i > s.objects[k].at
  {
    var o := s.objects[k];
    assert ObjectOk(s, o);
    StartIsInside(s.chunks[o.at], s.align);
    if i > o.at {
      assert Apart(s.chunks[o.at], s.chunks[i]);
    }
  }

  /** The test of the obstack_free macro holds only for objects of the current chunk. */
  lemma QuickTestIsRight(s: Obstack, k: nat)
    requires Valid(s) && k < |s.objects| && Current(s).base < s.objects[k].addr < Current(s).limit
    ensures s.objects[k].at == |s.chunks| - 1
  {
    assert ObjectOk(s, s.objects[k]);
    SearchFindsChunk(s, k, |s.chunks| - 1);
  }

  /** The object `k` and everything newer is gone; an empty object grows in its place. */
  function FreedFrom(s: Obstack, k: nat): (r: Obstack)
    requires k < |s.objects| && s.objects[k].at < |s.chunks|
  {
    var o := s.objects[k];
    s.(chunks := s.chunks[..o.at + 1], base := o.addr, next := o.addr,
       maybeEmpty := s.maybeEmpty || o.at + 1 < |s.chunks|, objects := s.objects[..k])
  }

  /** What obstack_free does: chunks newer than the one of the object leave, and an object grows again at its address. */
  ghost predicate FreeEffect(s: Obstack, k: nat, r: Obstack)
    requires k < |s.objects|
  {
    var o := s.objects[k];
    && o.at < |s.chunks| && r.chunks == s.chunks[..o.at + 1] && r.base == o.addr == r.next
    && r.maybeEmpty == (s.maybeEmpty || o.at < |s.chunks| - 1)
    && r.objects == s.objects[..k] && r.mem == s.mem && r.align == s.align && r.chunkSize == s.chunkSize
  }

  lemma FreedFromOk(s: Obstack, k: nat)
    requires Valid(s) && k < |s.objects|
    ensures s.objects[k].at < |s.chunks|
    ensures Valid(FreedFrom(s, k)) && Growing(FreedFrom(s, k)) == []
    ensures FreeEffect(s, k, FreedFrom(s, k))
  {
    var o := s.objects[k];
    assert ObjectOk(s, o);
    var r := FreedFrom(s, k);
    assert ChunksOk(r.chunks, r.align) by {
      forall i, j | 0 <= i < j < |r.chunks| ensures Apart(r.chunks[i], r.chunks[j]) {
        assert r.chunks[i] == s.chunks[i] && r.chunks[j] == s.chunks[j];
      }
    }
    assert Current(r) == s.chunks[o.at];
    forall i | 0 <= i < |r.objects| ensures ObjectOk(r, r.objects[i]) && GrowsLast(r, r.objects[i]) {
      assert ObjectOk(s, s.objects[i]) && Follows(s.objects[i], s.objects[k]);
    }
  }

  /** _obstack_begin: one chunk without objects. */
  function Begun(align: nat, chunkSize: nat, c: Chunk, mem: map<nat, Byte>): (r: Obstack)
    requires align > 0
  {
    Obstack(align, chunkSize, [c], Start(c, align), Start(c, align), false, mem, [])
  }

  /** The first chunk is usable exactly if it holds its header; a size without room for that is not refused. */
  lemma BegunOk(align: nat, chunkSize: nat, c: Chunk, mem: map<nat, Byte>)
    requires align > 0 && 0 < c.base && c.limit == c.base + chunkSize
    ensures Valid(Begun(align, chunkSize, c, mem)) <==> Start(c, align) <= c.limit
    ensures HEADER + align - 1 <= chunkSize ==> Start(c, align) <= c.limit
    ensures var r := Begun(align, chunkSize, c, mem);
            && r.chunks == [c] && r.base == r.next && IsNextMultiple(r.base, c.base + 16, align)
            && !r.maybeEmpty && r.objects == [] && r.mem == mem && r.align == align && r.chunkSize == chunkSize
    ensures Growing(Begun(align, chunkSize, c, mem)) == []
  {
    StartIsInside(c, align);
    AlignUpOk(c.base + HEADER, align);
  }
}
