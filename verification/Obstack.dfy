/** The obstack object and its operations: grow, blank, finish and free. */
module Obstack {
  import opened Common
  import opened ObstackState

  /** Every chunk obtained is in use or was given back, once. */
  ghost predicate Balanced(obtained: multiset<Chunk>, chunks: seq<Chunk>, freed: seq<Chunk>)
  {
    obtained == multiset(chunks) + multiset(freed)
  }

  lemma GiveBack(obtained: multiset<Chunk>, chunks: seq<Chunk>, freed: seq<Chunk>)
    requires chunks != [] && Balanced(obtained, chunks, freed)
    ensures Balanced(obtained, chunks[..|chunks| - 1], freed + [chunks[|chunks| - 1]])
  {
    var last, rest := chunks[|chunks| - 1], chunks[..|chunks| - 1];
    assert chunks == rest + [last];
  }

  lemma TakeOver(obtained: multiset<Chunk>, chunks: seq<Chunk>, freed: seq<Chunk>, c: Chunk)
    requires Balanced(obtained, chunks, freed)
    ensures Balanced(obtained + multiset{c}, chunks + [c], freed)
  {
  }

  class ObstackHead {
    const align: nat
    const chunkSize: nat
    var chunks: seq<Chunk>
    var base: nat
    var next: nat
    var limit: nat
    var maybeEmpty: bool
    var mem: map<nat, Byte>
    /** Chunks given back to the allocator, in order. */
    var freed: seq<Chunk>
    ghost var objects: seq<Object>
    /** Chunks obtained from the allocator. */
    ghost var obtained: multiset<Chunk>

    ghost function State(): (s: ObstackState.Obstack)
      reads this
    {
      ObstackState.Obstack(align, chunkSize, chunks, base, next, maybeEmpty, mem, objects)
    }

    /** The obstack is valid, and every chunk obtained is in use or was given back once. */
    ghost predicate Ok()
      reads this
    {
      && Valid(State()) && limit == Current(State()).limit
      && Balanced(obtained, chunks, freed)
    }

    /** The bytes of the growing object. */
    ghost function Building(): (b: seq<Byte>)
      requires Ok()
      reads this
    {
      Growing(State())
    }

    /** _obstack_begin; the chunk size must leave room for the header and the alignment. */
    constructor (alignment: nat, size: nat, address: nat, memory: map<nat, Byte>)
      requires address > 0
      requires (if size == 0 then 4064 else size) >= HEADER + (if alignment == 0 then 16 else alignment) - 1
      ensures Ok() && objects == [] && Building() == []
      ensures align == (if alignment == 0 then 16 else alignment) && chunkSize == if size == 0 then 4064 else size
      ensures chunks == [Chunk(address, address + chunkSize)] && freed == [] && mem == memory && !maybeEmpty
      ensures base == next && IsNextMultiple(base, address + 16, align) && limit == address + chunkSize
    {
      align, chunkSize := if alignment == 0 then 16 else alignment, if size == 0 then 4064 else size;
      var c := Chunk(address, address + if size == 0 then 4064 else size);
      var start := Start(c, if alignment == 0 then 16 else alignment);
      chunks, base, next, limit, maybeEmpty, mem, freed := [c], start, start, c.limit, false, memory, [];
      objects, obtained := [], multiset{c};
      new;
      BegunOk(align, chunkSize, c, memory);
      assert State() == Begun(align, chunkSize, c, memory);
    }

    /** _obstack_newchunk; `address` and `memory` are what the allocator returns and leaves behind. */
    method AddChunk(length: nat, address: nat, memory: map<nat, Byte>)
      requires Ok() && MallocOk(State(), Chunk(address, address + NewSize(State(), length)), NewSize(State(), length), memory)
      modifies this
      ensures Ok() && Building() == old(Building()) && objects == old(objects) && next + length <= limit
      ensures NewChunkEffect(old(State()), length, address, memory, State())
      ensures freed == old(freed) + if |chunks| == |old(chunks)| then [old(chunks)[|old(chunks)| - 1]] else []
    {
      hide Valid, MallocOk, Write, Bytes, Start, Balanced, NewChunk, Growing, NewChunkEffect;
      ghost var s := State();
      OpenValid(s);
      NewChunkHasEffect(s, length, address, memory);
      var obj := next - base;
      var size := obj + length + (align - 1) + obj / 8 + 100;
      if size < chunkSize {
        size := chunkSize;
      }
      var c := Chunk(address, address + size);
      ghost var r := NewChunk(s, c, memory);
      NewChunkOk(s, c, length, memory);
      NewChunkIs(s, c, memory);
      var last := |chunks| - 1;
      var drop := !maybeEmpty && base == Start(chunks[last], align);
      Replace(c, drop);
      var start := Start(c, align);
      mem := Write(memory, start, Bytes(memory, base, obj));
      base, next, maybeEmpty := start, start + obj, false;
      assert State() == r;
    }

    /** The new chunk becomes the current one; the old one may leave. */
    method Replace(c: Chunk, drop: bool)
      requires chunks != [] && Balanced(obtained, chunks, freed)
      modifies this`chunks, this`freed, this`obtained, this`limit
      ensures chunks == (if drop then old(chunks)[..|old(chunks)| - 1] else old(chunks)) + [c]
      ensures limit == c.limit && Balanced(obtained, chunks, freed)
      ensures freed == old(freed) + if drop then [old(chunks)[|old(chunks)| - 1]] else []
    {
      hide Balanced;
      var last := |chunks| - 1;
      if drop {
        GiveBack(obtained, chunks, freed);
        freed := freed + [chunks[last]];
        chunks := chunks[..last];
      }
      TakeOver(obtained, chunks, freed, c);
      chunks := chunks + [c];
      obtained := obtained + multiset{c};
      limit := c.limit;
    }

    /** What the allocator must return if there is no room for `length` more bytes. */
    ghost predicate CanGrow(length: nat, address: nat, memory: map<nat, Byte>)
      requires Ok()
      reads this
    {
      limit - next < length ==>
        MallocOk(State(), Chunk(address, address + NewSize(State(), length)), NewSize(State(), length), memory)
    }

    /** Chunks are given back one at a time: the current one, or none. */
    ghost predicate GivenBack(was: seq<Chunk>, wasFreed: seq<Chunk>, length: nat, room: int)
      reads this
    {
      freed == wasFreed + if was != [] && length > room && |chunks| == |was| then [was[|was| - 1]] else []
    }

    /** obstack_make_room. */
    method MakeRoom(length: nat, address: nat, memory: map<nat, Byte>)
      requires Ok() && CanGrow(length, address, memory)
      modifies this
      ensures Ok() && Building() == old(Building()) && objects == old(objects) && next + length <= limit
      ensures RoomEffect(old(State()), length, address, memory, State())
      ensures GivenBack(old(chunks), old(freed), length, old(limit - next))
    {
      hide NewChunkEffect, Growing;
      OpenValid(State());
      hide Valid;
      if limit - next < length {
        AddChunk(length, address, memory);
      }
    }

    /** obstack_grow: the bytes are appended to the growing object, wherever it then lies. */
    method Grow(bytes: seq<Byte>, address: nat, memory: map<nat, Byte>)
      requires Ok() && CanGrow(|bytes|, address, memory)
      modifies this
      ensures Ok() && Building() == old(Building()) + bytes && objects == old(objects)
      ensures GrowEffect(old(State()), |bytes|, address, memory, State())
      ensures GivenBack(old(chunks), old(freed), |bytes|, old(limit - next))
    {
      hide RoomEffect, LongerBy, Growing;
      MakeRoom(|bytes|, address, memory);
      ghost var s := State();
      GrownOk(s, bytes);
      GrownIsLonger(s, bytes);
      hide Valid, Write;
      mem := Write(mem, next, bytes);
      next := next + |bytes|;
      assert State() == Grown(s, bytes);
    }

    /** obstack_blank: the growing object becomes longer and keeps what it has. */
    method Blank(length: nat, address: nat, memory: map<nat, Byte>)
      requires Ok() && CanGrow(length, address, memory)
      modifies this
      ensures Ok() && |Building()| == |old(Building())| + length && Building()[..|old(Building())|] == old(Building())
      ensures objects == old(objects) && GrowEffect(old(State()), length, address, memory, State())
      ensures GivenBack(old(chunks), old(freed), length, old(limit - next))
    {
      hide RoomEffect, LongerBy, Growing;
      MakeRoom(length, address, memory);
      ghost var s := State();
      BlankedOk(s, length);
      BlankedIsLonger(s, length);
      hide Valid;
      next := next + length;
      assert State() == Blanked(s, length);
    }

    /** obstack_finish: the growing object keeps its address and bytes from now on. */
    method Finish() returns (value: nat)
      requires Ok()
      modifies this
      ensures Ok() && Building() == []
      ensures |objects| == |old(objects)| + 1 && objects[..|old(objects)|] == old(objects)
      ensures objects[|old(objects)|].addr == value && objects[|old(objects)|].bytes == old(Building())
      ensures value == old(base) && FinishEffect(old(State()), State()) && limit == old(limit) && freed == old(freed)
    {
      ghost var s := State();
      FinishedOk(s);
      value := base;
      if next == value {
        maybeEmpty := true;
      }
      next := AlignUp(next, align);
      if next > limit {
        next := limit;
      }
      base := next;
      objects := objects + [Object(value, Growing(s), |chunks| - 1)];
      assert State() == Finished(s);
    }

    /** obstack_free on the finished object `k`: exactly it and everything newer is gone. */
    method Free(address: nat, ghost k: nat)
      requires Ok() && k < |objects| && objects[k].addr == address
      modifies this
      ensures Ok() && Building() == [] && base == address && objects == old(objects)[..k] && mem == old(mem)
      ensures FreeEffect(old(State()), k, State())
    {
      hide Valid, Balanced;
      ghost var s := State();
      OpenValid(s);
      FreedFromOk(s, k);
      if chunks[|chunks| - 1].base < address < limit {
        QuickTestIsRight(s, k);
        base, next := address, address;
        objects := objects[..k];
        assert chunks == chunks[..|chunks|];
      } else {
        FreeChunks(address, k);
        limit := chunks[|chunks| - 1].limit;
        base, next := address, address;
        objects := objects[..k];
      }
      assert State() == FreedFrom(s, k);
    }

    /** The loop of _obstack_free: whole chunks are given back until the one of the object; the abort is not reached. */
    method FreeChunks(address: nat, ghost k: nat)
      requires Ok() && k < |objects| && objects[k].addr == address
      modifies this`chunks, this`freed, this`maybeEmpty
      ensures objects[k].at < |old(chunks)| && chunks == old(chunks)[..objects[k].at + 1]
      ensures maybeEmpty == (old(maybeEmpty) || |chunks| < |old(chunks)|) && Balanced(obtained, chunks, freed)
    {
      hide Valid, Balanced, Passes;
      ghost var s, at := State(), objects[k].at;
      FreedFromOk(s, k);
      OpenValid(s);
      SearchFindsChunk(s, k, |chunks| - 1);
      while Passes(chunks[|chunks| - 1], address)
        invariant at < |chunks| <= |s.chunks| && chunks == s.chunks[..|chunks|]
        invariant Passes(chunks[|chunks| - 1], address) <==> |chunks| - 1 > at
        invariant maybeEmpty == (s.maybeEmpty || |chunks| < |s.chunks|) && Balanced(obtained, chunks, freed)
        decreases |chunks|
      {
        PopChunk();
        maybeEmpty := true;
        SearchFindsChunk(s, k, |chunks| - 1);
      }
    }

    /** The newest chunk is given back. */
    method PopChunk()
      requires chunks != [] && Balanced(obtained, chunks, freed)
      modifies this`chunks, this`freed
      ensures chunks == old(chunks)[..|old(chunks)| - 1] && Balanced(obtained, chunks, freed)
    {
      hide Balanced;
      var last := |chunks| - 1;
      GiveBack(obtained, chunks, freed);
      freed := freed + [chunks[last]];
      chunks := chunks[..last];
    }
  }
}
