/** `MemoryPoolAllocator`: blocks carved out of a list of chunks, the first of which serves
    every request. */
module Allocator {
  import opened Common

  /** `RAPIDJSON_ALIGN`: the next multiple of eight. */
  function Align(size: nat): (r: nat)
    ensures size <= r < size + 8 && r % 8 == 0
  {
    (size + 7) / 8 * 8
  }

  /** A chunk: its header's `size` and the bytes behind the header. */
  class Chunk {
    const bytes: array<Byte>
    var size: nat

    constructor (capacity: nat)
      ensures fresh(bytes) && bytes.Length == capacity && size == 0
    {
      bytes := new Byte[capacity](_ => 0);
      size := 0;
    }
  }

  /** Memory a caller holds. */
  datatype Block = Block(chunk: Chunk, offset: nat, size: nat)

  predicate Apart(a: Block, b: Block) {
    a.chunk == b.chunk ==> a.offset + a.size <= b.offset || b.offset + b.size <= a.offset
  }

  function SizeOf(chunks: seq<Chunk>): nat
    reads chunks
  {
    if chunks == [] then 0 else chunks[0].size + SizeOf(chunks[1..])
  }

  function CapacityOf(chunks: seq<Chunk>): nat {
    if chunks == [] then 0 else chunks[0].bytes.Length + CapacityOf(chunks[1..])
  }

  lemma {:induction false} SizeWithinCapacity(chunks: seq<Chunk>)
    requires forall c <- chunks :: c.size <= c.bytes.Length
    ensures SizeOf(chunks) <= CapacityOf(chunks)
  {
    if chunks != [] { SizeWithinCapacity(chunks[1..]); }
  }

  class MemoryPoolAllocator {
    const chunk_capacity_: nat
    /** The chunk list from the head on; the last chunk came with the allocator. */
    var chunks: seq<Chunk>
    /** The blocks callers hold. */
    ghost var live: set<Block>

    ghost function Memory(): set<object>
      reads this
    {
      (set c: Chunk | c in chunks :: c as object) + (set c: Chunk | c in chunks :: c.bytes as object)
    }

    /** The used part of every chunk is within it and a whole number of words. */
    ghost predicate ChunksFit()
      reads this, chunks
    {
      && chunks != []
      && (forall i, j | 0 <= i < j < |chunks| :: chunks[i] != chunks[j] && chunks[i].bytes != chunks[j].bytes)
      && (forall c <- chunks :: c.size <= c.bytes.Length && c.size % 8 == 0)
    }

    /** Blocks are aligned, inside the used part of their chunk, and pairwise disjoint. */
    ghost predicate Valid()
      reads this, chunks
    {
      && ChunksFit()
      && (forall b <- live :: b.chunk in chunks && b.offset % 8 == 0 && b.size > 0 && b.offset + b.size <= b.chunk.size)
      && (forall a <- live, b <- live :: a != b ==> Apart(a, b))
    }

    /** What a block holds. */
    ghost function Content(b: Block): seq<Byte>
      requires b.offset + b.size <= b.chunk.bytes.Length
      reads b.chunk.bytes
    {
      b.chunk.bytes[b.offset..b.offset + b.size]
    }

    constructor (chunkSize: nat, buffer: nat)
      ensures Valid() && fresh(Memory()) && live == {} && |chunks| == 1 && chunks[0].bytes.Length == buffer
    {
      chunk_capacity_ := chunkSize;
      var first := new Chunk(buffer);
      chunks, live := [first], {};
    }

    method Size() returns (size: nat)
      requires Valid()
      ensures size == SizeOf(chunks)
    {
      size := 0;
      var i := 0;
      assert chunks[0..] == chunks;
      while i < |chunks|
        invariant 0 <= i <= |chunks| && size + SizeOf(chunks[i..]) == SizeOf(chunks)
      {
        assert chunks[i..][0] == chunks[i] && chunks[i..][1..] == chunks[i + 1..];
        size := size + chunks[i].size;
        i := i + 1;
      }
    }

    method Capacity() returns (capacity: nat)
      requires Valid()
      ensures capacity == CapacityOf(chunks) && SizeOf(chunks) <= capacity
    {
      capacity := 0;
      var i := 0;
      assert chunks[0..] == chunks;
      while i < |chunks|
        invariant 0 <= i <= |chunks| && capacity + CapacityOf(chunks[i..]) == CapacityOf(chunks)
      {
        assert chunks[i..][0] == chunks[i] && chunks[i..][1..] == chunks[i + 1..];
        capacity := capacity + chunks[i].bytes.Length;
        i := i + 1;
      }
      SizeWithinCapacity(chunks);
    }

    /** A new head chunk, when the base allocator grants one. */
    method AddChunk(capacity: nat, granted: bool) returns (ok: bool)
      requires Valid()
      modifies this`chunks
      ensures Valid() && ok == granted && live == old(live)
      ensures !ok ==> chunks == old(chunks)
      ensures ok ==>
        |chunks| > 1 && chunks[1..] == old(chunks) && fresh(chunks[0]) && fresh(chunks[0].bytes)
        && chunks[0].size == 0 && chunks[0].bytes.Length == capacity
    {
      ok := granted;
      if granted {
        var chunk := new Chunk(capacity);
        chunks := [chunk] + chunks;
      }
    }

    /** `Malloc`: a block of `size` bytes, rounded up to words, that no live block touches;
        nothing for a size of zero, or when a chunk is needed and not granted. */
    method Malloc(size: nat, granted: bool) returns (p: Option<Block>)
      requires Valid()
      modifies this, chunks
      ensures Valid()
      ensures p.None? <==> size == 0 || (!granted && old(chunks[0].size) + Align(size) > old(chunks[0]).bytes.Length)
      ensures p.None? ==> live == old(live)
      ensures p.Some? ==>
        size > 0 && p.value !in old(live) && live == old(live) + {p.value} && p.value.size == Align(size)
      ensures chunks == old(chunks) || (|chunks| > 1 && chunks[1..] == old(chunks) && fresh(chunks[0]) && fresh(chunks[0].bytes))
    {
      if size == 0 { return None; }
      var aligned := Align(size);
      var head := chunks[0];
      if head.size + aligned > head.bytes.Length {
        var ok := AddChunk(if chunk_capacity_ > aligned then chunk_capacity_ else aligned, granted);
        if !ok { return None; }
        head := chunks[0];
      }
      var block := Block(head, head.size, aligned);
      head.size := head.size + aligned;
      live := live + {block};
      p := Some(block);
    }

    /** A block that already has room stays where it is. */
    method Keep(block: Block, newSize: nat)
      requires Valid() && block in live && newSize % 8 == 0 && 0 < newSize <= block.size
      modifies this`live
      ensures Valid() && live == old(live) - {block} + {Block(block.chunk, block.offset, newSize)}
      ensures Content(Block(block.chunk, block.offset, newSize)) == Content(block)[..newSize]
    {
      live := live - {block} + {Block(block.chunk, block.offset, newSize)};
      SameStart(block.chunk.bytes[..], block.offset, newSize, block.size);
    }

    /** Growing the last block of the head chunk where it is, if there is room. */
    method Grow(block: Block, newSize: nat) returns (grown: bool)
      requires Valid() && block in live && newSize % 8 == 0 && newSize > block.size
      modifies this`live, chunks
      ensures Valid() && chunks == old(chunks)
      ensures grown ==> live == old(live) - {block} + {Block(block.chunk, block.offset, newSize)}
      ensures !grown ==> live == old(live) && forall c <- chunks :: c.size == old(c.size)
    {
      grown := false;
      var head := chunks[0];
      if block.chunk == head && block.offset == head.size - block.size {
        var increment := newSize - block.size;
        if head.size + increment <= head.bytes.Length {
          head.size := head.size + increment;
          live := live - {block} + {Block(block.chunk, block.offset, newSize)};
          grown := true;
        }
      }
    }

    /** `memcpy` into a block no other live block touches. */
    method Copy(from: Block, to: Block)
      requires Valid() && from in live && to in live && from != to && from.size <= to.size
      modifies to.chunk.bytes
      ensures Valid() && Content(to)[..from.size] == old(Content(from))
      ensures forall b <- live :: b != to ==> Content(b) == old(Content(b))
    {
      var source := from.chunk.bytes[from.offset..from.offset + from.size];
      var bytes := to.chunk.bytes;
      forall i | to.offset <= i < to.offset + from.size { bytes[i] := source[i - to.offset]; }
      assert bytes[to.offset..to.offset + from.size] == source;
      SameStart(bytes[..], to.offset, from.size, to.size);
      assert bytes[..][to.offset..to.offset + to.size] == Content(to);
      forall b <- live | b != to
        ensures Content(b) == old(Content(b))
      {
        assert Apart(b, to);
      }
    }

    /** `Realloc` of a live block of `originalSize` bytes, or of nothing. A block keeps its
        first bytes, whether it stays, grows where it is, or moves; every other block keeps
        all of them. A size of zero gives the block up. */
    method Realloc(original: Option<Block>, originalSize: nat, newSize: nat, granted: bool) returns (p: Option<Block>)
      requires Valid()
      requires original.Some? ==> original.value in live && Align(originalSize) == original.value.size
      modifies this, chunks, set c: Chunk | c in chunks :: c.bytes
      ensures Valid()
      ensures original.Some? && newSize == 0 ==> p.None? && live == old(live) - {original.value}
      ensures newSize > 0 && p.None? ==> live == old(live)
      ensures p.Some? ==> newSize > 0 && p.value.size == Align(newSize) && p.value in live
      ensures p.Some? ==> live == (if original.Some? then old(live) - {original.value} else old(live)) + {p.value}
      ensures original.Some? && p.Some? ==>
        var n := if original.value.size < p.value.size then original.value.size else p.value.size;
        Content(p.value)[..n] == old(Content(original.value))[..n]
      ensures forall b <- old(live) :: original != Some(b) ==> b in live && Content(b) == old(Content(b))
    {
      if original.None? {
        p := Malloc(newSize, granted);
        return;
      }
      if newSize == 0 {
        live := live - {original.value};
        return None;
      }
      hide ChunksFit;
      p := Resize(original.value, newSize, granted);
    }

    /** `Realloc` of a live block to a size that is not zero. */
    method Resize(block: Block, newSize: nat, granted: bool) returns (p: Option<Block>)
      requires Valid() && block in live && newSize > 0
      modifies this, chunks, set c: Chunk | c in chunks :: c.bytes
      ensures Valid()
      ensures p.None? ==> live == old(live)
      ensures p.Some? ==> p.value.size == Align(newSize) && live == old(live) - {block} + {p.value}
      ensures p.Some? ==>
        var n := if block.size < p.value.size then block.size else p.value.size;
        Content(p.value)[..n] == old(Content(block))[..n]
      ensures forall b <- old(live) :: b != block ==> Content(b) == old(Content(b))
    {
      var aligned := Align(newSize);
      var same := Block(block.chunk, block.offset, aligned);
      if block.size >= aligned {
        Keep(block, aligned);
        return Some(same);
      }
      var grown := Grow(block, aligned);
      if grown {
        SameStart(block.chunk.bytes[..], block.offset, block.size, aligned);
        return Some(same);
      }
      p := Move(block, newSize, granted);
    }

    static lemma SameStart(s: seq<Byte>, offset: nat, a: nat, b: nat)
      requires a <= b && offset + b <= |s|
      ensures s[offset..offset + b][..a] == s[offset..offset + a] == s[offset..offset + a][..a]
    {
    }

    /** A larger block with the bytes of the old one. */
    method Move(block: Block, newSize: nat, granted: bool) returns (p: Option<Block>)
      requires Valid() && block in live && newSize > 0 && Align(newSize) > block.size
      modifies this, chunks, set c: Chunk | c in chunks :: c.bytes
      ensures Valid()
      ensures p.None? ==> live == old(live)
      ensures p.Some? ==>
        p.value.size == Align(newSize) && live == old(live) - {block} + {p.value} && p.value !in old(live)
        && Content(p.value)[..block.size] == old(Content(block))
      ensures forall b <- old(live) :: b != block ==> Content(b) == old(Content(b))
    {
      p := Malloc(newSize, granted);
      if p.Some? {
        Copy(block, p.value);
        live := live - {block};
      }
    }

    /** `Clear`: back to the chunk the allocator came with. */
    method Clear()
      requires Valid()
      modifies this, chunks
      ensures Valid() && live == {} && chunks == old(chunks[|chunks| - 1..]) && SizeOf(chunks) == 0
    {
      ghost var all := chunks;
      while |chunks| > 1
        invariant chunks != [] && |chunks| <= |all| && chunks == all[|all| - |chunks|..]
        invariant forall c <- all :: c.size == old(c.size)
        decreases |chunks|
      {
        chunks := chunks[1..];
      }
      chunks[0].size := 0;
      live := {};
    }
  }
}
