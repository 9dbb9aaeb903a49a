/** The bump arena of game_memory.cpp: a buffer, a high-water mark `pos` that every
    allocation advances by an aligned size, the position before the last allocation,
    and frames that save and later restore `pos`. Pointers are offsets from the
    arena's base. */
module Arena {
  import opened Base

  /** M_ARENA_DEFAULT_ALIGNMENT, `2 * sizeof(void*)` on a 64-bit target. */
  const DEFAULT_ALIGNMENT: int := 16

  /** `do_memory_alignment(size, alignment)`: `alignment * (size / alignment) +
      alignment` with C's truncating division. The result is a multiple of
      `alignment` strictly above `size` and at most one unit above it, so a size that
      is already aligned still gains a whole extra unit. */
  function Align(size: int, alignment: int): (r: int)
    requires alignment > 0
    ensures r % alignment == 0
    ensures size >= 0 ==> size < r <= size + alignment
    ensures size >= 0 && size % alignment == 0 ==> r == size + alignment
    ensures size < 0 ==> size + alignment <= r < size + 2 * alignment
  {
    var q := TruncDiv(size, alignment);
    assert alignment * q + alignment == alignment * (q + 1);
    MulMod(alignment, q + 1);
    alignment * q + alignment
  }

  /** An unaligned size rounds up; an aligned one still gains a whole unit. */
  lemma AlignExamples()
    ensures Align(1, 16) == 16
    ensures Align(16, 16) == 32
  {
    assert TruncDiv(1, 16) == 0;
    assert TruncDiv(16, 16) == 1;
  }

  /** C's division truncates a negative size toward zero, so it rounds up too. */
  lemma AlignNegativeExample()
    ensures Align(-5, 16) == 16
  {
    assert TruncDiv(-5, 16) == 0;
  }

  /** For a non-negative request, the aligned size is the least multiple of the
      alignment strictly greater than the request. */
  lemma AlignLeast(size: nat, alignment: int, m: int)
    requires alignment > 0
    requires m % alignment == 0 && m > size
    ensures Align(size, alignment) <= m
  {
    var q := TruncDiv(size, alignment);
    var j := m / alignment;
    assert m == alignment * j;
    if j <= q {
      MulMono(alignment, j, q);
      assert false;
    }
    MulMono(alignment, q + 1, j);
    assert Align(size, alignment) == alignment * (q + 1);
  }

  class MArena {
    /** The buffer; `base` is offset 0. */
    const mem: array<u8>
    const size: int
    var pos: int
    var prevPos: int

    /** Both marks stay inside the buffer. */
    predicate Valid()
      reads this
    {
      mem.Length == size && 0 <= prevPos <= size && 0 <= pos <= size
    }

    /** `m_arena(base, size)`: an empty arena over the given buffer. */
    constructor Init(buf: array<u8>)
      ensures Valid() && mem == buf && size == buf.Length
      ensures pos == 0 && prevPos == 0
    {
      mem := buf;
      size := buf.Length;
      pos := 0;
      prevPos := 0;
    }

    /** `m_arena_alloc(arena, size, alignment)`: hands out the bytes from the current
        mark, remembers the old mark and clears exactly the bytes handed out. The C
        code asserts that the aligned size fits. */
    method Alloc(n: nat, alignment: int) returns (r: nat)
      requires Valid() && alignment > 0
      requires pos + Align(n, alignment) <= size
      modifies this, mem
      ensures Valid()
      ensures r == old(pos) && prevPos == old(pos)
      ensures pos == old(pos) + Align(n, alignment) && n < pos - r
      ensures forall k :: 0 <= k < mem.Length ==>
                mem[k] == if r <= k < pos then 0 else old(mem[k])
    {
      var sizeAligned := Align(n, alignment);
      r := pos;
      prevPos := pos;
      pos := pos + sizeAligned;
      ZeroMemory(mem, r, sizeAligned);
    }

    /** `m_arena_clear`. */
    method Clear()
      requires Valid()
      modifies this
      ensures Valid() && pos == 0 && prevPos == 0
    {
      pos := 0;
      prevPos := 0;
    }

    /** `m_arena_start_frame`: captures this arena and its mark. */
    method StartFrame() returns (f: Frame)
      requires Valid()
      ensures f.arena == this && f.pos == pos
      ensures FrameOf(f, this)
    {
      f := Frame(this, pos);
    }

    /** `m_arena_end_frame`: the C code asserts the frame belongs to this arena, then
        restores the mark; the position before the last allocation is left as is. */
    method EndFrame(f: Frame)
      requires Valid() && FrameOf(f, this)
      modifies this
      ensures Valid() && pos == f.pos && prevPos == old(prevPos)
    {
      pos := f.pos;
    }
  }

  /** `M_Arena_Frame`. */
  datatype Frame = Frame(arena: MArena, pos: int)

  /** A frame that this arena handed out: its arena is this one and its mark lies
      inside the buffer. */
  predicate FrameOf(f: Frame, a: MArena)
    reads a
  {
    f.arena == a && 0 <= f.pos <= a.size
  }

  /** Scratch use: whatever is allocated between the start and the end of a frame is
      released, and the mark is back where it was. */
  method Scratch(a: MArena, n: nat) returns (r: Option<nat>)
    requires a.Valid()
    modifies a, a.mem
    ensures a.Valid() && a.pos == old(a.pos)
    ensures r.Some? ==> old(a.pos) == r.value
  {
    var f := a.StartFrame();
    if a.pos + Align(n, DEFAULT_ALIGNMENT) <= a.size {
      var p := a.Alloc(n, DEFAULT_ALIGNMENT);
      r := Some(p);
    } else {
      r := None;
    }
    a.EndFrame(f);
  }
}
