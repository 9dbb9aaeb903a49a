/** The free-list allocator of game_memory.cpp as a mutable object. The two linked
    lists of intrusive headers are kept as sequences of records, in list order; the
    byte buffer the allocator manages is an array, which `Alloc` clears. Each method
    walks its list the way the C loops walk the `next` pointers, and is proved to
    compute exactly the value-level model of module Heap. */
module FreeListAllocator {
  import opened Base
  import opened Heap

  class Allocator {
    /** The managed bytes; offsets are indices into this array. */
    const mem: array<u8>
    const size: nat
    /** `alloc_list`: the live allocation headers, first to last. */
    var allocList: seq<Record>
    /** `free_list`: the free entries, first to last. */
    var freeList: seq<Record>

    function State(): HeapState
      reads this
    {
      HeapState(size, allocList, freeList)
    }

    predicate Valid()
      reads this
    {
      Heap.Valid(State()) && mem.Length == size
    }

    /** `allocator_create(base, size)`: one free entry over the whole buffer. */
    constructor Create(buf: array<u8>, n: nat)
      requires n > H && buf.Length == n
      ensures Valid() && mem == buf
      ensures State() == Heap.Create(n)
    {
      mem := buf;
      size := n;
      allocList := [];
      freeList := [Record(H, n - H)];
    }

    /** The best-fit scan of `allocator_alloc`: walks the free list keeping the entry
        with the smallest `size - desired` among those that fit, replacing it only on a
        strictly smaller fit. */
    method FindBestFit(desired: nat) returns (best: Option<nat>)
      ensures best == BestFit(freeList, desired)
    {
      best := None;
      var cur := 0;
      while cur < |freeList|
        invariant cur <= |freeList|
        invariant best == BestFit(freeList[..cur], desired)
      {
        assert freeList[..cur + 1][..cur] == freeList[..cur];
        var e := freeList[cur];
        if e.size >= desired {
          if best.None? {
            best := Some(cur);
          } else {
            var currFit := e.size - desired;
            var bestFit := freeList[best.value].size - desired;
            if currFit < bestFit {
              best := Some(cur);
            }
          }
        }
        cur := cur + 1;
      }
      assert freeList[..cur] == freeList;
    }

    /** The header lookup of `allocator_free`: the first header at offset `p`. */
    method LookupHeader(p: nat) returns (i: nat)
      requires exists j :: 0 <= j < |allocList| && allocList[j].pos == p
      ensures i == FindPos(allocList, p)
    {
      i := 0;
      while allocList[i].pos != p
        invariant i <= FindPos(allocList, p)
        decreases FindPos(allocList, p) - i
      {
        i := i + 1;
      }
    }

    /** `allocator_alloc(desired)`: best-fit search, split or unlink, sorted insert of
        the header, then the handed-out bytes are cleared. */
    method Alloc(desired: nat) returns (ptr: Option<nat>)
      requires Valid()
      modifies this, mem
      ensures Valid()
      ensures (State(), ptr) == Heap.Alloc(old(State()), desired)
      ensures ptr.None? ==> mem[..] == old(mem[..])
      ensures ptr.Some? ==> Owns(State(), ptr.value)
      ensures ptr.Some? ==>
        var r := allocList[FindPos(allocList, ptr.value)];
        forall k :: 0 <= k < mem.Length ==>
          mem[k] == if r.pos <= k < r.End() then 0 else old(mem[k])
    {
      ghost var h := State();
      var best := FindBestFit(desired);
      if best.None? {
        return None;
      }
      var header := Place(best.value, desired);
      AllocValid(h, desired);
      AllocFinds(h, desired);
      assert h.frees[best.value] in h.frees;
      ZeroMemory(mem, header.pos, header.size);
      ptr := Some(header.pos);
    }

    /** The list surgery of `allocator_alloc` once entry `b` has been chosen: split off
        a new free entry when more than a header's worth is left over, otherwise unlink
        the entry; then insert the new header in offset order. */
    method Place(b: nat, desired: nat) returns (header: Record)
      requires BestFit(freeList, desired) == Some(b)
      modifies this
      ensures (State(), Some(header.pos)) == Heap.Alloc(old(State()), desired)
      ensures header == Carve(old(freeList)[b], desired).0
    {
      var e := freeList[b];
      var allocSize := e.size;
      var sizeLeft := e.size - desired;
      var rest: seq<Record> := [];
      if sizeLeft > H {
        rest := [Record(e.pos + desired + H, sizeLeft - H)];
        allocSize := desired;
      }
      freeList := freeList[..b] + rest + freeList[b + 1..];
      header := Record(e.pos, allocSize);
      assert (header, rest) == Carve(e, desired);
      var i := InsertionPoint(allocList, header.pos);
      allocList := allocList[..i] + [header] + allocList[i..];
      assert allocList == Insert(old(allocList), header);
    }

    /** `allocator_free(ptr)`: unlink the header, then insert the block into the free
        list by offset, merging with the following and then the preceding entry when
        they touch. Freeing NULL does nothing. */
    method Free(ptr: Option<nat>)
      requires Valid() && (ptr.Some? ==> Owns(State(), ptr.value))
      modifies this
      ensures Valid()
      ensures State() == Heap.Free(old(State()), ptr)
    {
      ghost var h := State();
      if ptr.None? {
        return;
      }
      // Remove the allocation header from its list.
      var i := LookupHeader(ptr.value);
      var entry := allocList[i];
      allocList := allocList[..i] + allocList[i + 1..];
      // Find where the block goes in the free list, then merge.
      var k := InsertionPoint(freeList, entry.pos);
      var w := MergeInto(freeList, entry, k);
      freeList := freeList[..w.lo] + [w.m] + freeList[w.hi..];
      FreeValid(h, ptr);
    }
  }

  /** The sorted-insert walk shared by both lists: stops at the first record whose
      offset exceeds `p`. */
  method InsertionPoint(s: seq<Record>, p: nat) returns (i: nat)
    ensures i == InsertPos(s, p)
  {
    i := 0;
    while i < |s| && !(p < s[i].pos)
      invariant i <= |s|
      invariant forall j :: 0 <= j < i ==> s[j].pos <= p
    {
      i := i + 1;
    }
    InsertPosAt(s, p, i);
  }

  /** The merge steps of `allocator_free` for a block whose insertion point in the free
      list is `k`: absorb the following entry when the block ends where it begins, then
      let the preceding entry absorb the result when it ends where that begins. */
  method MergeInto(s: seq<Record>, e: Record, k: nat) returns (w: Merge)
    requires k == InsertPos(s, e.pos)
    ensures w == MergeWindow(s, e)
  {
    var entry := e;
    var lo, hi := k, k;
    if k < |s| {
      if entry.pos + entry.size + H == s[k].pos {
        entry := Record(entry.pos, entry.size + H + s[k].size);
        hi := k + 1;
      }
    }
    if 0 < k {
      var prev := s[k - 1];
      if prev.pos + prev.size + H == entry.pos {
        entry := Record(prev.pos, prev.size + entry.size + H);
        lo := k - 1;
      }
    }
    w := Merge(lo, hi, entry);
  }

  /** Allocating and at once freeing leaves the allocator as it was. */
  method AllocThenFree(a: Allocator, desired: nat) returns (ptr: Option<nat>)
    requires a.Valid()
    modifies a, a.mem
    ensures a.Valid()
    ensures a.State() == old(a.State())
  {
    ptr := a.Alloc(desired);
    if ptr.Some? {
      FreeAfterAlloc(old(a.State()), desired);
    }
    a.Free(ptr);
  }
}
