/** The free-list allocator of game_memory.cpp as values: the two record lists, the
    best-fit search, the split rule, and the address-ordered insert-and-merge on free,
    together with the invariants they keep.

    A record `Record(pos, size)` describes one block. Its header (an
    `Allocation_Header` or a `Free_List_Entry`, both `H` bytes) sits at offset
    `pos - H`; the usable bytes are `[pos, pos + size)`; so the block occupies
    `[pos - H, pos + size)`. Offsets are relative to the allocator's base. */
module Heap {
  import opened Base

  /** sizeof(Allocation_Header) == sizeof(Free_List_Entry): two u64 and one pointer. */
  const H: nat := 24

  datatype Record = Record(pos: nat, size: nat) {
    /** First byte of the block, where its header lives. */
    function Start(): int { pos - H }
    /** One past the last usable byte. */
    function End(): int { pos + size }
  }

  predicate Disjoint(a: Record, b: Record) {
    a.End() <= b.Start() || b.End() <= a.Start()
  }

  /** Ordered by offset, and each block lies wholly below every later one. */
  predicate Ascending(s: seq<Record>) {
    forall i, j :: 0 <= i < j < |s| ==> s[i].End() <= s[j].Start()
  }

  /** Ascending with a gap between any two blocks: no two records are adjacent. */
  predicate Separated(s: seq<Record>) {
    forall i, j :: 0 <= i < j < |s| ==> s[i].End() < s[j].Start()
  }

  /** Bytes the records account for, headers included. */
  function Span(s: seq<Record>): nat {
    if s == [] then 0 else Span(s[..|s| - 1]) + s[|s| - 1].size + H
  }

  datatype HeapState = HeapState(size: nat, allocs: seq<Record>, frees: seq<Record>)

  predicate Within(r: Record, size: nat) {
    H <= r.pos && r.End() <= size
  }

  predicate InBounds(s: seq<Record>, size: nat) {
    forall r :: r in s ==> Within(r, size)
  }

  /** No block of `s` overlaps a block of `t`. */
  predicate Apart(s: seq<Record>, t: seq<Record>) {
    forall a, f :: a in s && f in t ==> Disjoint(a, f)
  }

  /** The allocator's invariants: both lists sorted by offset, free entries never
      adjacent, no two blocks overlapping, every block inside the span, and every
      byte of the span accounted for by exactly the blocks of the two lists. */
  predicate Valid(h: HeapState) {
    H < h.size
    && InBounds(h.allocs, h.size) && InBounds(h.frees, h.size)
    && Ascending(h.allocs) && Separated(h.frees)
    && Apart(h.allocs, h.frees)
    && Span(h.allocs) + Span(h.frees) == h.size
  }

  // ---------------------------------------------------------------------------
  // allocator_create

  /** One free entry covering the whole span, header included; no allocations. */
  function Create(size: nat): (h: HeapState)
    requires size > H
    ensures Valid(h) && h.size == size && h.allocs == []
    ensures |h.frees| == 1 && h.frees[0].Start() == 0 && h.frees[0].End() == size
  {
    HeapState(size, [], [Record(H, size - H)])
  }

  // ---------------------------------------------------------------------------
  // allocator_alloc

  /** `b` is the entry with the least `size - d` among those with `size >= d`,
      and the first such entry in list order. */
  predicate IsBestFit(s: seq<Record>, d: nat, b: nat) {
    b < |s| && s[b].size >= d
    && (forall j :: 0 <= j < |s| && s[j].size >= d ==> s[b].size <= s[j].size)
    && (forall j :: 0 <= j < b && s[j].size >= d ==> s[b].size < s[j].size)
  }

  /** The best-fit scan over the free list; a later entry replaces the best so far
      only when its fit is strictly smaller. */
  function BestFit(s: seq<Record>, d: nat): (r: Option<nat>)
    ensures r.None? <==> forall j :: 0 <= j < |s| ==> s[j].size < d
    ensures r.Some? ==> IsBestFit(s, d, r.value)
  {
    if s == [] then None
    else
      var last := |s| - 1;
      var prev := BestFit(s[..last], d);
      if s[last].size < d then prev
      else if prev.None? then Some(last)
      else if s[last].size - d < s[prev.value].size - d then Some(last)
      else prev
  }

  /** The choice is deterministic. */
  lemma BestFitUnique(s: seq<Record>, d: nat, b1: nat, b2: nat)
    requires IsBestFit(s, d, b1) && IsBestFit(s, d, b2)
    ensures b1 == b2
  {
  }

  /** The split rule. The chosen entry `e` becomes the allocation; when more than one
      header's worth is left over, the tail becomes a new free entry. The allocation
      and the remainder tile `e` exactly. */
  function Carve(e: Record, d: nat): (r: (Record, seq<Record>))
    requires d <= e.size
    ensures r.0.pos == e.pos && d <= r.0.size <= e.size
    ensures |r.1| <= 1 && (r.1 != [] <==> e.size - d > H)
    ensures r.1 == [] ==> r.0 == e
    ensures r.1 != [] ==> r.0.size == d && r.0.End() == r.1[0].Start()
                          && r.1[0].End() == e.End() && r.1[0].size > 0
  {
    var left := e.size - d;
    if left > H then (Record(e.pos, d), [Record(e.pos + d + H, left - H)])
    else (e, [])
  }

  /** Index of the first record whose offset exceeds `p`. */
  function InsertPos(s: seq<Record>, p: int): (k: nat)
    ensures k <= |s|
    ensures forall j :: 0 <= j < k ==> s[j].pos <= p
    ensures k < |s| ==> p < s[k].pos
  {
    if s == [] || p < s[0].pos then 0 else 1 + InsertPos(s[1..], p)
  }

  /** The sorted insertion of a new allocation header. */
  function Insert(s: seq<Record>, r: Record): (t: seq<Record>)
    ensures |t| == |s| + 1 && multiset(t) == multiset(s) + multiset{r}
  {
    var k := InsertPos(s, r.pos);
    assert s == s[..k] + s[k..];
    s[..k] + [r] + s[k..]
  }

  /** `allocator_alloc(d)`: the new state and the returned offset (None for NULL). */
  function Alloc(h: HeapState, d: nat): (r: (HeapState, Option<nat>))
    ensures r.0.size == h.size
    ensures r.1.None? <==> BestFit(h.frees, d).None?
    ensures r.1.None? ==> r.0 == h
    ensures r.1.Some? ==> |r.0.allocs| == |h.allocs| + 1
  {
    match BestFit(h.frees, d)
    case None => (h, None)
    case Some(b) =>
      var c := Carve(h.frees[b], d);
      (HeapState(h.size, Insert(h.allocs, c.0), h.frees[..b] + c.1 + h.frees[b + 1..]),
       Some(c.0.pos))
  }

  // ---------------------------------------------------------------------------
  // allocator_free

  /** `p` is the offset of a live allocation (anything else is undefined behaviour). */
  predicate Owns(h: HeapState, p: nat) {
    exists i :: 0 <= i < |h.allocs| && h.allocs[i].pos == p
  }

  /** The lookup loop: the first header whose offset is `p`. */
  function FindPos(s: seq<Record>, p: nat): (i: nat)
    requires exists i :: 0 <= i < |s| && s[i].pos == p
    ensures i < |s| && s[i].pos == p
    ensures forall j :: 0 <= j < i ==> s[j].pos != p
  {
    if s[0].pos == p then 0 else 1 + FindPos(s[1..], p)
  }

  /** Which entries `s[lo..hi]` the freed block `e` absorbs, and the entry `m` that
      replaces them. */
  datatype Merge = Merge(lo: nat, hi: nat, m: Record)

  /** The insertion point of `e`, then the forward merge with the entry at it, then the
      backward merge with the entry before it, each taken when the two blocks touch. */
  function MergeWindow(s: seq<Record>, e: Record): (w: Merge)
    ensures w.lo <= w.hi <= |s| && w.hi - w.lo <= 2
  {
    var k := InsertPos(s, e.pos);
    var forward := k < |s| && e.End() + H == s[k].pos;
    var ent := if forward then Record(e.pos, e.size + H + s[k].size) else e;
    var hi := if forward then k + 1 else k;
    if 0 < k && s[k - 1].End() + H == ent.pos
    then Merge(k - 1, hi, Record(s[k - 1].pos, s[k - 1].size + ent.size + H))
    else Merge(k, hi, ent)
  }

  /** Inserts the freed block `e` in offset order, merged with the neighbours it
      touches. */
  function InsertFree(s: seq<Record>, e: Record): (t: seq<Record>)
    ensures |s| - 1 <= |t| <= |s| + 1
  {
    var w := MergeWindow(s, e);
    s[..w.lo] + [w.m] + s[w.hi..]
  }

  /** `allocator_free(ptr)`; freeing NULL changes nothing. */
  function Free(h: HeapState, ptr: Option<nat>): (r: HeapState)
    requires ptr.Some? ==> Owns(h, ptr.value)
    ensures r.size == h.size
    ensures ptr.None? ==> r == h
    ensures ptr.Some? ==> |r.allocs| + 1 == |h.allocs|
    ensures ptr.Some? ==>
              multiset(r.allocs) == multiset(h.allocs) - multiset{h.allocs[FindPos(h.allocs, ptr.value)]}
  {
    match ptr
    case None => h
    case Some(p) =>
      var i := FindPos(h.allocs, p);
      RemoveAt(h.allocs, i);
      HeapState(h.size, h.allocs[..i] + h.allocs[i + 1..], InsertFree(h.frees, h.allocs[i]))
  }

  // ---------------------------------------------------------------------------
  // Sequence and interval facts

  /** Unlinking entry `i` removes exactly that entry. */
  lemma RemoveAt(s: seq<Record>, i: nat)
    requires i < |s|
    ensures |s[..i] + s[i + 1..]| + 1 == |s|
    ensures multiset(s[..i] + s[i + 1..]) == multiset(s) - multiset{s[i]}
  {
    assert s == s[..i] + [s[i]] + s[i + 1..];
  }

  lemma {:induction false} SpanAppend(a: seq<Record>, b: seq<Record>)
    ensures Span(a + b) == Span(a) + Span(b)
    decreases |b|
  {
    if b == [] {
      assert a + b == a;
    } else {
      var c := a + b;
      assert c[..|c| - 1] == a + b[..|b| - 1];
      SpanAppend(a, b[..|b| - 1]);
    }
  }

  lemma SpanOne(x: Record)
    ensures Span([x]) == x.size + H
  {
    assert [x][..0] == [];
  }

  lemma SpanTwo(x: Record, y: Record)
    ensures Span([x, y]) == x.size + y.size + 2 * H
  {
    assert [x, y] == [x] + [y];
    SpanAppend([x], [y]);
    SpanOne(x);
    SpanOne(y);
  }

  /** Replacing `s[lo..hi]` by `mid` changes the span by the difference. */
  lemma SpanSplice(s: seq<Record>, lo: nat, hi: nat, mid: seq<Record>)
    requires lo <= hi <= |s|
    ensures Span(s[..lo] + mid + s[hi..]) + Span(s[lo..hi]) == Span(s) + Span(mid)
  {
    SpanAppend(s[..lo] + mid, s[hi..]);
    SpanAppend(s[..lo], mid);
    assert s == s[..lo] + s[lo..hi] + s[hi..];
    SpanAppend(s[..lo] + s[lo..hi], s[hi..]);
    SpanAppend(s[..lo], s[lo..hi]);
  }

  lemma InSplice(s: seq<Record>, lo: nat, hi: nat, mid: seq<Record>, x: Record)
    requires lo <= hi <= |s|
    requires x in s[..lo] + mid + s[hi..]
    ensures x in mid || exists j :: (0 <= j < lo || hi <= j < |s|) && s[j] == x
  {
    if x in s[..lo] {
      var j :| 0 <= j < lo && s[..lo][j] == x;
      assert s[j] == x;
    } else if x in s[hi..] {
      var j :| 0 <= j < |s| - hi && s[hi..][j] == x;
      assert s[hi + j] == x;
    }
  }

  lemma DisjointOrder(a: Record, b: Record)
    requires Disjoint(a, b) && a.pos <= b.pos
    ensures a.End() <= b.Start()
  {
  }

  /** Two ascending runs and a middle piece, each wholly below the next, join into a
      separated sequence. */
  lemma SeparatedJoin(a: seq<Record>, mid: seq<Record>, b: seq<Record>)
    requires Separated(a) && Separated(mid) && Separated(b)
    requires forall x, y :: x in a && y in mid ==> x.End() < y.Start()
    requires forall x, y :: x in mid && y in b ==> x.End() < y.Start()
    requires forall x, y :: x in a && y in b ==> x.End() < y.Start()
    ensures Separated(a + mid + b)
  {
    var t := a + mid + b;
    forall i, j | 0 <= i < j < |t| ensures t[i].End() < t[j].Start() {
      var n, m := |a|, |a| + |mid|;
      if j < n {
        assert t[i] == a[i] && t[j] == a[j];
      } else if j < m {
        assert t[j] == mid[j - n] && t[j] in mid;
        if i < n { assert t[i] == a[i] && t[i] in a; } else { assert t[i] == mid[i - n]; }
      } else {
        assert t[j] == b[j - m] && t[j] in b;
        if i < n {
          assert t[i] == a[i] && t[i] in a;
        } else if i < m {
          assert t[i] == mid[i - n] && t[i] in mid;
        } else {
          assert t[i] == b[i - m];
        }
      }
    }
  }

  lemma SeparatedSlice(s: seq<Record>, lo: nat, hi: nat)
    requires Separated(s) && lo <= hi <= |s|
    ensures Separated(s[lo..hi])
  {
    var t := s[lo..hi];
    forall i, j | 0 <= i < j < |t| ensures t[i].End() < t[j].Start() {
      assert t[i] == s[lo + i] && t[j] == s[lo + j];
    }
  }

  /** Where each element of `s[..lo] + mid + s[hi..]` comes from. */
  lemma SpliceAt(s: seq<Record>, lo: nat, hi: nat, mid: seq<Record>)
    requires lo <= hi <= |s|
    ensures var t := s[..lo] + mid + s[hi..];
      |t| == |s| - (hi - lo) + |mid|
      && (forall i :: 0 <= i < lo ==> t[i] == s[i])
      && (forall i :: 0 <= i < |mid| ==> t[lo + i] == mid[i])
      && (forall i :: lo + |mid| <= i < |t| ==> t[i] == s[i - lo - |mid| + hi])
  {
  }

  // ---------------------------------------------------------------------------
  // Allocation keeps the invariants

  lemma InsertMembers(s: seq<Record>, r: Record)
    ensures forall x :: x in Insert(s, r) <==> x in s || x == r
  {
    var k := InsertPos(s, r.pos);
    assert s == s[..k] + s[k..];
  }

  lemma InsertSpan(s: seq<Record>, r: Record)
    ensures Span(Insert(s, r)) == Span(s) + r.size + H
  {
    var k := InsertPos(s, r.pos);
    assert s[k..k] == [];
    assert s[..k] + [] + s[k..] == s;
    SpanSplice(s, k, k, [r]);
    SpanOne(r);
  }

  /** A record that lies wholly below `s[k..]` and wholly above `s[..k]` can be put at `k`. */
  lemma AscendingAt(s: seq<Record>, k: nat, r: Record)
    requires Ascending(s) && k <= |s|
    requires forall j :: 0 <= j < k ==> s[j].End() <= r.Start()
    requires forall j :: k <= j < |s| ==> r.End() <= s[j].Start()
    ensures Ascending(s[..k] + [r] + s[k..])
  {
    var t := s[..k] + [r] + s[k..];
    SpliceAt(s, k, k, [r]);
    forall i, j | 0 <= i < j < |t| ensures t[i].End() <= t[j].Start() {
      if i == k {
        assert t[i] == r;
      } else if j == k {
        assert t[j] == r;
      }
    }
  }

  /** Every record before the insertion point of `e` lies below it, every later one above. */
  lemma AroundInsert(s: seq<Record>, e: Record)
    requires Ascending(s)
    requires forall x :: x in s ==> Disjoint(x, e)
    ensures forall j :: 0 <= j < InsertPos(s, e.pos) ==> s[j].End() <= e.Start()
    ensures forall j :: InsertPos(s, e.pos) <= j < |s| ==> e.End() <= s[j].Start()
  {
    var k := InsertPos(s, e.pos);
    forall j | 0 <= j < k ensures s[j].End() <= e.Start() {
      assert s[j] in s;
      DisjointOrder(s[j], e);
    }
    forall j | k <= j < |s| ensures e.End() <= s[j].Start() {
      assert s[j] in s;
      DisjointOrder(e, s[j]);
    }
  }

  /** Inserting a record that overlaps none of an ascending list keeps it ascending. */
  lemma InsertOrder(s: seq<Record>, r: Record)
    requires Ascending(s)
    requires forall x :: x in s ==> Disjoint(x, r)
    ensures Ascending(Insert(s, r))
  {
    AroundInsert(s, r);
    AscendingAt(s, InsertPos(s, r.pos), r);
  }

  lemma ReplaceSeparated(s: seq<Record>, b: nat, rest: seq<Record>)
    requires Separated(s) && b < |s|
    requires forall x :: x in rest ==> s[b].Start() <= x.Start() && x.End() <= s[b].End()
    requires |rest| <= 1
    ensures Separated(s[..b] + rest + s[b + 1..])
  {
    var t := s[..b] + rest + s[b + 1..];
    SpliceAt(s, b, b + 1, rest);
    forall i, j | 0 <= i < j < |t| ensures t[i].End() < t[j].Start() {
      if rest != [] {
        assert rest[0] in rest;
        if i == b {
          assert t[i] == rest[0];
        } else if j == b {
          assert t[j] == rest[0];
        }
      }
    }
  }

  /** Every entry of the free list after carving entry `b` is either the remainder or
      an untouched entry, which does not overlap entry `b`. */
  lemma CarveMembers(s: seq<Record>, b: nat, rest: seq<Record>)
    requires Separated(s) && b < |s|
    ensures forall f :: f in s[..b] + rest + s[b + 1..] ==>
              f in rest || (f in s && Disjoint(f, s[b]))
  {
    forall f | f in s[..b] + rest + s[b + 1..] && f !in rest
      ensures f in s && Disjoint(f, s[b])
    {
      InSplice(s, b, b + 1, rest, f);
      var j :| (0 <= j < b || b + 1 <= j < |s|) && s[j] == f;
    }
  }

  lemma CarveSpan(s: seq<Record>, b: nat, d: nat)
    requires b < |s| && d <= s[b].size
    ensures Span(s[..b] + Carve(s[b], d).1 + s[b + 1..]) + Carve(s[b], d).0.size + H == Span(s)
  {
    var c := Carve(s[b], d);
    SpanSplice(s, b, b + 1, c.1);
    assert s[b..b + 1] == [s[b]];
    SpanOne(s[b]);
    if c.1 != [] {
      assert c.1 == [c.1[0]];
      SpanOne(c.1[0]);
    }
  }

  /** The block carved out of a free entry overlaps no live allocation. */
  lemma CarvedApart(allocs: seq<Record>, frees: seq<Record>, b: nat, d: nat)
    requires Apart(allocs, frees) && b < |frees| && d <= frees[b].size
    ensures forall x :: x in allocs ==> Disjoint(x, Carve(frees[b], d).0)
  {
    assert frees[b] in frees;
  }

  /** The live allocations and the free entries stay apart after a carve. */
  lemma CarveApart(allocs: seq<Record>, frees: seq<Record>, b: nat, d: nat)
    requires Apart(allocs, frees) && Separated(frees)
    requires b < |frees| && d <= frees[b].size
    ensures Apart(Insert(allocs, Carve(frees[b], d).0),
                  frees[..b] + Carve(frees[b], d).1 + frees[b + 1..])
  {
    var e := frees[b];
    var c := Carve(e, d);
    var frees' := frees[..b] + c.1 + frees[b + 1..];
    assert e in frees;
    InsertMembers(allocs, c.0);
    CarveMembers(frees, b, c.1);
    forall a, f | a in Insert(allocs, c.0) && f in frees' ensures Disjoint(a, f) {
      if a != c.0 {
        assert a in allocs && Disjoint(a, e);
      }
    }
  }

  lemma CarveInBounds(s: seq<Record>, b: nat, d: nat, size: nat)
    requires InBounds(s, size) && b < |s| && d <= s[b].size
    ensures Within(Carve(s[b], d).0, size)
    ensures InBounds(s[..b] + Carve(s[b], d).1 + s[b + 1..], size)
  {
    var c := Carve(s[b], d);
    assert s[b] in s;
    forall f | f in s[..b] + c.1 + s[b + 1..] ensures Within(f, size) {
      InSplice(s, b, b + 1, c.1, f);
    }
  }

  /** allocator_alloc keeps every invariant. */
  lemma AllocValid(h: HeapState, d: nat)
    requires Valid(h)
    ensures Valid(Alloc(h, d).0)
  {
    match BestFit(h.frees, d)
    case None =>
    case Some(b) =>
      var c := Carve(h.frees[b], d);
      CarvedApart(h.allocs, h.frees, b, d);
      InsertOrder(h.allocs, c.0);
      InsertMembers(h.allocs, c.0);
      InsertSpan(h.allocs, c.0);
      CarveInBounds(h.frees, b, d, h.size);
      ReplaceSeparated(h.frees, b, c.1);
      CarveSpan(h.frees, b, d);
      CarveApart(h.allocs, h.frees, b, d);
  }

  // ---------------------------------------------------------------------------
  // Freeing keeps the invariants

  lemma WindowSpan(s: seq<Record>, lo: nat, hi: nat)
    requires lo <= hi <= |s| && hi - lo <= 2
    ensures Span(s[lo..hi]) == if hi - lo == 2 then s[lo].size + s[lo + 1].size + 2 * H
                               else if hi - lo == 1 then s[lo].size + H
                               else 0
  {
    if hi - lo == 2 {
      assert s[lo..hi] == [s[lo], s[lo + 1]];
      SpanTwo(s[lo], s[lo + 1]);
    } else if hi - lo == 1 {
      assert s[lo..hi] == [s[lo]];
      SpanOne(s[lo]);
    }
  }

  lemma SeparatedAscending(s: seq<Record>)
    requires Separated(s)
    ensures Ascending(s)
  {
  }

  /** The merged entry is made of `e` and the window's entries, which touch it. */
  lemma MergeCover(s: seq<Record>, e: Record)
    ensures var w := MergeWindow(s, e);
      (w.m.Start() == e.Start()
       || (w.lo < w.hi && w.m.Start() == s[w.lo].Start() && s[w.lo].End() == e.Start()))
      && (w.m.End() == e.End()
          || (w.lo < w.hi && w.m.End() == s[w.hi - 1].End() && e.End() == s[w.hi - 1].Start()))
  {
  }

  /** The merged entry accounts for exactly `e` and the entries it absorbed. */
  lemma MergeSpan(s: seq<Record>, e: Record)
    ensures var w := MergeWindow(s, e);
      Span(s[w.lo..w.hi]) + e.size + H == w.m.size + H
  {
    var w := MergeWindow(s, e);
    WindowSpan(s, w.lo, w.hi);
  }

  /** Every entry below the window ends, with a gap, before the merged entry. */
  lemma MergeClearBelow(s: seq<Record>, e: Record)
    requires Separated(s)
    requires forall x :: x in s ==> Disjoint(x, e)
    ensures var w := MergeWindow(s, e);
      forall j :: 0 <= j < w.lo ==> s[j].End() < w.m.Start()
  {
    var w := MergeWindow(s, e);
    var k := InsertPos(s, e.pos);
    SeparatedAscending(s);
    AroundInsert(s, e);
    forall j | 0 <= j < w.lo ensures s[j].End() < w.m.Start() {
      if w.lo == k && j < k - 1 {
        assert s[j].End() < s[k - 1].Start();
      }
    }
  }

  /** Every entry above the window starts, with a gap, after the merged entry. */
  lemma MergeClearAbove(s: seq<Record>, e: Record)
    requires Separated(s)
    requires forall x :: x in s ==> Disjoint(x, e)
    ensures var w := MergeWindow(s, e);
      forall j :: w.hi <= j < |s| ==> w.m.End() < s[j].Start()
  {
    var w := MergeWindow(s, e);
    var k := InsertPos(s, e.pos);
    SeparatedAscending(s);
    AroundInsert(s, e);
    MergeCover(s, e);
    forall j | w.hi <= j < |s| ensures w.m.End() < s[j].Start() {
      if w.hi == k && k < j {
        assert s[k].End() < s[j].Start();
      } else if w.hi == k + 1 && k + 1 < j {
        assert s[k].End() < s[j].Start();
      }
    }
  }

  lemma SpliceSeparated(s: seq<Record>, lo: nat, hi: nat, m: Record)
    requires Separated(s) && lo <= hi <= |s|
    requires forall j :: 0 <= j < lo ==> s[j].End() < m.Start()
    requires forall j :: hi <= j < |s| ==> m.End() < s[j].Start()
    ensures Separated(s[..lo] + [m] + s[hi..])
  {
    var t := s[..lo] + [m] + s[hi..];
    SpliceAt(s, lo, hi, [m]);
    forall i, j | 0 <= i < j < |t| ensures t[i].End() < t[j].Start() {
      if i == lo {
        assert t[i] == m;
      } else if j == lo {
        assert t[j] == m;
      }
    }
  }

  lemma SpliceMembers(s: seq<Record>, lo: nat, hi: nat, m: Record)
    requires lo <= hi <= |s|
    ensures forall y :: y in s[..lo] + [m] + s[hi..] ==> y == m || y in s
  {
    forall y | y in s[..lo] + [m] + s[hi..] && y != m ensures y in s {
      InSplice(s, lo, hi, [m], y);
      var j :| (0 <= j < lo || hi <= j < |s|) && s[j] == y;
    }
  }

  /** A block apart from `e` and from every free entry is apart from the merged entry. */
  lemma MergedApart(s: seq<Record>, e: Record, lo: nat, hi: nat, m: Record, a: Record)
    requires lo <= hi <= |s|
    requires m.Start() == e.Start()
             || (lo < hi && m.Start() == s[lo].Start() && s[lo].End() == e.Start())
    requires m.End() == e.End()
             || (lo < hi && m.End() == s[hi - 1].End() && e.End() == s[hi - 1].Start())
    requires Disjoint(a, e) && forall x :: x in s ==> Disjoint(a, x)
    ensures Disjoint(a, m)
  {
    if lo < hi {
      assert s[lo] in s && s[hi - 1] in s;
    }
  }

  lemma InsertFreeSeparated(s: seq<Record>, e: Record)
    requires Separated(s)
    requires forall x :: x in s ==> Disjoint(x, e)
    ensures Separated(InsertFree(s, e))
  {
    var w := MergeWindow(s, e);
    MergeClearBelow(s, e);
    MergeClearAbove(s, e);
    SpliceSeparated(s, w.lo, w.hi, w.m);
  }

  lemma InsertFreeInBounds(s: seq<Record>, e: Record, size: nat)
    requires InBounds(s, size) && Within(e, size)
    ensures InBounds(InsertFree(s, e), size)
  {
    var w := MergeWindow(s, e);
    MergeCover(s, e);
    SpliceMembers(s, w.lo, w.hi, w.m);
    if w.lo < w.hi {
      assert s[w.lo] in s && s[w.hi - 1] in s;
    }
  }

  lemma InsertFreeSpan(s: seq<Record>, e: Record)
    ensures Span(InsertFree(s, e)) == Span(s) + e.size + H
  {
    var w := MergeWindow(s, e);
    MergeSpan(s, e);
    SpanSplice(s, w.lo, w.hi, [w.m]);
    SpanOne(w.m);
  }

  /** A block apart from the freed block and from the free list stays apart from every
      entry after the insert. */
  lemma InsertFreeApart(s: seq<Record>, e: Record, a: Record)
    requires Disjoint(a, e) && forall x :: x in s ==> Disjoint(a, x)
    ensures forall y :: y in InsertFree(s, e) ==> Disjoint(a, y)
  {
    var w := MergeWindow(s, e);
    MergeCover(s, e);
    SpliceMembers(s, w.lo, w.hi, w.m);
    MergedApart(s, e, w.lo, w.hi, w.m, a);
  }

  lemma RemoveAscending(s: seq<Record>, i: nat)
    requires Ascending(s) && i < |s|
    ensures Ascending(s[..i] + s[i + 1..])
  {
    var t := s[..i] + s[i + 1..];
    forall a, b | 0 <= a < b < |t| ensures t[a].End() <= t[b].Start() {
      var a', b' := if a < i then a else a + 1, if b < i then b else b + 1;
      assert t[a] == s[a'] && t[b] == s[b'];
    }
  }

  lemma AscendingDisjoint(s: seq<Record>, i: nat, j: nat)
    requires Ascending(s) && i < |s| && j < |s| && i != j
    ensures Disjoint(s[j], s[i])
  {
  }

  lemma RemoveMembers(s: seq<Record>, i: nat)
    requires Ascending(s) && i < |s|
    ensures forall x :: x in s[..i] + s[i + 1..] ==> x in s && Disjoint(x, s[i])
  {
    forall x | x in s[..i] + s[i + 1..] ensures x in s && Disjoint(x, s[i]) {
      InSplice(s, i, i + 1, [], x);
      var j :| (0 <= j < i || i + 1 <= j < |s|) && s[j] == x;
      AscendingDisjoint(s, i, j);
    }
  }

  lemma RemoveSpan(s: seq<Record>, i: nat)
    requires i < |s|
    ensures Span(s[..i] + s[i + 1..]) + s[i].size + H == Span(s)
  {
    SplitAt(s, i);
    SpanJoin(s[..i], s[i], s[i + 1..]);
    SpanAppend(s[..i], s[i + 1..]);
  }

  lemma SplitAt(s: seq<Record>, i: nat)
    requires i < |s|
    ensures s == s[..i] + [s[i]] + s[i + 1..]
  {
  }

  /** A record between two runs adds its block to theirs. */
  lemma SpanJoin(a: seq<Record>, x: Record, b: seq<Record>)
    ensures Span(a + [x] + b) == Span(a) + x.size + H + Span(b)
  {
    SpanAppend(a + [x], b);
    SpanAppend(a, [x]);
    SpanOne(x);
  }

  /** The remaining allocations stay apart from the free list after a free. */
  lemma FreeApart(h: HeapState, i: nat)
    requires Valid(h) && i < |h.allocs|
    ensures Apart(h.allocs[..i] + h.allocs[i + 1..], InsertFree(h.frees, h.allocs[i]))
  {
    var e := h.allocs[i];
    assert e in h.allocs;
    RemoveMembers(h.allocs, i);
    forall a, f | a in h.allocs[..i] + h.allocs[i + 1..] && f in InsertFree(h.frees, e)
      ensures Disjoint(a, f)
    {
      assert a in h.allocs;
      InsertFreeApart(h.frees, e, a);
    }
  }

  /** allocator_free keeps every invariant. */
  lemma FreeValid(h: HeapState, ptr: Option<nat>)
    requires Valid(h) && (ptr.Some? ==> Owns(h, ptr.value))
    ensures Valid(Free(h, ptr))
  {
    if ptr.Some? {
      FreeAtValid(h, FindPos(h.allocs, ptr.value));
    }
  }

  /** Freeing the allocation at index `i` keeps every invariant. */
  lemma FreeAtValid(h: HeapState, i: nat)
    requires Valid(h) && i < |h.allocs|
    ensures Valid(HeapState(h.size, h.allocs[..i] + h.allocs[i + 1..],
                            InsertFree(h.frees, h.allocs[i])))
  {
    var e := h.allocs[i];
    assert e in h.allocs;
    InsertFreeSeparated(h.frees, e);
    InsertFreeInBounds(h.frees, e, h.size);
    InsertFreeSpan(h.frees, e);
    RemoveValid(h.allocs, i, h.size);
    FreeApart(h, i);
  }

  /** Unlinking a header keeps the allocation list sorted and in bounds, and gives up
      exactly its block. */
  lemma RemoveValid(s: seq<Record>, i: nat, size: nat)
    requires Ascending(s) && InBounds(s, size) && i < |s|
    ensures var t := s[..i] + s[i + 1..];
            Ascending(t) && InBounds(t, size) && Span(t) + s[i].size + H == Span(s)
  {
    RemoveAscending(s, i);
    RemoveMembers(s, i);
    RemoveSpan(s, i);
  }

  // ---------------------------------------------------------------------------
  // Properties across calls

  /** Sorted records with gaps between them cannot account for the whole distance
      from the first to the last: each of the |s| - 1 gaps costs at least a byte. */
  lemma {:induction false} SeparatedSpan(s: seq<Record>)
    requires Separated(s) && |s| > 0
    ensures Span(s) + |s| - 1 <= s[|s| - 1].End() - s[0].Start()
    decreases |s|
  {
    if |s| == 1 {
      SpanOne(s[0]);
      assert s == [s[0]];
    } else {
      var t := s[..|s| - 1];
      SeparatedSlice(s, 0, |s| - 1);
      assert s[0..|s| - 1] == t;
      SeparatedSpan(t);
      assert t[|t| - 1] == s[|s| - 2] && t[0] == s[0];
    }
  }

  /** Once every allocation has been freed, the free list is again the single entry
      that allocator_create made. */
  lemma FreeAll(h: HeapState)
    requires Valid(h) && h.allocs == []
    ensures h.frees == [Record(H, h.size - H)]
  {
    assert Span(h.allocs) == 0;
    if |h.frees| == 0 {
      assert false;
    }
    SeparatedSpan(h.frees);
    var first, last := h.frees[0], h.frees[|h.frees| - 1];
    assert first in h.frees && last in h.frees;
    assert |h.frees| == 1;
    assert h.frees == [first];
    SpanOne(first);
  }

  /** What allocator_alloc hands out: NULL exactly when no entry is big enough (and then
      nothing changes); otherwise the offset of the best-fitting entry, now the header of
      a live allocation of at least `d` bytes, exactly `d` when the entry was split. */
  lemma AllocOutcome(h: HeapState, d: nat)
    requires Valid(h)
    ensures Alloc(h, d).1.None? <==> forall f :: f in h.frees ==> f.size < d
    ensures Alloc(h, d).1.None? ==> Alloc(h, d).0 == h
    ensures Alloc(h, d).1.Some? ==>
      var p := Alloc(h, d).1.value;
      var h' := Alloc(h, d).0;
      Owns(h', p)
      && (exists b: nat :: IsBestFit(h.frees, d, b) && h.frees[b].pos == p)
      && (forall r :: r in h'.allocs && r.pos == p ==>
            r.size >= d && (r.size > d ==> r.size - d <= H))
      && h'.size == h.size
  {
    if Alloc(h, d).1.None? {
      forall f | f in h.frees ensures f.size < d {
        var j :| 0 <= j < |h.frees| && h.frees[j] == f;
      }
    } else {
      var b := BestFit(h.frees, d).value;
      var rec := Carve(h.frees[b], d).0;
      var k := InsertPos(h.allocs, rec.pos);
      var h' := Alloc(h, d).0;
      assert h'.allocs[k] == rec;
      assert IsBestFit(h.frees, d, b) && h.frees[b].pos == rec.pos;
      CarvedApart(h.allocs, h.frees, b, d);
      InsertMembers(h.allocs, rec);
      assert forall r :: r in h'.allocs && r.pos == rec.pos ==> r == rec;
    }
  }

  /** InsertPos is the first index whose offset exceeds `p`. */
  lemma {:induction false} InsertPosAt(s: seq<Record>, p: int, b: nat)
    requires b <= |s|
    requires forall j :: 0 <= j < b ==> s[j].pos <= p
    requires b < |s| ==> p < s[b].pos
    ensures InsertPos(s, p) == b
    decreases |s|
  {
    if b > 0 {
      assert s[0].pos <= p;
      InsertPosAt(s[1..], p, b - 1);
    } else if s != [] {
      assert p < s[0].pos;
    }
  }

  /** The lookup stops at the first index holding offset `p`. */
  lemma FindPosAt(t: seq<Record>, p: nat, k: nat)
    requires k < |t| && t[k].pos == p
    requires forall j :: 0 <= j < k ==> t[j].pos != p
    ensures FindPos(t, p) == k
  {
  }

  /** The header just inserted is the one the lookup finds, and unlinking it restores
      the allocation list. */
  lemma FindInserted(s: seq<Record>, r: Record)
    requires forall x :: x in s ==> Disjoint(x, r)
    ensures exists i :: 0 <= i < |Insert(s, r)| && Insert(s, r)[i].pos == r.pos
    ensures var t := Insert(s, r);
            var i := FindPos(t, r.pos);
            t[i] == r && t[..i] + t[i + 1..] == s
  {
    var k := InsertPos(s, r.pos);
    var t := Insert(s, r);
    InsertIs(s, r);
    InsertedAt(s, r, k, t);
    assert t[k].pos == r.pos;
  }

  /** `Insert` places the header at its insertion point. */
  lemma InsertIs(s: seq<Record>, r: Record)
    ensures Insert(s, r) == s[..InsertPos(s, r.pos)] + [r] + s[InsertPos(s, r.pos)..]
  {
  }

  /** `FindInserted` for the sequence `Insert` builds, written out. */
  lemma InsertedAt(s: seq<Record>, r: Record, k: nat, t: seq<Record>)
    requires forall x :: x in s ==> Disjoint(x, r)
    requires k == InsertPos(s, r.pos) && t == s[..k] + [r] + s[k..]
    ensures k < |t| && t[k].pos == r.pos && FindPos(t, r.pos) == k
    ensures t[k] == r && t[..k] + t[k + 1..] == s
  {
    assert t[k] == r;
    forall j | 0 <= j < k ensures t[j].pos < r.pos {
      assert t[j] == s[j] && s[j] in s && Disjoint(s[j], r);
    }
    FindPosAt(t, r.pos, k);
    assert t[..k] == s[..k] && t[k + 1..] == s[k..];
    assert s == s[..k] + s[k..];
  }

  /** An entry taken whole off the free list goes back to its old index. */
  lemma WholeWindowPos(s: seq<Record>, b: nat)
    requires Separated(s) && b < |s|
    ensures InsertPos(s[..b] + s[b + 1..], s[b].pos) == b
  {
    var t := s[..b] + s[b + 1..];
    SpliceAt(s, b, b + 1, []);
    assert s[..b] + [] + s[b + 1..] == t;
    forall j | 0 <= j < b ensures t[j].pos < s[b].pos {
      assert t[j] == s[j];
    }
    forall j | b <= j < |t| ensures s[b].pos < t[j].pos {
      assert t[j] == s[j + 1];
    }
    InsertPosAt(t, s[b].pos, b);
  }

  /** An entry taken whole off the free list finds no neighbour to merge with when it
      comes back. */
  lemma WholeWindow(s: seq<Record>, b: nat)
    requires Separated(s) && b < |s|
    ensures MergeWindow(s[..b] + s[b + 1..], s[b]) == Merge(b, b, s[b])
  {
    var t := s[..b] + s[b + 1..];
    WholeWindowPos(s, b);
    if b < |t| {
      assert t[b] == s[b + 1];
    }
    if 0 < b {
      assert t[b - 1] == s[b - 1];
    }
  }

  /** The front part of a split entry goes back to the entry's old index. */
  lemma SplitWindowPos(s: seq<Record>, b: nat, d: nat)
    requires Separated(s) && b < |s| && d <= s[b].size && Carve(s[b], d).1 != []
    ensures InsertPos(s[..b] + Carve(s[b], d).1 + s[b + 1..], Carve(s[b], d).0.pos) == b
  {
    var e := s[b];
    var rec, rest := Carve(e, d).0, Carve(e, d).1;
    var t := s[..b] + rest + s[b + 1..];
    SpliceAt(s, b, b + 1, rest);
    forall j | 0 <= j < b ensures t[j].pos < rec.pos {
      assert t[j] == s[j];
    }
    forall j | b <= j < |t| ensures rec.pos < t[j].pos {
      if j == b {
        assert t[j] == rest[0];
      } else {
        assert t[j] == s[j];
      }
    }
    InsertPosAt(t, rec.pos, b);
  }

  /** The front part of a split entry merges forward with the remainder, and with
      nothing before it. */
  lemma SplitWindow(s: seq<Record>, b: nat, d: nat)
    requires Separated(s) && b < |s| && d <= s[b].size && Carve(s[b], d).1 != []
    ensures MergeWindow(s[..b] + Carve(s[b], d).1 + s[b + 1..], Carve(s[b], d).0)
            == Merge(b, b + 1, s[b])
  {
    var rest := Carve(s[b], d).1;
    var t := s[..b] + rest + s[b + 1..];
    SplitWindowPos(s, b, d);
    assert t[b] == rest[0];
    if 0 < b {
      assert t[b - 1] == s[b - 1];
    }
  }

  /** The offset allocator_alloc returns leads the lookup of allocator_free to the
      header just made. */
  lemma AllocFinds(h: HeapState, d: nat)
    requires Valid(h) && Alloc(h, d).1.Some?
    ensures var p := Alloc(h, d).1.value;
            var allocs := Alloc(h, d).0.allocs;
            Owns(Alloc(h, d).0, p)
            && allocs[FindPos(allocs, p)] == Carve(h.frees[BestFit(h.frees, d).value], d).0
  {
    var b := BestFit(h.frees, d).value;
    CarvedApart(h.allocs, h.frees, b, d);
    FindInserted(h.allocs, Carve(h.frees[b], d).0);
  }

  /** Freeing the block just carved out of entry `b` puts the free list back as it was. */
  lemma RefreeCarve(s: seq<Record>, b: nat, d: nat)
    requires Separated(s) && b < |s| && d <= s[b].size
    ensures InsertFree(s[..b] + Carve(s[b], d).1 + s[b + 1..], Carve(s[b], d).0) == s
  {
    if Carve(s[b], d).1 == [] {
      RefreeWhole(s, b, d);
    } else {
      RefreeSplit(s, b, d);
    }
  }

  lemma RefreeWhole(s: seq<Record>, b: nat, d: nat)
    requires Separated(s) && b < |s| && d <= s[b].size && Carve(s[b], d).1 == []
    ensures InsertFree(s[..b] + Carve(s[b], d).1 + s[b + 1..], Carve(s[b], d).0) == s
  {
    var t := s[..b] + s[b + 1..];
    assert s[..b] + Carve(s[b], d).1 + s[b + 1..] == t;
    WholeWindow(s, b);
    PutBack(s, b);
  }

  lemma RefreeSplit(s: seq<Record>, b: nat, d: nat)
    requires Separated(s) && b < |s| && d <= s[b].size && Carve(s[b], d).1 != []
    ensures InsertFree(s[..b] + Carve(s[b], d).1 + s[b + 1..], Carve(s[b], d).0) == s
  {
    var rest := Carve(s[b], d).1;
    assert rest == [rest[0]];
    SplitWindow(s, b, d);
    PutBackOver(s, b, rest[0]);
  }

  /** Re-inserting entry `b` at its old index restores the sequence. */
  lemma PutBack(s: seq<Record>, b: nat)
    requires b < |s|
    ensures var t := s[..b] + s[b + 1..]; t[..b] + [s[b]] + t[b..] == s
  {
    var t := s[..b] + s[b + 1..];
    assert t[..b] == s[..b] && t[b..] == s[b + 1..];
    assert s == s[..b] + [s[b]] + s[b + 1..];
  }

  /** Writing entry `b` back over its replacement restores the sequence. */
  lemma PutBackOver(s: seq<Record>, b: nat, x: Record)
    requires b < |s|
    ensures var t := s[..b] + [x] + s[b + 1..]; t[..b] + [s[b]] + t[b + 1..] == s
  {
    var t := s[..b] + [x] + s[b + 1..];
    assert t[..b] == s[..b] && t[b + 1..] == s[b + 1..];
    assert s == s[..b] + [s[b]] + s[b + 1..];
  }

  /** Freeing a block straight after allocating it restores the allocator exactly:
      the split remainder merges back into the block, and an unsplit block finds no
      neighbour to merge with. */
  lemma FreeAfterAlloc(h: HeapState, d: nat)
    requires Valid(h) && Alloc(h, d).1.Some?
    ensures Owns(Alloc(h, d).0, Alloc(h, d).1.value)
    ensures Free(Alloc(h, d).0, Alloc(h, d).1) == h
  {
    var b := BestFit(h.frees, d).value;
    var c := Carve(h.frees[b], d);
    assert Alloc(h, d)
        == (HeapState(h.size, Insert(h.allocs, c.0), h.frees[..b] + c.1 + h.frees[b + 1..]),
            Some(c.0.pos));
    CarvedApart(h.allocs, h.frees, b, d);
    FreeCarved(h.size, h.allocs, h.frees, b, d);
  }

  /** Freeing the block carved out of free entry `b` restores both lists. */
  lemma FreeCarved(size: nat, allocs: seq<Record>, frees: seq<Record>, b: nat, d: nat)
    requires Ascending(allocs) && Separated(frees) && b < |frees| && d <= frees[b].size
    requires forall x :: x in allocs ==> Disjoint(x, Carve(frees[b], d).0)
    ensures var c := Carve(frees[b], d);
            var h' := HeapState(size, Insert(allocs, c.0), frees[..b] + c.1 + frees[b + 1..]);
            Owns(h', c.0.pos) && Free(h', Some(c.0.pos)) == HeapState(size, allocs, frees)
  {
    var c := Carve(frees[b], d);
    var t := Insert(allocs, c.0);
    FindInserted(allocs, c.0);
    RefreeCarve(frees, b, d);
    var i := FindPos(t, c.0.pos);
    assert t[i] == c.0 && t[..i] + t[i + 1..] == allocs;
  }

  // ---------------------------------------------------------------------------
  // Worked examples

  /** Best fit takes the entry that wastes least, not the first that fits, and of
      two entries that fit equally well, the earlier one. */
  lemma BestFitExamples()
    ensures BestFit([Record(24, 40), Record(88, 100), Record(212, 25)], 20) == Some(2)
    ensures BestFit([Record(24, 40), Record(88, 40)], 20) == Some(0)
    ensures BestFit([Record(24, 40), Record(88, 100)], 101) == None
  {
    assert [Record(24, 40), Record(88, 100), Record(212, 25)][..2]
        == [Record(24, 40), Record(88, 100)];
    assert [Record(24, 40), Record(88, 100)][..1] == [Record(24, 40)];
    assert [Record(24, 40), Record(88, 40)][..1] == [Record(24, 40)];
  }

  // A 1024-byte allocator: two allocations, the first freed, a smaller request that
  // reuses its block whole (the 10 bytes left over are too few to split off), then
  // everything freed, which merges the free list back into its first entry.

  /** The first two allocations split the initial entry and then its remainder. */
  lemma ExampleAllocs()
    ensures Create(1024) == HeapState(1024, [], [Record(24, 1000)])
    ensures Alloc(HeapState(1024, [], [Record(24, 1000)]), 100)
         == (HeapState(1024, [Record(24, 100)], [Record(148, 876)]), Some(24))
    ensures Alloc(HeapState(1024, [Record(24, 100)], [Record(148, 876)]), 200)
         == (HeapState(1024, [Record(24, 100), Record(148, 200)], [Record(372, 652)]), Some(148))
  {
    assert [Record(24, 1000)][..0] == [];
    assert BestFit([Record(24, 1000)], 100) == Some(0);
    assert Insert([], Record(24, 100)) == [Record(24, 100)];
    assert [Record(24, 1000)][..0] + [Record(148, 876)] + [Record(24, 1000)][1..]
        == [Record(148, 876)];
    assert [Record(148, 876)][..0] == [];
    assert BestFit([Record(148, 876)], 200) == Some(0);
    assert [Record(24, 100)][..1] + [Record(148, 200)] + [Record(24, 100)][1..]
        == [Record(24, 100), Record(148, 200)];
    assert [Record(148, 876)][..0] + [Record(372, 652)] + [Record(148, 876)][1..]
        == [Record(372, 652)];
  }

  /** Freeing the first block finds no neighbour to merge with; a request for 90 bytes
      then takes that block whole and hands back offset 24 again. */
  lemma ExampleReuse()
    ensures Owns(HeapState(1024, [Record(24, 100), Record(148, 200)], [Record(372, 652)]), 24)
    ensures Free(HeapState(1024, [Record(24, 100), Record(148, 200)], [Record(372, 652)]), Some(24))
         == HeapState(1024, [Record(148, 200)], [Record(24, 100), Record(372, 652)])
    ensures Alloc(HeapState(1024, [Record(148, 200)], [Record(24, 100), Record(372, 652)]), 90)
         == (HeapState(1024, [Record(24, 100), Record(148, 200)], [Record(372, 652)]), Some(24))
  {
    assert [Record(24, 100), Record(148, 200)][0].pos == 24;
    assert [Record(24, 100), Record(148, 200)][..0] + [Record(24, 100), Record(148, 200)][1..]
        == [Record(148, 200)];
    assert MergeWindow([Record(372, 652)], Record(24, 100)) == Merge(0, 0, Record(24, 100));
    assert [Record(372, 652)][..0] + [Record(24, 100)] + [Record(372, 652)][0..]
        == [Record(24, 100), Record(372, 652)];
    assert [Record(24, 100), Record(372, 652)][..1] == [Record(24, 100)];
    assert BestFit([Record(24, 100), Record(372, 652)], 90) == Some(0);
    assert [Record(24, 100), Record(372, 652)][..0] + [] + [Record(24, 100), Record(372, 652)][1..]
        == [Record(372, 652)];
    assert [Record(148, 200)][..0] + [Record(24, 100)] + [Record(148, 200)][0..]
        == [Record(24, 100), Record(148, 200)];
  }

  /** Freeing both blocks merges each forward, back into the single initial entry. */
  lemma ExampleFreeAll()
    ensures Owns(HeapState(1024, [Record(24, 100), Record(148, 200)], [Record(372, 652)]), 148)
    ensures Owns(HeapState(1024, [Record(24, 100)], [Record(148, 876)]), 24)
    ensures Free(HeapState(1024, [Record(24, 100), Record(148, 200)], [Record(372, 652)]), Some(148))
         == HeapState(1024, [Record(24, 100)], [Record(148, 876)])
    ensures Free(HeapState(1024, [Record(24, 100)], [Record(148, 876)]), Some(24))
         == Create(1024)
  {
    assert [Record(24, 100), Record(148, 200)][1].pos == 148;
    assert [Record(24, 100)][0].pos == 24;
    assert [Record(24, 100), Record(148, 200)][..1] + [Record(24, 100), Record(148, 200)][2..]
        == [Record(24, 100)];
    assert MergeWindow([Record(372, 652)], Record(148, 200)) == Merge(0, 1, Record(148, 876));
    assert [Record(372, 652)][..0] + [Record(148, 876)] + [Record(372, 652)][1..]
        == [Record(148, 876)];
    assert [Record(24, 100)][..0] + [Record(24, 100)][1..] == [];
    assert MergeWindow([Record(148, 876)], Record(24, 100)) == Merge(0, 1, Record(24, 1000));
    assert [Record(148, 876)][..0] + [Record(24, 1000)] + [Record(148, 876)][1..]
        == [Record(24, 1000)];
  }
}
