/** The integer bookkeeping of game.cpp: the entity table with its swap-remove pass,
    the state flag of an entity, the ring buffers of projectiles, chain circles,
    score dots and explosions, their active counts, and the grid scan that lays out
    a goon formation. Positions, colours, timers and everything else made of floats
    are left out; a slot's payload stands for its other fields as a whole. */
module Game {
  import opened Base

  const MAX_ENTITIES: int := 128
  const MAX_PROJECTILES: int := 256
  const MAX_CHAIN_CIRCLES: int := 256
  const MAX_SCORE_DOTS: int := 256
  const MAX_EXPLOSIONS: int := 8
  /** Size of `goon_local_positions` in `spawn_goon_formation`. */
  const MAX_FORMATION_GOONS: int := 128
  /** Hit points `spawn_goon_formation` gives the leader and every follower. */
  const GOON_HIT_POINTS: int := 2

  /** `Entity_Type`; `NoType` is `Entity_Type_None`, the zero value. */
  datatype EntityType = NoType | Player | Turret | Goon | ChainActivator

  /** `Entity_State`; `NoState` is `Entity_State_None`, the zero value. */
  datatype EntityState = NoState | Initial | Active | Waiting | Telegraphing

  /** The integer fields of `Entity_Base`. The C struct keeps the type twice, in the
      base and in the enclosing `Entity`; both copies are always set together, so
      there is one field here. */
  datatype Entity = Entity(
    index: int,
    id: int,
    kind: EntityType,
    initialHitPoints: int,
    hitPoints: int,
    hasEnteredState: bool,
    state: EntityState,
    shouldRemove: bool)

  /** `*entity = {}`. */
  const ZERO_ENTITY: Entity := Entity(0, 0, NoType, 0, 0, false, NoState, false)

  /** The entity `new_entity` makes in slot `k` with id `id`. */
  function Fresh(k: int, id: int, t: EntityType): (e: Entity)
    ensures e.index == k && e.id == id && e.kind == t && e.state == Initial
    ensures e.(index := 0, id := 0, kind := NoType, state := NoState) == ZERO_ENTITY
  {
    ZERO_ENTITY.(index := k, id := id, kind := t, state := Initial)
  }

  // The state flag.

  /** `entity_change_state`: the new state, not yet entered. Nothing else changes. */
  function ChangedState(e: Entity, s: EntityState): (r: Entity)
    ensures r.state == s && !r.hasEnteredState
    ensures r.(state := e.state, hasEnteredState := e.hasEnteredState) == e
  {
    e.(state := s, hasEnteredState := false)
  }

  /** `entity_enter_state`: answers whether the state had not been entered yet, and
      marks it entered. Nothing else changes. */
  function EnteredState(e: Entity): (r: (bool, Entity))
    ensures r.0 <==> !e.hasEnteredState
    ensures r.1.hasEnteredState && r.1.(hasEnteredState := e.hasEnteredState) == e
  {
    (!e.hasEnteredState, e.(hasEnteredState := true))
  }

  /** The answers of `k` successive calls of `entity_enter_state`. */
  function EnterAnswers(e: Entity, k: nat): (r: seq<bool>)
    ensures |r| == k
    decreases k
  {
    if k == 0 then [] else [EnteredState(e).0] + EnterAnswers(EnteredState(e).1, k - 1)
  }

  /** Once a state has been entered, every further call answers false. */
  lemma {:induction false} EnterAgain(e: Entity, k: nat)
    requires e.hasEnteredState
    ensures forall j :: 0 <= j < k ==> !EnterAnswers(e, k)[j]
  {
    if k > 0 {
      assert EnteredState(e).1 == e;
      EnterAgain(e, k - 1);
    }
  }

  /** After a change of state, the first call answers true and every later one false,
      until the next change. */
  lemma EnterOnce(e: Entity, s: EntityState, k: nat)
    requires k > 0
    ensures EnterAnswers(ChangedState(e, s), k)[0]
    ensures forall j :: 1 <= j < k ==> !EnterAnswers(ChangedState(e, s), k)[j]
  {
    var c := ChangedState(e, s);
    EnterAgain(EnteredState(c).1, k - 1);
    assert EnterAnswers(c, k) == [true] + EnterAnswers(EnteredState(c).1, k - 1);
  }

  // The removal pass.

  /** The `(table, count)` that `actually_remove_entities` leaves, from index `i` on:
      the `Loop` macro reads the count afresh before every step, so removals shorten
      the pass. A flagged entity is overwritten by the last one and the count drops;
      then the pass moves on, so the entity just copied in is not looked at. */
  function Sweep(a: seq<Entity>, n: nat, i: nat): (r: (seq<Entity>, nat))
    requires n <= |a|
    ensures |r.0| == |a| && r.1 <= n
    decreases n + 1 - i
  {
    if i >= n then (a, n)
    else if a[i].shouldRemove then Sweep(a[i := a[n - 1]], n - 1, i + 1)
    else Sweep(a, n, i + 1)
  }

  /** Overwriting slot `i` with the last live entity and dropping the last leaves the
      live entities less the one at `i`. */
  lemma SwapRemove(a: seq<Entity>, n: nat, i: nat)
    requires i < n <= |a|
    ensures multiset(a[i := a[n - 1]][..n - 1]) == multiset(a[..n]) - multiset{a[i]}
  {
    assert a[..n] == a[..n - 1] + [a[n - 1]];
    if i < n - 1 {
      assert a[i := a[n - 1]][..n - 1] == a[..n - 1][i := a[n - 1]];
    } else {
      assert a[i := a[n - 1]][..n - 1] == a[..n - 1];
    }
  }

  /** The two sequences hold every unflagged entity equally often. */
  predicate SameUnflagged(x: seq<Entity>, y: seq<Entity>) {
    multiset(Unflagged(x)) == multiset(Unflagged(y))
  }

  /** Removing a flagged entity keeps the count of every unflagged one, so whatever
      kept the unflagged counts of the shortened table kept those of the table. */
  lemma SwapRemoveKeeps(a: seq<Entity>, n: nat, i: nat, b: seq<Entity>, x: seq<Entity>)
    requires i < n <= |a| && a[i].shouldRemove && b == a[i := a[n - 1]]
    requires SameUnflagged(x, b[..n - 1])
    ensures SameUnflagged(x, a[..n])
  {
    SwapRemove(a, n, i);
    UnflaggedCounts(b[..n - 1]);
    UnflaggedCounts(a[..n]);
    assert multiset(Unflagged(b[..n - 1])) == multiset(Unflagged(a[..n]));
  }

  /** Every entity that is not flagged is still live afterwards, as often as before:
      the pass only ever drops flagged entities. */
  lemma {:induction false} SweepKeeps(a: seq<Entity>, n: nat, i: nat, r: (seq<Entity>, nat))
    requires n <= |a| && r == Sweep(a, n, i)
    ensures r.1 <= |r.0| && SameUnflagged(r.0[..r.1], a[..n])
    decreases n + 1 - i
  {
    if i < n {
      if a[i].shouldRemove {
        var b := a[i := a[n - 1]];
        SweepKeeps(b, n - 1, i + 1, r);
        SwapRemoveKeeps(a, n, i, b, r.0[..r.1]);
      } else {
        SweepKeeps(a, n, i + 1, r);
      }
    }
  }

  /** Two flagged entities: the first is overwritten by the second, which is then not
      looked at and stays live, still flagged and with its old `index`. */
  lemma SweepSkipsCopiedIn()
    ensures var a := [Entity(0, 7, Goon, 2, 0, true, Active, true),
                      Entity(1, 8, Goon, 2, 0, true, Active, true)];
            var r := Sweep(a, 2, 0);
            r.1 == 1 && r.0[0].shouldRemove && r.0[0].id == 8 && r.0[0].index == 1
  {
    var a := [Entity(0, 7, Goon, 2, 0, true, Active, true),
              Entity(1, 8, Goon, 2, 0, true, Active, true)];
    assert Sweep(a, 2, 0) == Sweep(a[0 := a[1]], 1, 1);
  }

  /** The pass with the evident intent: after a swap the same index is looked at
      again, so the entity copied in is examined too. */
  function SweepAll(a: seq<Entity>, n: nat, i: nat): (r: (seq<Entity>, nat))
    requires i <= n <= |a|
    ensures |r.0| == |a| && r.1 <= n
    decreases n - i
  {
    if i == n then (a, n)
    else if a[i].shouldRemove then SweepAll(a[i := a[n - 1]], n - 1, i)
    else SweepAll(a, n, i + 1)
  }

  /** The entities of `s` that are not flagged, in order. */
  function Unflagged(s: seq<Entity>): (r: seq<Entity>)
    ensures forall k :: 0 <= k < |r| ==> !r[k].shouldRemove
  {
    if s == [] then []
    else Unflagged(s[..|s| - 1]) + (if s[|s| - 1].shouldRemove then [] else [s[|s| - 1]])
  }

  lemma {:induction false} UnflaggedCounts(s: seq<Entity>)
    ensures forall e: Entity :: multiset(Unflagged(s))[e] == if e.shouldRemove then 0 else multiset(s)[e]
  {
    if s != [] {
      UnflaggedCounts(s[..|s| - 1]);
      assert s == s[..|s| - 1] + [s[|s| - 1]];
    }
  }

  /** With the re-examination, no flagged entity survives. */
  lemma {:induction false} SweepAllClean(a: seq<Entity>, n: nat, i: nat)
    requires i <= n <= |a|
    requires forall k :: 0 <= k < i ==> !a[k].shouldRemove
    ensures forall k :: 0 <= k < SweepAll(a, n, i).1 ==> !SweepAll(a, n, i).0[k].shouldRemove
    decreases n - i
  {
    if i < n {
      if a[i].shouldRemove {
        var b := a[i := a[n - 1]];
        assert forall k :: 0 <= k < i ==> b[k] == a[k];
        SweepAllClean(b, n - 1, i);
      } else {
        SweepAllClean(a, n, i + 1);
      }
    }
  }

  /** The corrected pass keeps every unflagged entity as often as before. */
  lemma {:induction false} SweepAllKeeps(a: seq<Entity>, n: nat, i: nat, r: (seq<Entity>, nat))
    requires i <= n <= |a| && r == SweepAll(a, n, i)
    ensures r.1 <= |r.0| && SameUnflagged(r.0[..r.1], a[..n])
    decreases n - i
  {
    if i < n {
      if a[i].shouldRemove {
        var b := a[i := a[n - 1]];
        SweepAllKeeps(b, n - 1, i, r);
        SwapRemoveKeeps(a, n, i, b, r.0[..r.1]);
      } else {
        SweepAllKeeps(a, n, i + 1, r);
      }
    }
  }

  /** A sequence with no flagged entity that holds every unflagged entity of `s` as
      often as `s` does is a permutation of the filtered `s`. */
  lemma FilterPermutation(x: seq<Entity>, s: seq<Entity>)
    requires forall k :: 0 <= k < |x| ==> !x[k].shouldRemove
    requires SameUnflagged(x, s)
    ensures multiset(x) == multiset(Unflagged(s))
  {
    UnflaggedCounts(x);
    forall e: Entity ensures multiset(x)[e] == multiset(Unflagged(x))[e] {
      if e.shouldRemove {
        assert e !in x;
      }
    }
  }

  /** The corrected pass leaves exactly the unflagged entities, in some order. */
  lemma SweepAllIsFilter(a: seq<Entity>, n: nat)
    requires n <= |a|
    ensures multiset(SweepAll(a, n, 0).0[..SweepAll(a, n, 0).1]) == multiset(Unflagged(a[..n]))
  {
    var r := SweepAll(a, n, 0);
    SweepAllClean(a, n, 0);
    SweepAllKeeps(a, n, 0, r);
    FilterPermutation(r.0[..r.1], a[..n]);
  }

  // Grids of formations, row-major with `w` cells per row.

  /** The next row starts one row further on, and a row below the last lies inside
      the grid. */
  lemma NextRow(w: nat, h: nat, y: nat)
    requires y < h
    ensures (y + 1) * w == y * w + w && y * w + w <= w * h
  {
    if w > 0 {
      MulMono(w, y + 1, h);
    }
  }

  /** A follower cell: neither empty (`.`) nor the leader (`#`). */
  predicate IsFollower(c: char) {
    c != '.' && c != '#'
  }

  /** The leader scan of `spawn_goon_formation`: the first `#` in row-major order, or
      the cell (0, 0) when there is none. */
  method FindLeader(f: seq<char>, w: nat, h: nat) returns (lx: nat, ly: nat)
    requires w * h <= |f|
    ensures (exists k :: 0 <= k < w * h && f[k] == '#') ==>
              lx < w && ly < h && ly * w + lx < w * h && f[ly * w + lx] == '#'
              && forall k :: 0 <= k < ly * w + lx ==> f[k] != '#'
    ensures (forall k :: 0 <= k < w * h ==> f[k] != '#') ==> lx == 0 && ly == 0
  {
    lx, ly := 0, 0;
    var y, row := 0, 0;
    while y < h
      invariant y <= h && row == y * w && row <= w * h && lx == 0 && ly == 0
      invariant forall k :: 0 <= k < row ==> f[k] != '#'
    {
      NextRow(w, h, y);
      var x := 0;
      while x < w
        invariant x <= w
        invariant forall k :: 0 <= k < row + x ==> f[k] != '#'
      {
        if f[row + x] == '#' {
          lx, ly := x, y;
          return;
        }
        x := x + 1;
      }
      y, row := y + 1, row + w;
    }
    if h > 0 {
      NextRow(w, h, h - 1);
    }
  }

  /** The follower count of `spawn_goon_formation`: the cells that are neither `.`
      nor `#`. */
  method CountFollowers(f: seq<char>, w: nat, h: nat) returns (n: int)
    requires w * h <= |f|
    ensures n == Count(f[..w * h], IsFollower) && 0 <= n <= w * h
  {
    n := 0;
    var y, row := 0, 0;
    while y < h
      invariant y <= h && row == y * w && row <= w * h && n == Count(f[..row], IsFollower)
    {
      NextRow(w, h, y);
      n := CountRow(f, row, w, n);
      y, row := y + 1, row + w;
    }
    assert row == h * w == w * h;
  }

  /** The inner loop of the follower count: adds the followers among the `w` cells
      from `start` to the count of those before it. */
  method CountRow(f: seq<char>, start: nat, w: nat, n0: int) returns (n: int)
    requires start + w <= |f| && n0 == Count(f[..start], IsFollower)
    ensures n == Count(f[..start + w], IsFollower)
  {
    n := n0;
    var at := start;
    while at < start + w
      invariant start <= at <= start + w && n == Count(f[..at], IsFollower)
    {
      CountPrefix(f, at, IsFollower);
      if IsFollower(f[at]) {
        n := n + 1;
      }
      at := at + 1;
    }
  }

  /** `Game_State`'s entity table. */
  class EntityTable {
    const entities: array<Entity>
    var count: int
    var nextId: int

    predicate Valid()
      reads this
    {
      entities.Length == MAX_ENTITIES && 0 <= count <= MAX_ENTITIES
    }

    /** A zero-initialised table, as the global game state starts out. */
    constructor Zeroed()
      ensures Valid() && fresh(entities) && count == 0 && nextId == 0
      ensures forall k :: 0 <= k < MAX_ENTITIES ==> entities[k] == ZERO_ENTITY
    {
      entities := new Entity[MAX_ENTITIES](_ => ZERO_ENTITY);
      count := 0;
      nextId := 0;
    }

    /** `new_entity(type)`: the C code asserts a free slot, fills slot `count` with a
        zeroed entity of that type whose index is its slot and whose id is the next
        id, in state `Initial`, and counts both up. */
    method NewEntity(t: EntityType) returns (k: int)
      requires Valid() && count < MAX_ENTITIES
      modifies this, entities
      ensures Valid() && k == old(count) && count == k + 1 && nextId == old(nextId) + 1
      ensures entities[..] == old(entities[..])[k := Fresh(k, old(nextId), t)]
    {
      k := count;
      entities[k] := Fresh(k, nextId, t);
      count := count + 1;
      nextId := nextId + 1;
    }

    /** `actually_remove_entities`. */
    method ActuallyRemoveEntities()
      requires Valid()
      modifies this, entities
      ensures Valid() && nextId == old(nextId)
      ensures (entities[..], count) == Sweep(old(entities[..]), old(count), 0)
    {
      var i := 0;
      while i < count
        invariant 0 <= count <= old(count) && i <= count + 1 && nextId == old(nextId)
        invariant Sweep(entities[..], count, i) == Sweep(old(entities[..]), old(count), 0)
        decreases count + 1 - i
      {
        if entities[i].shouldRemove {
          entities[i] := entities[count - 1];
          count := count - 1;
        }
        i := i + 1;
      }
    }

    /** The removal pass as evidently intended: a slot that received the last entity
        is examined again before the pass moves on. */
    method RemoveFlaggedEntities()
      requires Valid()
      modifies this, entities
      ensures Valid() && nextId == old(nextId)
      ensures (entities[..], count) == SweepAll(old(entities[..]), old(count), 0)
    {
      var i := 0;
      while i < count
        invariant 0 <= i <= count <= old(count) && nextId == old(nextId)
        invariant SweepAll(entities[..], count, i) == SweepAll(old(entities[..]), old(count), 0)
        decreases count - i
      {
        if entities[i].shouldRemove {
          entities[i] := entities[count - 1];
          count := count - 1;
        } else {
          i := i + 1;
        }
      }
    }

    /** `entity_change_state` on the entity in slot `i`. */
    method ChangeState(i: int, s: EntityState)
      requires Valid() && 0 <= i < count
      modifies entities
      ensures entities[..] == old(entities[..])[i := ChangedState(old(entities[i]), s)]
    {
      entities[i] := ChangedState(entities[i], s);
    }

    /** `entity_enter_state` on the entity in slot `i`. */
    method EnterState(i: int) returns (r: bool)
      requires Valid() && 0 <= i < count
      modifies entities
      ensures (r, entities[i]) == EnteredState(old(entities[i]))
      ensures entities[..] == old(entities[..])[i := entities[i]]
    {
      r := !entities[i].hasEnteredState;
      entities[i] := entities[i].(hasEnteredState := true);
    }

    /** The bookkeeping of `spawn_goon_formation`: scans for the leader, counts the
        followers (the C code keeps their offsets in a 128-element array and does not
        check the count), then creates the leader and one goon per follower, each with
        2 hit points. Answers the leader's cell. */
    method SpawnGoonFormation(f: seq<char>, w: nat, h: nat) returns (lx: nat, ly: nat)
      requires Valid() && w * h <= |f|
      requires Count(f[..w * h], IsFollower) <= MAX_FORMATION_GOONS
      requires count + 1 + Count(f[..w * h], IsFollower) <= MAX_ENTITIES
      modifies this, entities
      ensures Valid()
      ensures count == old(count) + 1 + Count(f[..w * h], IsFollower)
      ensures nextId == old(nextId) + count - old(count)
      ensures forall k :: 0 <= k < MAX_ENTITIES ==>
                entities[k] == if old(count) <= k < count
                               then Formed(k, old(nextId) + k - old(count))
                               else old(entities[k])
    {
      lx, ly := FindLeader(f, w, h);
      var goons := CountFollowers(f, w, h);
      var c0 := count;
      NewFormed();
      var i := 0;
      while i < goons
        invariant 0 <= i <= goons && Valid() && count == c0 + 1 + i
        invariant nextId == old(nextId) + count - c0
        invariant forall k :: 0 <= k < MAX_ENTITIES ==>
                    entities[k] == if c0 <= k < count then Formed(k, old(nextId) + k - c0)
                                   else old(entities[k])
      {
        NewFormed();
        i := i + 1;
      }
    }

    /** One goon of a formation: `entity_new` followed by `entity_set_hit_points`. */
    method NewFormed()
      requires Valid() && count < MAX_ENTITIES
      modifies this, entities
      ensures Valid() && count == old(count) + 1 && nextId == old(nextId) + 1
      ensures entities[..] == old(entities[..])[old(count) := Formed(old(count), old(nextId))]
    {
      var k := NewEntity(Goon);
      entities[k] := Formed(k, nextId - 1);
    }
  }

  /** A goon of a formation in slot `k` with id `id`: a fresh goon given its hit
      points by `entity_set_hit_points`. */
  function Formed(k: int, id: int): (e: Entity)
    ensures e == Fresh(k, id, Goon).(initialHitPoints := GOON_HIT_POINTS,
                                     hitPoints := GOON_HIT_POINTS)
  {
    Entity(k, id, Goon, GOON_HIT_POINTS, GOON_HIT_POINTS, false, Initial, false)
  }

  // Ring buffers.

  /** A slot of one of the ring buffers: its other fields as one payload, and
      `is_active`. */
  datatype Slot = Slot(payload: int, isActive: bool)

  /** The zero value of a slot's payload. */
  const ZERO_PAYLOAD: int := 0

  predicate IsActive(s: Slot) {
    s.isActive
  }

  /** The number of active slots. */
  function ActiveCount(s: seq<Slot>): (n: nat)
    ensures n <= |s|
  {
    Count(s, IsActive)
  }

  /** Writing an active slot adds one to the active count when the slot it replaces was
      inactive, and nothing when the ring has wrapped onto a slot still active. */
  lemma SpawnActiveCount(s: seq<Slot>, i: nat, payload: int)
    requires i < |s|
    ensures ActiveCount(s[i := Slot(payload, true)])
            == ActiveCount(s) + (if s[i].isActive then 0 else 1)
  {
    CountUpdate(s, i, Slot(payload, true), IsActive);
  }

  /** Starting from index `k`, the `j`-th spawn writes slot `(k + j) % cap`, so `cap`
      spawns in a row write every slot once. */
  function SpawnSlot(k: nat, j: nat, cap: nat): (r: nat)
    requires cap > 0
    ensures r < cap
  {
    (k + j) % cap
  }

  /** After the `j`-th spawn, `next` has advanced to the slot of the `j + 1`-th. */
  lemma SpawnSlotNext(k: nat, j: nat, cap: nat)
    requires cap > 0
    ensures (SpawnSlot(k, j, cap) + 1) % cap == SpawnSlot(k, j + 1, cap)
  {
    var q, r := (k + j) / cap, (k + j) % cap;
    if r + 1 < cap {
      DivModUnique(k + j + 1, cap, q, r + 1);
      DivModUnique(r + 1, cap, 0, r + 1);
    } else {
      DivModUnique(k + j + 1, cap, q + 1, 0);
      DivModUnique(r + 1, cap, 1, 0);
    }
  }

  lemma SpawnSlotsCover(k: nat, cap: nat, i: nat)
    requires cap > 0 && k < cap && i < cap
    ensures exists j :: 0 <= j < cap && SpawnSlot(k, j, cap) == i
  {
    if i >= k {
      DivModUnique(k + (i - k), cap, 0, i);
      assert SpawnSlot(k, i - k, cap) == i;
    } else {
      var j := cap - k + i;
      assert k + j == i + cap;
      DivModUnique(k + j, cap, 1, i);
      assert SpawnSlot(k, j, cap) == i;
    }
  }

  /** One ring buffer of `Game_State`: its slots, the next index to write and the
      active count. */
  class Ring {
    const slots: array<Slot>
    var next: int
    var activeCount: int

    predicate Valid()
      reads this
    {
      0 <= next < slots.Length
    }

    /** Every slot is zeroed and inactive, and both indices are 0. */
    predicate IsZeroed()
      reads this, slots
    {
      next == 0 && activeCount == 0
      && forall k :: 0 <= k < slots.Length ==> slots[k] == Slot(ZERO_PAYLOAD, false)
    }

    /** A zero-initialised ring of `cap` slots. */
    constructor Zeroed(cap: int)
      requires cap > 0
      ensures Valid() && fresh(slots) && slots.Length == cap && next == 0 && activeCount == 0
      ensures forall k :: 0 <= k < cap ==> slots[k] == Slot(ZERO_PAYLOAD, false)
    {
      slots := new Slot[cap](_ => Slot(ZERO_PAYLOAD, false));
      next := 0;
      activeCount := 0;
    }

    /** The spawners' index logic: writes slot `next` as an active slot, then advances
        `next` by one modulo the capacity. No other slot changes. */
    method Spawn(payload: int) returns (at: int)
      requires Valid()
      modifies this, slots
      ensures Valid() && at == old(next) && next == (old(next) + 1) % slots.Length
      ensures slots[..] == old(slots[..])[at := Slot(payload, true)]
      ensures activeCount == old(activeCount)
    {
      at := next;
      slots[at] := Slot(payload, true);
      next := next + 1;
      next := next % slots.Length;
    }

    /** Successive spawns into this ring, as successive calls of one spawner make
        them: the `j`-th writes slot `SpawnSlot(next, j, capacity)`, every slot
        written is active afterwards and no other slot changes, so a whole
        capacity's worth of spawns leaves every slot active. */
    method SpawnRun(payloads: seq<int>) returns (written: seq<int>)
      requires Valid()
      modifies this, slots
      ensures Valid() && activeCount == old(activeCount)
      ensures |written| == |payloads| && next == SpawnSlot(old(next), |payloads|, slots.Length)
      ensures forall j :: 0 <= j < |written| ==>
                written[j] == SpawnSlot(old(next), j, slots.Length) && slots[written[j]].isActive
      ensures forall i :: 0 <= i < slots.Length && i !in written ==> slots[i] == old(slots[i])
      ensures |payloads| == slots.Length ==> forall i :: 0 <= i < slots.Length ==> slots[i].isActive
    {
      var k, cap := next, slots.Length;
      DivModUnique(k, cap, 0, k);
      written := [];
      while |written| < |payloads|
        invariant Valid() && activeCount == old(activeCount) && |written| <= |payloads|
        invariant next == SpawnSlot(k, |written|, cap)
        invariant forall j :: 0 <= j < |written| ==> written[j] == SpawnSlot(k, j, cap)
        invariant forall j :: 0 <= j < |written| ==> 0 <= written[j] < cap && slots[written[j]].isActive
        invariant forall i :: 0 <= i < cap && i !in written ==> slots[i] == old(slots[i])
        decreases |payloads| - |written|
      {
        SpawnSlotNext(k, |written|, cap);
        var at := Spawn(payloads[|written|]);
        written := written + [at];
      }
      if |payloads| == cap {
        forall i | 0 <= i < cap ensures slots[i].isActive {
          SpawnSlotsCover(k, cap, i);
          var j :| 0 <= j < cap && SpawnSlot(k, j, cap) == i;
          assert written[j] == i;
        }
      }
    }

    /** One loop of `count_active_game_objects`: the active count is recomputed from
        the slots. */
    method CountActive()
      requires Valid()
      modifies this
      ensures Valid() && next == old(next)
      ensures activeCount == ActiveCount(slots[..]) && activeCount <= slots.Length
    {
      activeCount := 0;
      var i := 0;
      while i < slots.Length
        invariant 0 <= i <= slots.Length && next == old(next)
        invariant activeCount == ActiveCount(slots[..i])
      {
        CountPrefix(slots[..], i, IsActive);
        assert slots[..][..i + 1] == slots[..i + 1];
        assert slots[..][..i] == slots[..i];
        if slots[i].isActive {
          activeCount := activeCount + 1;
        }
        i := i + 1;
      }
      assert slots[..i] == slots[..];
    }
  }

  /** The parts of `Game_State` modelled here. */
  class GameState {
    const table: EntityTable
    const projectiles: Ring
    const chainCircles: Ring
    const scoreDots: Ring
    const explosions: Ring

    predicate Valid()
      reads this, table, projectiles, chainCircles, scoreDots, explosions
    {
      table.Valid()
      && projectiles.Valid() && projectiles.slots.Length == MAX_PROJECTILES
      && chainCircles.Valid() && chainCircles.slots.Length == MAX_CHAIN_CIRCLES
      && scoreDots.Valid() && scoreDots.slots.Length == MAX_SCORE_DOTS
      && explosions.Valid() && explosions.slots.Length == MAX_EXPLOSIONS
      && projectiles != chainCircles && projectiles != scoreDots && projectiles != explosions
      && chainCircles != scoreDots && chainCircles != explosions && scoreDots != explosions
      && projectiles.slots != chainCircles.slots && projectiles.slots != scoreDots.slots
      && chainCircles.slots != scoreDots.slots
    }

    /** The zero-initialised global game state. */
    constructor Zeroed()
      ensures Valid() && table.count == 0 && table.nextId == 0
      ensures fresh(table) && fresh(table.entities)
      ensures forall k :: 0 <= k < MAX_ENTITIES ==> table.entities[k] == ZERO_ENTITY
      ensures fresh(projectiles) && fresh(projectiles.slots) && projectiles.IsZeroed()
      ensures fresh(chainCircles) && fresh(chainCircles.slots) && chainCircles.IsZeroed()
      ensures fresh(scoreDots) && fresh(scoreDots.slots) && scoreDots.IsZeroed()
      ensures fresh(explosions) && fresh(explosions.slots) && explosions.IsZeroed()
    {
      table := new EntityTable.Zeroed();
      projectiles := new Ring.Zeroed(MAX_PROJECTILES);
      chainCircles := new Ring.Zeroed(MAX_CHAIN_CIRCLES);
      scoreDots := new Ring.Zeroed(MAX_SCORE_DOTS);
      explosions := new Ring.Zeroed(MAX_EXPLOSIONS);
    }

    /** `new_projectile`: a zeroed, active slot; the caller fills in the rest. */
    method NewProjectile() returns (at: int)
      requires Valid()
      modifies projectiles, projectiles.slots
      ensures Valid() && at == old(projectiles.next)
      ensures projectiles.next == (at + 1) % MAX_PROJECTILES
      ensures projectiles.slots[..] == old(projectiles.slots[..])[at := Slot(ZERO_PAYLOAD, true)]
      ensures projectiles.activeCount == old(projectiles.activeCount)
      ensures unchanged(chainCircles.slots, scoreDots.slots, explosions.slots)
    {
      at := projectiles.Spawn(ZERO_PAYLOAD);
    }

    /** `spawn_chain_circle`: a zeroed slot given its position and target radius. */
    method SpawnChainCircle(payload: int)
      requires Valid()
      modifies chainCircles, chainCircles.slots
      ensures Valid() && chainCircles.next == (old(chainCircles.next) + 1) % MAX_CHAIN_CIRCLES
      ensures chainCircles.slots[..]
              == old(chainCircles.slots[..])[old(chainCircles.next) := Slot(payload, true)]
      ensures chainCircles.activeCount == old(chainCircles.activeCount)
      ensures unchanged(projectiles.slots, scoreDots.slots, explosions.slots)
    {
      var _ := chainCircles.Spawn(payload);
    }

    /** `spawn_score_dot`: the slot is written whole from its position and blink flag. */
    method SpawnScoreDot(payload: int)
      requires Valid()
      modifies scoreDots, scoreDots.slots
      ensures Valid() && scoreDots.next == (old(scoreDots.next) + 1) % MAX_SCORE_DOTS
      ensures scoreDots.slots[..]
              == old(scoreDots.slots[..])[old(scoreDots.next) := Slot(payload, true)]
      ensures scoreDots.activeCount == old(scoreDots.activeCount)
      ensures unchanged(projectiles.slots, chainCircles.slots, explosions.slots)
    {
      var _ := scoreDots.Spawn(payload);
    }

    /** `spawn_explosion`: the slot is not zeroed, but every field of `Explosion` is
        assigned, so the slot is written whole all the same. */
    method SpawnExplosion(payload: int)
      requires Valid()
      modifies explosions, explosions.slots
      ensures Valid() && explosions.next == (old(explosions.next) + 1) % MAX_EXPLOSIONS
      ensures explosions.slots[..]
              == old(explosions.slots[..])[old(explosions.next) := Slot(payload, true)]
      ensures explosions.activeCount == old(explosions.activeCount)
      ensures unchanged(projectiles.slots, chainCircles.slots, scoreDots.slots)
    {
      var _ := explosions.Spawn(payload);
    }

    /** `count_active_game_objects`: every active count is the number of active slots
        in its ring, so at most the ring's capacity. */
    method CountActiveGameObjects()
      requires Valid()
      modifies projectiles, chainCircles, scoreDots, explosions
      ensures Valid()
      ensures projectiles.activeCount == ActiveCount(projectiles.slots[..]) <= MAX_PROJECTILES
      ensures chainCircles.activeCount == ActiveCount(chainCircles.slots[..]) <= MAX_CHAIN_CIRCLES
      ensures scoreDots.activeCount == ActiveCount(scoreDots.slots[..]) <= MAX_SCORE_DOTS
      ensures explosions.activeCount == ActiveCount(explosions.slots[..]) <= MAX_EXPLOSIONS
      ensures projectiles.next == old(projectiles.next) && chainCircles.next == old(chainCircles.next)
      ensures scoreDots.next == old(scoreDots.next) && explosions.next == old(explosions.next)
    {
      projectiles.CountActive();
      chainCircles.CountActive();
      scoreDots.CountActive();
      explosions.CountActive();
    }
  }
}
