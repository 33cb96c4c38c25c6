/**
 The entity component system: archetypes with pairwise distinct component lists, each with a
 growing array of entity slots, a FIFO list of slots to use again, and one arena per entity.
*/
module Ecs {
  import opened Machine
  import FreeQueue

  const MAX_COMPONENT: nat := 512
  const ECS_COMP_SIZE: nat := 10

  datatype Status = Success | OutOfMemory | InvalidHandle | InvalidEntity | NotFound | Panicked

  // ---- Handles ----

  /** (u64)archeType << 32 | entity, for 32-bit parts. */
  function EncodeHandle(archeType: nat, entity: nat): nat
    requires archeType < TWO_32 && entity < TWO_32
  {
    archeType * TWO_32 + entity
  }

  function DecodeHandle(handle: nat): (nat, nat) {
    (handle / TWO_32 % TWO_32, handle % TWO_32)
  }

  lemma HandleRoundTrip(a: nat, e: nat)
    requires a < TWO_32 && e < TWO_32
    ensures EncodeHandle(a, e) < TWO_64 && DecodeHandle(EncodeHandle(a, e)) == (a, e)
    ensures EncodeHandle(a, e) % 0x1_0000_0000 == e && EncodeHandle(a, e) / 0x1_0000_0000 == a
  {
  }

  // ---- Arenas ----

  datatype Arena = Arena(base: nat, size: nat, used: nat)

  /** Pushing takes the next bytes of the arena; address 0 says that there are not enough. */
  function Push(arena: Arena, size: nat): (r: (Arena, nat)) {
    if arena.base == 0 || (arena.used + size) % TWO_64 > arena.size then (arena, 0)
    else (arena.(used := arena.used + size), arena.base + arena.used)
  }

  /** The sizes of the first n components together. */
  function SizeOf(sizes: seq<nat>, components: seq<nat>, n: nat): nat
    requires n <= |components| && forall i | 0 <= i < |components| :: components[i] < |sizes|
  {
    if n == 0 then 0 else SizeOf(sizes, components, n - 1) + sizes[components[n - 1]]
  }

  lemma {:induction false} SizeGrows(sizes: seq<nat>, components: seq<nat>, n: nat, m: nat)
    requires n <= m <= |components| && forall i | 0 <= i < |components| :: components[i] < |sizes|
    ensures SizeOf(sizes, components, n) <= SizeOf(sizes, components, m)
  {
    if n < m { SizeGrows(sizes, components, n, m - 1); }
  }

  /** The components tile the arena: each starts where the one before it ends, and the last ends with it. */
  ghost predicate Tiled(sizes: seq<nat>, components: seq<nat>, arena: Arena, addresses: seq<nat>)
    requires forall i | 0 <= i < |components| :: components[i] < |sizes|
  {
    && |addresses| == |components|
    && arena.used == arena.size == SizeOf(sizes, components, |components|)
    && forall i | 0 <= i < |components| :: addresses[i] == arena.base + SizeOf(sizes, components, i)
  }

  /** So no two components share a byte, and none leaves the arena. */
  lemma ComponentsApart(sizes: seq<nat>, components: seq<nat>, arena: Arena, addresses: seq<nat>, i: nat, j: nat)
    requires forall k | 0 <= k < |components| :: components[k] < |sizes|
    requires Tiled(sizes, components, arena, addresses) && i < j < |components|
    ensures addresses[i] + sizes[components[i]] <= addresses[j]
    ensures arena.base <= addresses[i] && addresses[j] + sizes[components[j]] <= arena.base + arena.size
  {
    SizeGrows(sizes, components, i + 1, j);
    SizeGrows(sizes, components, j + 1, |components|);
  }

  lemma InArena(sizes: seq<nat>, components: seq<nat>, arena: Arena, addresses: seq<nat>, i: nat)
    requires forall k | 0 <= k < |components| :: components[k] < |sizes|
    requires Tiled(sizes, components, arena, addresses) && i < |components|
    ensures arena.base <= addresses[i] && addresses[i] + sizes[components[i]] <= arena.base + arena.size
  {
    SizeGrows(sizes, components, i + 1, |components|);
  }

  /** New components do not move the old ones. */
  lemma {:induction false} SizeOfSame(sizes: seq<nat>, more: seq<nat>, next: nat, components: seq<nat>, n: nat)
    requires |sizes| == |more| && forall i | 0 <= i < |sizes| && i != next :: more[i] == sizes[i]
    requires n <= |components| && forall i | 0 <= i < |components| :: components[i] < next && components[i] < |sizes|
    ensures SizeOf(more, components, n) == SizeOf(sizes, components, n)
  {
    if n > 0 { SizeOfSame(sizes, more, next, components, n - 1); }
  }

  // ---- State ----

  datatype Entity = Entity(types: seq<nat>, arena: Arena, addresses: seq<nat>, alive: bool)

  const BLANK: Entity := Entity([], Arena(0, 0, 0), [], false)

  /** `entities` is the array with all its capacity, or empty when it is NULL; `free` is the FIFO list. */
  datatype ArcheType = ArcheType(components: seq<nat>, entities: seq<Entity>, capacity: nat, index: nat, free: seq<nat>)

  /** A live entity has the components of its archetype, and they tile its arena. */
  ghost predicate EntityOk(sizes: seq<nat>, next: nat, components: seq<nat>, ent: Entity) {
    && ent.types == components
    && (forall i | 0 <= i < |components| :: components[i] < next && components[i] < |sizes|)
    && Tiled(sizes, components, ent.arena, ent.addresses)
  }

  lemma LaidOut(sizes: seq<nat>, next: nat, components: seq<nat>, ent: Entity)
    requires forall i | 0 <= i < |components| :: components[i] < next && components[i] < |sizes|
    requires ent.types == components
    ensures Tiled(sizes, components, ent.arena, ent.addresses) ==> EntityOk(sizes, next, components, ent)
  {
  }

  lemma EntityStaysOk(sizes: seq<nat>, more: seq<nat>, next: nat, components: seq<nat>, ent: Entity)
    requires EntityOk(sizes, next, components, ent)
    requires |sizes| == |more| && forall i | 0 <= i < |sizes| && i != next :: more[i] == sizes[i]
    ensures EntityOk(more, next + 1, components, ent)
  {
    SizeOfSame(sizes, more, next, components, |components|);
    forall i | 0 <= i < |components| ensures SizeOf(more, components, i) == SizeOf(sizes, components, i) {
      SizeOfSame(sizes, more, next, components, i);
    }
  }

  /** The free list holds distinct dead slots below the index. */
  predicate ArcheTypeOk(a: ArcheType) {
    && |a.entities| == a.capacity && a.index <= a.capacity && a.index < TWO_32
    && |a.components| <= ECS_COMP_SIZE && Distinct(a.free)
    && forall i | 0 <= i < |a.free| :: FreeSlot(a, a.free[i])
  }

  predicate FreeSlot(a: ArcheType, e: nat) {
    e < a.index <= |a.entities| && !a.entities[e].alive
  }

  /** The slot that the next entity takes. */
  function NextSlot(a: ArcheType): nat {
    if a.free != [] then a.free[0] else a.index
  }

  /** The slots that wait to be used again, and the slots used so far, once the next one has been taken. */
  predicate SlotUsed(was: ArcheType, now: ArcheType) {
    if was.free != [] then now.free == was.free[1..] && now.index == was.index
    else now.free == [] && now.index == was.index + 1
  }

  /** An array three times as long, or of 15 slots; what is in the old slots stays. */
  function Grown(a: ArcheType): ArcheType {
    var capacity := if a.capacity == 0 then 15 else a.capacity * 3;
    var more := if capacity > |a.entities| then capacity - |a.entities| else 0;
    a.(entities := a.entities + seq(more, _ => BLANK), capacity := capacity)
  }

  lemma GrownOk(a: ArcheType)
    requires ArcheTypeOk(a)
    ensures ArcheTypeOk(Grown(a))
    ensures forall e | 0 <= e < a.index :: Grown(a).entities[e] == a.entities[e]
    ensures Grown(a).capacity == if a.capacity == 0 then 15 else 3 * a.capacity
    ensures a.index == a.capacity ==> Grown(a).index < Grown(a).capacity
  {
  }

  /** The archetype after the next slot has been taken and holds `entity`. */
  function Taken(a: ArcheType, entity: Entity): ArcheType
    requires ArcheTypeOk(a) && a.index < a.capacity
  {
    assert a.free != [] ==> FreeSlot(a, a.free[0]);
    if a.free != [] then a.(free := a.free[1..], entities := a.entities[a.free[0] := entity])
    else a.(index := a.index + 1, entities := a.entities[a.index := entity])
  }

  /** Taking a slot disturbs no live entity: the slot was dead or new, and it leaves the free list. */
  lemma TakenOk(a: ArcheType, entity: Entity)
    requires ArcheTypeOk(a) && a.index < a.capacity && a.index + 1 < TWO_32
    ensures ArcheTypeOk(Taken(a, entity))
    ensures var e := NextSlot(a); var b := Taken(a, entity);
            && e < b.index && b.entities[e] == entity && e !in b.free
            && (e < a.index ==> !a.entities[e].alive)
            && forall k | 0 <= k < a.index && k != e :: b.entities[k] == a.entities[k]
  {
  }

  /** The archetype after slot e has died and, if a list node was found, joined the free list. */
  function Died(a: ArcheType, e: nat, freed: bool, listed: bool): ArcheType
    requires e < |a.entities|
  {
    var was := a.entities[e];
    var arena := if freed then Arena(0, 0, was.arena.used) else was.arena;
    var b := a.(entities := a.entities[e := was.(types := seq(|was.types|, _ => 0), alive := false, arena := arena)]);
    if listed then b.(free := b.free + [e]) else b
  }

  lemma DiedOk(a: ArcheType, e: nat, freed: bool, listed: bool)
    requires ArcheTypeOk(a) && e < a.index && a.entities[e].alive
    ensures ArcheTypeOk(Died(a, e, freed, listed)) && !Died(a, e, freed, listed).entities[e].alive
    ensures forall k | 0 <= k < a.index && k != e :: Died(a, e, freed, listed).entities[k] == a.entities[k]
  {
  }

  // ---- Live entities ----

  predicate LiveIn(w: seq<ArcheType>, a: nat, e: nat) {
    a < |w| && e < w[a].index <= |w[a].entities| && w[a].entities[e].alive
  }

  /** Every live entity lives on, as it was. */
  ghost predicate Survive(w: seq<ArcheType>, x: seq<ArcheType>) {
    forall a: nat, e: nat | LiveIn(w, a, e) :: LiveIn(x, a, e) && x[a].entities[e] == w[a].entities[e]
  }

  /** Nothing lives in x that did not live in w. */
  ghost predicate NoneBorn(w: seq<ArcheType>, x: seq<ArcheType>) {
    forall a: nat, e: nat | LiveIn(x, a, e) :: LiveIn(w, a, e)
  }

  /** Only slot e of archetype a may have come to life. */
  ghost predicate Born(w: seq<ArcheType>, x: seq<ArcheType>, a: nat, e: nat) {
    forall b: nat, k: nat | LiveIn(x, b, k) :: LiveIn(w, b, k) || (b == a && k == e)
  }

  lemma BornBoth(w: seq<ArcheType>, x: seq<ArcheType>, y: seq<ArcheType>, a: nat, e: nat)
    requires NoneBorn(w, x) && Born(x, y, a, e)
    ensures Born(w, y, a, e)
  {
  }

  lemma SurviveBoth(w: seq<ArcheType>, x: seq<ArcheType>, y: seq<ArcheType>)
    requires Survive(w, x) && Survive(x, y)
    ensures Survive(w, y)
  {
  }

  lemma SurviveAt(w: seq<ArcheType>, x: seq<ArcheType>, a: nat, e: nat)
    requires Survive(w, x)
    ensures LiveIn(w, a, e) ==> LiveIn(x, a, e)
  {
  }

  lemma NoneBornBoth(w: seq<ArcheType>, x: seq<ArcheType>, y: seq<ArcheType>)
    requires NoneBorn(w, x) && NoneBorn(x, y)
    ensures NoneBorn(w, y)
  {
  }

  lemma ArcheTypeAdded(w: seq<ArcheType>, components: seq<nat>)
    ensures var x := w + [ArcheType(components, [], 0, 0, [])]; Survive(w, x) && NoneBorn(w, x)
  {
  }

  /** The archetype of a component list: the one there is, or the next one. */
  ghost predicate IsArcheTypeOf(w: seq<ArcheType>, components: seq<nat>, at: nat) {
    if at < |w| then w[at].components == components
    else at == |w| && forall i | 0 <= i < |w| :: w[i].components != components
  }

  /** An archetype as it was, or as a new one is. */
  function ArcheTypeAt(w: seq<ArcheType>, components: seq<nat>, at: nat): ArcheType {
    if at < |w| then w[at] else ArcheType(components, [], 0, 0, [])
  }

  /** A slot is there without growing; a new archetype has none. */
  predicate HasRoom(w: seq<ArcheType>, at: nat) {
    at < |w| && w[at].index < w[at].capacity
  }

  /** The archetypes after the array of one of them has been overwritten with NULL. */
  function ArrayLost(w: seq<ArcheType>, components: seq<nat>, at: nat): seq<ArcheType>
    requires at <= |w|
  {
    if at == |w| then w + [ArcheType(components, [], 0, 0, [])] else w[at := w[at].(entities := [])]
  }

  /** Exactly the entities of that archetype are lost: a world in which it has live ones is damaged, and no other. */
  lemma LostOnly(w: seq<ArcheType>, components: seq<nat>, at: nat)
    requires at <= |w|
    ensures var x := ArrayLost(w, components, at);
      && NoneBorn(w, x)
      && (forall b: nat, e: nat | b != at :: LiveIn(x, b, e) == LiveIn(w, b, e))
      && (forall e: nat :: !LiveIn(x, at, e))
      && (Survive(w, x) <==> forall e: nat :: !LiveIn(w, at, e))
  {
  }

  /** Such a loss: fifteen entities live in a full array, and none of them afterwards. */
  lemma FullArrayLost(entity: Entity)
    requires entity.alive
    ensures var w := [ArcheType(entity.types, seq(15, _ => entity), 15, 15, [])];
      var x := ArrayLost(w, entity.types, 0);
      && IsArcheTypeOf(w, entity.types, 0) && !HasRoom(w, 0)
      && (forall e: nat | e < 15 :: LiveIn(w, 0, e) && !LiveIn(x, 0, e)) && !Survive(w, x)
  {
    var w := [ArcheType(entity.types, seq(15, _ => entity), 15, 15, [])];
    assert LiveIn(w, 0, 0);
    LostOnly(w, entity.types, 0);
  }

  // ---- Arenas of different entities ----

  /** No byte is in both. */
  predicate Apart(a: Arena, b: Arena) {
    a.size == 0 || b.size == 0 || a.base + a.size <= b.base || b.base + b.size <= a.base
  }

  function ArenaOf(w: seq<ArcheType>, a: nat, e: nat): Arena
    requires LiveIn(w, a, e)
  {
    w[a].entities[e].arena
  }

  /** The arenas of live entities do not overlap. */
  ghost predicate ArenasApart(w: seq<ArcheType>) {
    forall a: nat, e: nat, b: nat, k: nat | LiveIn(w, a, e) && LiveIn(w, b, k) && (a, e) != (b, k) ::
      Apart(ArenaOf(w, a, e), ArenaOf(w, b, k))
  }

  /** Memory that no live entity's arena has. */
  ghost predicate FreshFor(w: seq<ArcheType>, arena: Arena) {
    forall a: nat, e: nat | LiveIn(w, a, e) :: Apart(ArenaOf(w, a, e), arena)
  }

  /** Those who live in x lived in w with the same arenas, save perhaps entity e of archetype a. */
  ghost predicate SameArenas(w: seq<ArcheType>, x: seq<ArcheType>, a: nat, e: nat) {
    forall b: nat, k: nat | LiveIn(x, b, k) && (b, k) != (a, e) ::
      LiveIn(w, b, k) && ArenaOf(x, b, k) == ArenaOf(w, b, k)
  }

  lemma ArenasStayApart(w: seq<ArcheType>, x: seq<ArcheType>, a: nat, e: nat)
    requires ArenasApart(w) && SameArenas(w, x, a, e)
    requires LiveIn(x, a, e) ==> FreshFor(w, ArenaOf(x, a, e))
    ensures ArenasApart(x)
  {
    hide LiveIn, ArenaOf;
    forall b: nat, k: nat, c: nat, l: nat | LiveIn(x, b, k) && LiveIn(x, c, l) && (b, k) != (c, l)
      ensures Apart(ArenaOf(x, b, k), ArenaOf(x, c, l))
    {
      if (b, k) == (a, e) {
        assert LiveIn(w, c, l) && Apart(ArenaOf(w, c, l), ArenaOf(x, a, e));
      } else {
        assert LiveIn(w, b, k);
      }
    }
  }

  lemma SurvivorsKeepArenas(w: seq<ArcheType>, x: seq<ArcheType>, a: nat, e: nat)
    requires Survive(w, x) && (Born(w, x, a, e) || NoneBorn(w, x))
    ensures SameArenas(w, x, a, e)
  {
  }

  /** The arenas that are left stay apart when one archetype loses its array. */
  lemma LossKeepsApart(w: seq<ArcheType>, components: seq<nat>, at: nat)
    requires at <= |w|
    ensures ArenasApart(w) ==> ArenasApart(ArrayLost(w, components, at))
  {
    var x := ArrayLost(w, components, at);
    LostOnly(w, components, at);
    assert SameArenas(w, x, at, 0) && !LiveIn(x, at, 0);
    hide ArenasApart, SameArenas, ArrayLost;
    if ArenasApart(w) { ArenasStayApart(w, x, at, 0); }
  }

  /** And when an entity is created in fresh memory. */
  lemma CreationKeepsApart(w: seq<ArcheType>, x: seq<ArcheType>, at: nat, e: nat, entity: Entity, offered: Arena)
    requires Survive(w, x) && Born(w, x, at, e)
    requires LiveIn(x, at, e) ==> x[at].entities[e] == entity
    requires entity.arena.base == offered.base && entity.arena.size == offered.size
    ensures ArenasApart(w) && FreshFor(w, offered) ==> ArenasApart(x)
  {
    SurvivorsKeepArenas(w, x, at, e);
    if FreshFor(w, offered) { SameRange(w, offered, entity.arena); }
    hide ArenasApart, SameArenas, Survive, Born, FreshFor;
    if ArenasApart(w) && FreshFor(w, offered) { ArenasStayApart(w, x, at, e); }
  }

  lemma DeathKeepsApart(w: seq<ArcheType>, a: nat, e: nat, freed: bool, listed: bool)
    requires LiveIn(w, a, e) && ArcheTypeOk(w[a])
    ensures ArenasApart(w) ==> ArenasApart(w[a := Died(w[a], e, freed, listed)])
  {
    var x := w[a := Died(w[a], e, freed, listed)];
    DiedOk(w[a], e, freed, listed);
    assert SameArenas(w, x, a, e);
    hide ArenasApart, SameArenas;
    if ArenasApart(w) { ArenasStayApart(w, x, a, e); }
  }

  lemma SameRange(w: seq<ArcheType>, arena: Arena, used: Arena)
    requires FreshFor(w, arena) && used.base == arena.base && used.size == arena.size
    ensures FreshFor(w, used)
  {
  }

  lemma SameWorld(w: seq<ArcheType>)
    ensures Survive(w, w) && NoneBorn(w, w)
  {
  }

  class World {
    var archeTypes: seq<ArcheType>       // the first ataIndex of the array
    var capacity: nat                    // ataCapacity
    var sizes: seq<nat>                  // componentSizeArr, empty while it is NULL
    var nextComponent: nat               // curComponentIndex

    constructor ()
      ensures Valid() && archeTypes == [] && nextComponent == 1
    {
      archeTypes, capacity, sizes, nextComponent := [], 0, [], 1;
    }

    /** No two archetypes have the same components. */
    ghost predicate Valid()
      reads this
    {
      && |archeTypes| <= capacity && |archeTypes| < TWO_32
      && (forall i | 0 <= i < |archeTypes| :: ArcheTypeOk(archeTypes[i]))
      && (forall i, j | 0 <= i < j < |archeTypes| :: archeTypes[i].components != archeTypes[j].components)
      && (forall a: nat, e: nat | Live(a, e) ::
            EntityOk(sizes, nextComponent, archeTypes[a].components, archeTypes[a].entities[e]))
      && 1 <= nextComponent <= MAX_COMPONENT && (sizes == [] ==> nextComponent == 1)
      && (sizes != [] ==> |sizes| == MAX_COMPONENT)
    }

    predicate Live(a: nat, e: nat)
      reads this
    {
      LiveIn(archeTypes, a, e)
    }

    /** A component type that EcsCreateNewComponent has handed out. */
    predicate Registered(components: seq<nat>)
      reads this
    {
      forall i | 0 <= i < |components| :: components[i] < nextComponent && components[i] < |sizes|
    }

    method CreateNewComponent(size: nat, hasPage: bool) returns (index: nat)
      requires Valid()
      modifies this`sizes, this`nextComponent
      ensures Valid()
      ensures index == 0 <==> (old(sizes) == [] && !hasPage) || old(nextComponent) == MAX_COMPONENT
      ensures index == 0 ==> nextComponent == old(nextComponent) && (old(sizes) != [] ==> sizes == old(sizes))
      ensures index != 0 ==> index == old(nextComponent) && nextComponent == index + 1 && sizes[index] == size
      ensures forall i | 0 < i < old(nextComponent) :: sizes[i] == old(sizes)[i]
      ensures archeTypes == old(archeTypes)
    {
      if sizes == [] {
        if !hasPage {
          return 0;
        }
        sizes := seq(MAX_COMPONENT, _ => 0);
      }
      index := nextComponent;
      if index >= MAX_COMPONENT {
        return 0;
      }
      ghost var was := sizes;
      sizes := sizes[index := size];
      nextComponent := nextComponent + 1;
      forall a: nat, e: nat | Live(a, e)
        ensures EntityOk(sizes, nextComponent, archeTypes[a].components, archeTypes[a].entities[e])
      {
        assert old(Live(a, e));
        if old(sizes) == [] {
          assert forall i | 0 <= i < |archeTypes[a].components| :: archeTypes[a].components[i] < 0;
        }
        EntityStaysOk(was, sizes, index, archeTypes[a].components, archeTypes[a].entities[e]);
      }
    }

    static method CompareComponents(a: seq<nat>, b: seq<nat>) returns (same: bool)
      ensures same <==> a == b
    {
      if |a| != |b| {
        return false;
      }
      var i := 0;
      while i < |a|
        invariant i <= |a| && a[..i] == b[..i]
      {
        if a[i] != b[i] {
          return false;
        }
        i := i + 1;
      }
      return true;
    }

    method GetSizeOfAllComponents(components: seq<nat>) returns (size: nat)
      requires Registered(components)
      ensures size == SizeOf(sizes, components, |components|)
    {
      size := 0;
      var i := 0;
      while i < |components|
        invariant i <= |components| && size == SizeOf(sizes, components, i)
      {
        if components[i] < nextComponent {
          size := size + sizes[components[i]];
        }
        i := i + 1;
      }
    }

    /** The archetype of a component list: the one there is, or a new one behind the others. */
    method GetArcheType(components: seq<nat>, canGrow: bool) returns (panicked: bool, index: nat)
      requires Valid() && |components| <= ECS_COMP_SIZE && |archeTypes| + 1 < TWO_32
      modifies this`archeTypes, this`capacity
      ensures Valid()
      ensures panicked <==> old(|archeTypes| >= capacity) && !canGrow
      ensures Survive(old(archeTypes), archeTypes) && NoneBorn(old(archeTypes), archeTypes)
      ensures panicked ==> archeTypes == old(archeTypes)
      ensures !panicked ==> IsArcheTypeOf(old(archeTypes), components, index)
      ensures !panicked ==> index < |archeTypes| && archeTypes[index].components == components
      ensures !panicked && index < old(|archeTypes|) ==> archeTypes == old(archeTypes)
      ensures !panicked && index >= old(|archeTypes|) ==>
        archeTypes == old(archeTypes) + [ArcheType(components, [], 0, 0, [])]
    {
      index := 0;
      if |archeTypes| >= capacity {
        if !canGrow {
          return true, 0;
        }
        capacity := if capacity == 0 then 15 else capacity * 3;
      }
      var i := 0;
      while i < |archeTypes|
        invariant archeTypes == old(archeTypes) && |archeTypes| < capacity
        invariant i <= |archeTypes| && forall k | 0 <= k < i :: archeTypes[k].components != components
      {
        var same := CompareComponents(components, archeTypes[i].components);
        if same {
          return false, i;
        }
        i := i + 1;
      }
      ArcheTypeAdded(archeTypes, components);
      archeTypes := archeTypes + [ArcheType(components, [], 0, 0, [])];
      return false, i;
    }

    /** Pushes the components of a new entity; once there is an arena, every push succeeds and they tile it. */
    method PushComponents(arena: Arena, components: seq<nat>) returns (ok: bool, used: Arena, addresses: seq<nat>)
      requires Registered(components) && arena.used == 0
        && arena.size == SizeOf(sizes, components, |components|) < TWO_64
      ensures ok <==> arena.base != 0 || components == []
      ensures used.base == arena.base && used.size == arena.size
      ensures ok ==> Tiled(sizes, components, used, addresses)
    {
      used, addresses := arena, [];
      var i := 0;
      while i < |components|
        invariant i <= |components| && |addresses| == i && (i > 0 ==> arena.base != 0)
        invariant used == arena.(used := SizeOf(sizes, components, i))
        invariant forall k | 0 <= k < i :: addresses[k] == arena.base + SizeOf(sizes, components, k)
      {
        SizeGrows(sizes, components, i + 1, |components|);
        var (after, address) := Push(used, sizes[components[i]]);
        used := after;
        addresses := addresses + [address];
        if address == 0 {
          return false, used, addresses;
        }
        i := i + 1;
      }
      ok := true;
    }

    /** A full entity array is moved to more pages. On refusal its pointer is already overwritten with NULL. */
    method GrowIfFull(at: nat, canGrow: bool) returns (ok: bool)
      requires Valid() && at < |archeTypes|
      modifies this`archeTypes
      ensures ok <==> canGrow || old(archeTypes[at].index < archeTypes[at].capacity)
      ensures |archeTypes| == old(|archeTypes|)
      ensures ok ==> Valid() && Survive(old(archeTypes), archeTypes) && NoneBorn(old(archeTypes), archeTypes)
      ensures ok ==> archeTypes[at].index < archeTypes[at].capacity
      ensures ok ==> archeTypes[at].components == old(archeTypes[at].components)
      ensures ok ==>
        archeTypes[at].index == old(archeTypes[at].index) && archeTypes[at].free == old(archeTypes[at].free)
      ensures ok ==> archeTypes == old(archeTypes)[at := archeTypes[at]]
      ensures !ok ==> archeTypes == old(archeTypes)[at := old(archeTypes[at]).(entities := [])]
    {
      var was := archeTypes[at];
      ok := true;
      if was.index >= was.capacity {
        if !canGrow {
          archeTypes := archeTypes[at := was.(entities := [])];
          return false;
        }
        GrownOk(was);
        archeTypes := archeTypes[at := Grown(was)];
        hide ArcheTypeOk, EntityOk;
      }
    }

    /** The next slot is taken by an entity, which lives if its arena has been laid out. */
    method TakeSlot(at: nat, entity: Entity) returns (e: nat)
      requires Valid() && at < |archeTypes| && archeTypes[at].index < archeTypes[at].capacity
        && archeTypes[at].index + 1 < TWO_32
      requires entity.alive ==> EntityOk(sizes, nextComponent, archeTypes[at].components, entity)
      modifies this`archeTypes
      ensures Valid() && Survive(old(archeTypes), archeTypes) && |archeTypes| == old(|archeTypes|)
      ensures e == old(NextSlot(archeTypes[at])) < TWO_32 && !old(Live(at, e)) && (Live(at, e) <==> entity.alive)
      ensures SlotUsed(old(archeTypes[at]), archeTypes[at]) && archeTypes == old(archeTypes)[at := archeTypes[at]]
      ensures e < |archeTypes[at].entities| && archeTypes[at].entities[e] == entity
      ensures archeTypes[at].components == old(archeTypes[at].components)
      ensures Born(old(archeTypes), archeTypes, at, e) && (!entity.alive ==> NoneBorn(old(archeTypes), archeTypes))
    {
      var a := archeTypes[at];
      e := NextSlot(a);
      TakenOk(a, entity);
      archeTypes := archeTypes[at := Taken(a, entity)];
      hide ArcheTypeOk, EntityOk, Taken;
    }

    /**
     A new entity of archetype `at`, in the slot that was freed before all the other free ones, or else in the
     next new one. Only when that archetype's array is full and cannot be moved to more pages is something lost,
     and then it is its entities and no others.
    */
    method CreateEntity(components: seq<nat>, canGrowTable: bool, canGrow: bool, arenaBase: nat)
      returns (s: Status, handle: nat, ghost at: nat)
      requires Valid() && Registered(components) && |components| <= ECS_COMP_SIZE
      requires |archeTypes| + 1 < TWO_32 && forall i | 0 <= i < |archeTypes| :: archeTypes[i].index + 1 < TWO_32
      requires SizeOf(sizes, components, |components|) < TWO_64
      modifies this`archeTypes, this`capacity
      ensures s == Success || s == OutOfMemory || s == Panicked
      ensures s == Panicked <==> !canGrowTable && old(|archeTypes| >= capacity)
      ensures s == Panicked ==> archeTypes == old(archeTypes)
      ensures s != Panicked ==> IsArcheTypeOf(old(archeTypes), components, at)
      ensures s != Panicked && (canGrow || HasRoom(old(archeTypes), at)) ==>
        && Valid() && Survive(old(archeTypes), archeTypes) && (s == OutOfMemory <==> arenaBase == 0 && components != [])
        && at < |archeTypes| && SlotUsed(old(ArcheTypeAt(archeTypes, components, at)), archeTypes[at])
        && |archeTypes| == (if at < old(|archeTypes|) then old(|archeTypes|) else at + 1)
        && forall b | 0 <= b < |archeTypes| && b != at :: archeTypes[b] == old(archeTypes)[b]
      ensures s != Panicked && !canGrow && !HasRoom(old(archeTypes), at) ==>
        s == OutOfMemory && archeTypes == ArrayLost(old(archeTypes), components, at)
      ensures s == Success ==> DecodeHandle(handle) == (at, old(NextSlot(ArcheTypeAt(archeTypes, components, at))))
      ensures s == Success ==> Created(handle, components, arenaBase)
      ensures s == Success ==> !old(Live(DecodeHandle(handle).0, DecodeHandle(handle).1))
      ensures s == Success ==> Born(old(archeTypes), archeTypes, DecodeHandle(handle).0, DecodeHandle(handle).1)
      ensures s != Success ==> NoneBorn(old(archeTypes), archeTypes)
      ensures old(ArenasApart(archeTypes)) && old(FreshFor(archeTypes, ArenaFor(components, arenaBase))) ==>
        ArenasApart(archeTypes)
    {
      hide ArcheTypeOk, EntityOk, Survive, NoneBorn, Born, LiveIn, ArenasApart, FreshFor, ArenaOf, SameArenas;
      handle := 0;
      ghost var start := archeTypes;
      SameWorld(start);
      var panicked, index := GetArcheType(components, canGrowTable);
      at := index;
      if panicked {
        return Panicked, 0, at;
      }
      ghost var found := archeTypes;
      var grown := GrowIfFull(index, canGrow);
      if !grown {
        LostOnly(start, components, at);
        LossKeepsApart(start, components, at);
        return OutOfMemory, 0, at;
      }
      SurviveBoth(start, found, archeTypes);
      NoneBornBoth(start, found, archeTypes);
      ghost var room := archeTypes;
      var size := GetSizeOfAllComponents(components);
      var ok, arena, addresses := PushComponents(Arena(arenaBase, size, 0), components);
      var entity := Entity(components, arena, addresses, ok);
      assert ok ==> EntityOk(sizes, nextComponent, components, entity) by {
        LaidOut(sizes, nextComponent, components, entity);
      }
      var e := TakeSlot(index, entity);
      SurviveBoth(start, room, archeTypes);
      BornBoth(start, room, archeTypes, at, e);
      assert old(Live(at, e)) ==> LiveIn(room, at, e) by { SurviveAt(start, room, at, e); }
      CreationKeepsApart(start, archeTypes, at, e, entity, Arena(arenaBase, size, 0));
      if !ok {
        NoneBornBoth(start, room, archeTypes);
        return OutOfMemory, 0, at;
      }
      HandleRoundTrip(index, e);
      return Success, EncodeHandle(index, e), at;
    }

    /** The memory that is asked for a new entity. */
    function ArenaFor(components: seq<nat>, base: nat): Arena
      requires Registered(components)
      reads this
    {
      Arena(base, SizeOf(sizes, components, |components|), 0)
    }

    /** The handle names a live entity with these components, laid out in the memory from `base` on. */
    ghost predicate Created(handle: nat, components: seq<nat>, base: nat)
      requires Registered(components)
      reads this
    {
      var (a, e) := DecodeHandle(handle);
      && Live(a, e) && archeTypes[a].components == components
      && EntityOk(sizes, nextComponent, components, archeTypes[a].entities[e])
      && var ent := archeTypes[a].entities[e];
         && ent.arena.base == base && |ent.addresses| == |components|
         && forall i | 0 <= i < |components| :: ent.addresses[i] == base + SizeOf(sizes, components, i)
    }

    /** Components of two live entities share no byte, as long as every arena was fresh memory. */
    lemma EntitiesApart(a: nat, e: nat, i: nat, b: nat, k: nat, j: nat)
      requires Valid() && ArenasApart(archeTypes) && Live(a, e) && Live(b, k) && (a, e) != (b, k)
      requires i < |archeTypes[a].components| && j < |archeTypes[b].components|
      ensures Registered(archeTypes[a].components) && Registered(archeTypes[b].components)
      ensures var x, y := archeTypes[a].entities[e], archeTypes[b].entities[k];
        && i < |x.addresses| && j < |y.addresses|
        && var m, n := sizes[archeTypes[a].components[i]], sizes[archeTypes[b].components[j]];
           m == 0 || n == 0 || x.addresses[i] + m <= y.addresses[j] || y.addresses[j] + n <= x.addresses[i]
    {
      var x, y := archeTypes[a].entities[e], archeTypes[b].entities[k];
      assert EntityOk(sizes, nextComponent, archeTypes[a].components, x);
      assert EntityOk(sizes, nextComponent, archeTypes[b].components, y);
      assert Apart(ArenaOf(archeTypes, a, e), ArenaOf(archeTypes, b, k));
      hide ArcheTypeOk, ArenasApart;
      InArena(sizes, archeTypes[a].components, x.arena, x.addresses, i);
      InArena(sizes, archeTypes[b].components, y.arena, y.addresses, j);
    }

    /** The entity of a handle, or why there is none. */
    method GetEntity(handle: nat) returns (s: Status, a: nat, e: nat)
      requires Valid()
      ensures (a, e) == DecodeHandle(handle)
      ensures s == if a >= |archeTypes| || e >= archeTypes[a].index then InvalidHandle
                   else if !archeTypes[a].entities[e].alive then InvalidEntity else Success
      ensures s == Success <==> Live(a, e)
    {
      var (archeTypeIndex, entityIndex) := DecodeHandle(handle);
      a, e := archeTypeIndex, entityIndex;
      if a >= |archeTypes| {
        return InvalidHandle, a, e;
      }
      if e >= archeTypes[a].index {
        return InvalidHandle, a, e;
      }
      assert ArcheTypeOk(archeTypes[a]);
      if !archeTypes[a].entities[e].alive {
        return InvalidEntity, a, e;
      }
      return Success, a, e;
    }

    /** The entity dies, whatever the heap says; without a list node its slot is never used again. */
    method DeleteEntity(handle: nat, freed: bool, hasNode: bool) returns (s: Status)
      requires Valid()
      modifies this`archeTypes
      ensures Valid() && |archeTypes| == old(|archeTypes|)
      ensures var (a, e) := DecodeHandle(handle);
        && s == (if !old(Live(a, e)) then InvalidHandle else if hasNode then Success else OutOfMemory)
        && (s == InvalidHandle ==> archeTypes == old(archeTypes))
        && (s != InvalidHandle ==> !Live(a, e))
        && (s == Success ==> archeTypes[a].free == old(archeTypes[a].free) + [e])
        && (s == OutOfMemory ==> archeTypes[a].free == old(archeTypes[a].free))
        && NoneBorn(old(archeTypes), archeTypes) && (old(ArenasApart(archeTypes)) ==> ArenasApart(archeTypes))
        && forall b: nat, k: nat | old(Live(b, k)) && (b, k) != (a, e) ::
             Live(b, k) && archeTypes[b].entities[k] == old(archeTypes[b].entities[k])
    {
      var status, a, e := GetEntity(handle);
      if status != Success {
        return InvalidHandle;
      }
      DiedOk(archeTypes[a], e, freed, hasNode);
      DeathKeepsApart(archeTypes, a, e, freed, hasNode);
      archeTypes := archeTypes[a := Died(archeTypes[a], e, freed, hasNode)];
      hide ArenasApart;
      return if hasNode then Success else OutOfMemory;
    }

    ghost predicate ComponentAt(a: nat, e: nat, component: nat, address: nat)
      requires Live(a, e) && Valid()
      reads this
    {
      assert EntityOk(sizes, nextComponent, archeTypes[a].components, archeTypes[a].entities[e]);
      var components := archeTypes[a].components;
      exists i :: 0 <= i < |components| && components[i] == component && component !in components[..i]
                  && address == archeTypes[a].entities[e].arena.base + SizeOf(sizes, components, i)
    }

    /** Where the first component of a type lies, in the arena of a live entity. */
    method GetComponent(handle: nat, component: nat) returns (s: Status, address: nat)
      requires Valid()
      ensures var (a, e) := DecodeHandle(handle);
        && (s == InvalidHandle <==> !Live(a, e))
        && (Live(a, e) ==> (s == NotFound <==> component !in archeTypes[a].components))
        && (s == Success ==> ComponentAt(a, e, component, address))
      ensures s == InvalidHandle || s == NotFound || s == Success
    {
      var status, a, e := GetEntity(handle);
      if status != Success {
        return InvalidHandle, 0;
      }
      var entity := archeTypes[a].entities[e];
      assert EntityOk(sizes, nextComponent, archeTypes[a].components, entity);
      var i := 0;
      while i < |entity.types|
        invariant i <= |entity.types| && component !in entity.types[..i]
      {
        if entity.types[i] == component {
          return Success, entity.addresses[i];
        }
        i := i + 1;
      }
      return NotFound, 0;
    }
  }

  // ---- The free list as linked nodes ----

  /** The slot of a new entity: the first node's, which leaves the list, or the next index (ecs.c:144-154). */
  method TakeIndex(q: FreeQueue.Queue, a: ArcheType, ghost entity: Entity) returns (e: nat)
    requires q.Valid() && q.Slots() == a.free && ArcheTypeOk(a) && a.index < a.capacity
    modifies q
    ensures e == NextSlot(a)
    ensures q.Valid() && q.Slots() == Taken(a, entity).free
  {
    if q.initial != null {
      e := q.TakeFirst();
      assert a.free == [e] + q.Slots();
    } else {
      e := a.index;
    }
  }

  /** A dead entity's slot joins the list behind the others, if there is memory for a node (ecs.c:225-238). */
  method QueueIndex(q: FreeQueue.Queue, a: ArcheType, e: nat, ghost freed: bool, hasNode: bool)
    requires q.Valid() && q.Slots() == a.free && e < |a.entities|
    modifies q, q.nodes
    ensures q.Valid() && q.Slots() == Died(a, e, freed, hasNode).free
  {
    if hasNode {
      q.Append(e);
    }
  }
}
