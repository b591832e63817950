/** The fixed-capacity entity store (src/EntityMemoryPool.cpp,
    include/EntityMemoryPool.h) and the entity handle that delegates to it
    (src/Entity.cpp, include/Entity.h). The two headers include each other,
    so handle and store share one module. The process-wide singleton
    `Instance()` is replaced by an explicit store object that every handle
    operation receives. */
module Store {
  import opened Wrappers
  import opened Components

  /** `EntityId_t`, an unsigned 64-bit `size_t`. */
  type EntityId = x: int | 0 <= x < 0x1_0000_0000_0000_0000

  /** `std::numeric_limits<EntityId_t>::max()`, the id of a default handle. */
  const MaxEntityId: EntityId := 0xFFFF_FFFF_FFFF_FFFF

  /** Capacity of the process-wide pool (`ENTITY_MEMORY_POOL_MAX_SIZE`). */
  const MaxPoolSize: EntityId := 1344

  /** The lowest index whose flag is false, or |alive| when all are set. */
  function FirstDead(alive: seq<bool>): (r: nat)
    ensures r <= |alive|
    ensures forall i :: 0 <= i < r ==> alive[i]
    ensures r < |alive| ==> !alive[r]
  {
    if alive == [] then 0
    else if !alive[0] then 0
    else 1 + FirstDead(alive[1..])
  }

  /** One past the highest index whose flag is set, or 0 when none is. */
  function PastLastAlive(alive: seq<bool>): (r: nat)
    ensures r <= |alive|
    ensures forall i :: r <= i < |alive| ==> !alive[i]
    ensures r > 0 ==> alive[r - 1]
  {
    if alive == [] then 0
    else if alive[|alive| - 1] then |alive|
    else PastLastAlive(alive[..|alive| - 1])
  }

  /** FirstDead finds a free slot exactly when one exists. */
  lemma {:induction false} FirstDeadFree(alive: seq<bool>)
    ensures FirstDead(alive) < |alive| <==> exists i :: 0 <= i < |alive| && !alive[i]
  {
    if alive != [] && alive[0] {
      FirstDeadFree(alive[1..]);
      if exists i :: 0 <= i < |alive| && !alive[i] {
        var i :| 0 <= i < |alive| && !alive[i];
        assert !alive[1..][i - 1];
      }
    }
  }

  /** An entity handle: an integer id; every other operation goes to the store. */
  datatype Entity = Entity(id: EntityId) {

    /** `getId` (src/Entity.cpp:11-13). */
    function GetId(): (r: EntityId)
      ensures Entity(r) == this
    {
      id
    }

    /** `getTag`: the tag the store holds for this id. */
    function GetTag(pool: EntityMemoryPool): (r: string)
      reads pool, pool.alive, pool.tags, pool.components
      requires pool.Valid() && id < pool.poolSize
      ensures r == pool.tags[id]
      ensures pool.alive[id] ==> r != []
    {
      pool.GetTag(id)
    }

    /** `isAlive`: the store's liveness flag for this id. */
    function IsAlive(pool: EntityMemoryPool): (r: bool)
      reads pool, pool.alive, pool.tags, pool.components
      requires pool.Valid() && id < pool.poolSize
      ensures r == pool.alive[id]
      ensures r ==> id < pool.nextEntityId
    {
      pool.IsAlive(id)
    }

    /** `destroy`: clears the store's liveness flag for this id, which every
        handle with the same id then observes. */
    method Destroy(pool: EntityMemoryPool)
      requires pool.Valid() && id < pool.poolSize
      modifies pool.alive
      ensures pool.Valid()
      ensures !IsAlive(pool)
      ensures forall h: Entity :: h.id == id ==> !h.IsAlive(pool)
      ensures forall j :: 0 <= j < pool.poolSize && j != id ==> pool.alive[j] == old(pool.alive[j])
    {
      pool.Destroy(id);
    }

    /** `hasComponent<T>` through the handle. */
    function HasComponent(pool: EntityMemoryPool, k: Kind): (r: bool)
      reads pool, pool.alive, pool.tags, pool.components
      requires pool.Valid() && id < pool.poolSize
      ensures r == pool.components[KindIndex(k), id].has
    {
      pool.HasComponent(k, id)
    }

    /** `getComponent<T>` through the handle. */
    function GetComponent(pool: EntityMemoryPool, k: Kind): (r: Component)
      reads pool, pool.alive, pool.tags, pool.components
      requires pool.Valid() && id < pool.poolSize
      ensures r == pool.components[KindIndex(k), id]
      ensures KindOf(r.payload) == k
    {
      pool.GetComponent(k, id)
    }

    /** `addComponent<T>` through the handle: acts on this id's slot only. */
    method AddComponent(pool: EntityMemoryPool, k: Kind, p: Payload) returns (c: Component)
      requires pool.Valid() && id < pool.poolSize && KindOf(p) == k
      modifies pool.components
      ensures pool.Valid()
      ensures c == Component(true, p) && pool.components[KindIndex(k), id] == c
      ensures forall q, j :: 0 <= q < KindCount && 0 <= j < pool.poolSize && (q, j) != (KindIndex(k), id) ==>
        pool.components[q, j] == old(pool.components[q, j])
    {
      c := pool.AddComponent(k, id, p);
    }

    /** `removeComponent<T>` through the handle. */
    method RemoveComponent(pool: EntityMemoryPool, k: Kind)
      requires pool.Valid() && id < pool.poolSize
      modifies pool.components
      ensures pool.Valid()
      ensures pool.components[KindIndex(k), id] == Component(false, old(pool.components[KindIndex(k), id].payload))
      ensures forall q, j :: 0 <= q < KindCount && 0 <= j < pool.poolSize && (q, j) != (KindIndex(k), id) ==>
        pool.components[q, j] == old(pool.components[q, j])
    {
      pool.RemoveComponent(k, id);
    }
  }

  /** `Entity()`: the default handle. */
  function DefaultEntity(): (e: Entity)
    ensures e.GetId() == MaxEntityId
  {
    Entity(MaxEntityId)
  }

  /** The store: parallel arrays of tags, liveness flags and one row of
      component slots per kind, all `poolSize` long, and the bump cursor. */
  class EntityMemoryPool {
    const poolSize: EntityId
    const tags: array<string>
    const alive: array<bool>
    /** components[KindIndex(k), id] is the slot of kind k for entity id. */
    const components: array2<Component>
    var nextEntityId: EntityId

    /** Every array is poolSize long. */
    ghost predicate Shaped()
    {
      tags.Length == poolSize && alive.Length == poolSize &&
      components.Length0 == KindCount && components.Length1 == poolSize
    }

    /** The store invariant: the cursor stays within the pool, every id at
        or above the cursor is dead, an alive id carries a non-empty tag, and
        each row of component slots holds records of its own kind. */
    ghost predicate Valid()
      reads this, alive, tags, components
    {
      Shaped() &&
      nextEntityId <= poolSize &&
      (forall i :: nextEntityId <= i < poolSize ==> !alive[i]) &&
      (forall i :: 0 <= i < poolSize && alive[i] ==> tags[i] != []) &&
      (forall q, i :: 0 <= q < KindCount && 0 <= i < poolSize ==> KindOf(components[q, i].payload) == KindAt(q))
    }

    /** `EntityMemoryPool(poolSize)` with `initTuple`: every array gets
        poolSize default entries, so no id is alive and no component is
        present. */
    constructor (size: EntityId)
      ensures Valid() && poolSize == size && nextEntityId == 0
      ensures fresh(tags) && fresh(alive) && fresh(components)
      ensures forall i :: 0 <= i < size ==> !alive[i] && tags[i] == []
      ensures forall q, i :: 0 <= q < KindCount && 0 <= i < size ==> components[q, i] == Default(KindAt(q))
    {
      poolSize := size;
      tags := new string[size](_ => []);
      alive := new bool[size](_ => false);
      components := new Component[KindCount, size]((q: int, _: int) => if 0 <= q < KindCount then Default(KindAt(q)) else Default(Cell));
      nextEntityId := 0;
    }

    /** `isPoolFull`: the cursor has reached the capacity; otherwise the
        slot under the cursor is free. */
    function IsPoolFull(): (r: bool)
      reads this, alive, tags, components
      requires Valid()
      ensures r <==> nextEntityId == poolSize
      ensures !r ==> !alive[nextEntityId]
    {
      nextEntityId >= poolSize
    }

    /** `getFreeIndexFromFront`: the lowest dead id, or poolSize when every
        id is alive. */
    method GetFreeIndexFromFront() returns (r: EntityId)
      requires Shaped()
      ensures r <= poolSize
      ensures forall j :: 0 <= j < r ==> alive[j]
      ensures r < poolSize ==> !alive[r]
      ensures r == FirstDead(alive[..])
    {
      var i: EntityId := 0;
      while i < poolSize
        invariant i <= poolSize
        invariant forall j :: 0 <= j < i ==> alive[j]
      {
        if !alive[i] {
          return i;
        }
        i := i + 1;
      }
      return poolSize;
    }

    /** `getFreeIndexFromBack`: one past the highest alive id, or 0, so every
        id at or above the result is dead. */
    method GetFreeIndexFromBack() returns (r: EntityId)
      requires Shaped()
      ensures r <= poolSize
      ensures forall j :: r <= j < poolSize ==> !alive[j]
      ensures r > 0 ==> alive[r - 1]
      ensures r == PastLastAlive(alive[..])
    {
      var i: EntityId := poolSize;
      while i > 0
        invariant i <= poolSize
        invariant forall j :: i <= j < poolSize ==> !alive[j]
      {
        i := i - 1;
        if alive[i] {
          return i + 1;
        }
      }
      return 0;
    }

    /** `addEntity`. While the cursor is below the capacity the id under the
        cursor is taken and the cursor advances by one; once it has reached
        the capacity the lowest dead id is reused. When no id is free the
        source aborts on its output check: the result is None and nothing
        changes. */
    method AddEntity(tag: string) returns (r: Option<Entity>)
      requires Valid() && tag != []
      modifies this, alive, tags
      ensures Valid()
      ensures r.None? <==> old(nextEntityId) == poolSize && forall j :: 0 <= j < poolSize ==> old(alive[j])
      ensures r.None? ==> nextEntityId == old(nextEntityId) && alive[..] == old(alive[..]) && tags[..] == old(tags[..])
      ensures r.Some? ==> r.value.id < poolSize && !old(alive[r.value.id]) &&
                          alive[r.value.id] && tags[r.value.id] == tag
      ensures r.Some? && old(nextEntityId) < poolSize ==>
                r.value.id == old(nextEntityId) && nextEntityId == old(nextEntityId) + 1
      ensures r.Some? && old(nextEntityId) == poolSize ==>
                r.value.id == FirstDead(old(alive[..])) && nextEntityId == poolSize
      ensures r.Some? ==> forall j :: 0 <= j < poolSize && j != r.value.id ==>
                alive[j] == old(alive[j]) && tags[j] == old(tags[j])
    {
      var index: EntityId;
      if IsPoolFull() {
        index := GetFreeIndexFromFront();
      } else {
        index := nextEntityId;
        nextEntityId := nextEntityId + 1;
      }
      if index >= poolSize {
        FirstDeadFree(alive[..]);
        return None;
      }
      alive[index] := true;
      tags[index] := tag;
      r := Some(Entity(index));
    }

    /** `getTag`: the tag recorded when the id was last allocated. */
    function GetTag(id: EntityId): (r: string)
      reads this, alive, tags, components
      requires Valid() && id < poolSize
      ensures r == tags[id]
      ensures alive[id] ==> r != []
    {
      tags[id]
    }

    /** `isAlive`: the id's flag; an alive id lies below the cursor. */
    function IsAlive(id: EntityId): (r: bool)
      reads this, alive, tags, components
      requires Valid() && id < poolSize
      ensures r == alive[id]
      ensures r ==> id < nextEntityId
    {
      alive[id]
    }

    /** `destroy`: clears the id's flag only; tags and components stay. */
    method Destroy(id: EntityId)
      requires Valid() && id < poolSize
      modifies alive
      ensures Valid()
      ensures !alive[id]
      ensures forall j :: 0 <= j < poolSize && j != id ==> alive[j] == old(alive[j])
    {
      alive[id] := false;
    }

    /** `resetNextEntityId`, declared but not defined in
        src/EntityMemoryPool.cpp: taken to set the cursor to
        getFreeIndexFromBack(). */
    method ResetNextEntityId()
      requires Valid()
      modifies this
      ensures Valid()
      ensures nextEntityId == PastLastAlive(alive[..])
    {
      nextEntityId := GetFreeIndexFromBack();
    }

    /** `getComponent<T>`: the slot of kind k for the id; it holds a record of kind k. */
    function GetComponent(k: Kind, id: EntityId): (r: Component)
      reads this, alive, tags, components
      requires Valid() && id < poolSize
      ensures r == components[KindIndex(k), id]
      ensures KindOf(r.payload) == k
    {
      components[KindIndex(k), id]
    }

    /** `hasComponent<T>`: the slot's `has` flag. */
    function HasComponent(k: Kind, id: EntityId): (r: bool)
      reads this, alive, tags, components
      requires Valid() && id < poolSize
      ensures r == components[KindIndex(k), id].has
    {
      GetComponent(k, id).has
    }

    /** `addComponent<T>`: overwrites the slot with the new record, sets its
        flag and returns it; no other slot changes. */
    method AddComponent(k: Kind, id: EntityId, p: Payload) returns (c: Component)
      requires Valid() && id < poolSize && KindOf(p) == k
      modifies components
      ensures Valid()
      ensures c == Component(true, p) && components[KindIndex(k), id] == c
      ensures forall q, j :: 0 <= q < KindCount && 0 <= j < poolSize && (q, j) != (KindIndex(k), id) ==>
        components[q, j] == old(components[q, j])
    {
      c := Component(true, p);
      components[KindIndex(k), id] := c;
    }

    /** `removeComponent<T>`: clears the flag and keeps the payload. */
    method RemoveComponent(k: Kind, id: EntityId)
      requires Valid() && id < poolSize
      modifies components
      ensures Valid()
      ensures components[KindIndex(k), id] == Component(false, old(components[KindIndex(k), id].payload))
      ensures forall q, j :: 0 <= q < KindCount && 0 <= j < poolSize && (q, j) != (KindIndex(k), id) ==>
        components[q, j] == old(components[q, j])
    {
      components[KindIndex(k), id] := Component(false, components[KindIndex(k), id].payload);
    }

    /** `resetComponents`: every kind's slot for the id goes back to its
        default record, so no component is present; other ids keep theirs. */
    method ResetComponents(id: EntityId)
      requires Valid() && id < poolSize
      modifies components
      ensures Valid()
      ensures forall q :: 0 <= q < KindCount ==> components[q, id] == Default(KindAt(q))
      ensures forall q, j :: 0 <= q < KindCount && 0 <= j < poolSize && j != id ==>
        components[q, j] == old(components[q, j])
    {
      for q := 0 to KindCount
        invariant Valid()
        invariant forall q' :: 0 <= q' < q ==> components[q', id] == Default(KindAt(q'))
        invariant forall q', j :: 0 <= q' < KindCount && 0 <= j < poolSize && (j != id || q' >= q) ==>
          components[q', j] == old(components[q', j])
      {
        components[q, id] := Default(KindAt(q));
      }
    }
  }

  /** The process-wide pool of `Instance()`: MaxPoolSize slots, so its first
      creation takes id 0 and leaves room for more. */
  method ProcessPoolFirstCreation() returns (first: Option<Entity>, full: bool)
    ensures first == Some(Entity(0)) && !full
  {
    var pool := new EntityMemoryPool(MaxPoolSize);
    first := pool.AddEntity("cell");
    full := pool.IsPoolFull();
  }
}
