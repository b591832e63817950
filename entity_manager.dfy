/** The entity directory (src/EntityManager.cpp): staged creation, a
    two-phase update that commits pending entities and then removes dead
    ones, and the tag index. */
module Directory {
  import opened Wrappers
  import opened Components
  import opened Store

  /** Every handle in the list names an id of a pool with n slots. */
  ghost predicate IdsBelow(es: seq<Entity>, n: int)
  {
    forall e :: e in es ==> e.id < n
  }

  /** `m[t]` with `operator[]`: an absent tag reads as an empty list. */
  function Get(m: map<string, seq<Entity>>, t: string): seq<Entity>
  {
    if t in m then m[t] else []
  }

  /** The handles of es whose id currently carries tag t, in order. */
  function WithTag(es: seq<Entity>, tags: seq<string>, t: string): (r: seq<Entity>)
    requires IdsBelow(es, |tags|)
    ensures forall e :: e in r ==> e in es && tags[e.id] == t
    ensures |r| <= |es|
  {
    if es == [] then []
    else
      var last := es[|es| - 1];
      WithTag(es[..|es| - 1], tags, t) + (if tags[last.id] == t then [last] else [])
  }

  /** The tag index after the first phase of update: each pending handle, in
      order, appended to the list of its id's current tag. */
  function Committed(m: map<string, seq<Entity>>, pending: seq<Entity>, tags: seq<string>): map<string, seq<Entity>>
    requires IdsBelow(pending, |tags|)
  {
    if pending == [] then m
    else
      var m' := Committed(m, pending[..|pending| - 1], tags);
      var e := pending[|pending| - 1];
      m'[tags[e.id] := Get(m', tags[e.id]) + [e]]
  }

  /** Committing appends to every tag's list exactly the pending handles of
      that tag, in their pending order, and adds a key for each such tag. */
  lemma {:induction false} CommittedPerTag(m: map<string, seq<Entity>>, pending: seq<Entity>, tags: seq<string>, t: string)
    requires IdsBelow(pending, |tags|)
    ensures Get(Committed(m, pending, tags), t) == Get(m, t) + WithTag(pending, tags, t)
    ensures t in Committed(m, pending, tags) <==> t in m || WithTag(pending, tags, t) != []
  {
    if pending != [] {
      var init := pending[..|pending| - 1];
      CommittedPerTag(m, init, tags, t);
      var last := pending[|pending| - 1];
      if tags[last.id] == t {
        assert WithTag(pending, tags, t) == WithTag(init, tags, t) + [last];
      } else {
        assert WithTag(pending, tags, t) == WithTag(init, tags, t) + [];
      }
    }
  }

  /** The ids of committed lists stay in the pool. */
  lemma {:induction false} CommittedIdsBelow(m: map<string, seq<Entity>>, pending: seq<Entity>, tags: seq<string>)
    requires IdsBelow(pending, |tags|)
    requires forall t :: t in m ==> IdsBelow(m[t], |tags|)
    ensures forall t :: t in Committed(m, pending, tags) ==> IdsBelow(Committed(m, pending, tags)[t], |tags|)
  {
    if pending != [] {
      CommittedIdsBelow(m, pending[..|pending| - 1], tags);
    }
  }

  /** `removeFromEntityMap`'s find-and-erase: drops the first handle whose id
      is `id`. */
  function EraseFirst(s: seq<Entity>, id: EntityId): (r: seq<Entity>)
    ensures forall e :: e in r ==> e in s
  {
    if s == [] then []
    else if s[0].id == id then s[1..]
    else [s[0]] + EraseFirst(s[1..], id)
  }

  /** The index of the first handle whose id is `id`, or |s|. */
  function FirstWithId(s: seq<Entity>, id: EntityId): (k: nat)
    ensures k <= |s|
    ensures forall j :: 0 <= j < k ==> s[j].id != id
    ensures k < |s| ==> s[k] == Entity(id)
  {
    if s == [] then 0
    else if s[0].id == id then 0
    else 1 + FirstWithId(s[1..], id)
  }

  /** Erasing removes the handle at the first same-id position and keeps
      the rest in order; without such a handle the list is unchanged. */
  lemma {:induction false} EraseFirstAt(s: seq<Entity>, id: EntityId)
    ensures var k := FirstWithId(s, id);
      EraseFirst(s, id) == if k < |s| then s[..k] + s[k + 1..] else s
  {
    if s != [] && s[0].id != id {
      var t := s[1..];
      EraseFirstAt(t, id);
      var k' := FirstWithId(t, id);
      assert EraseFirst(s, id) == [s[0]] + EraseFirst(t, id);
      if k' < |t| {
        ConsSplit(s, k');
      } else {
        assert [s[0]] + t == s;
      }
    }
  }

  lemma ConsSplit(s: seq<Entity>, k: nat)
    requires k + 1 < |s|
    ensures [s[0]] + (s[1..][..k] + s[1..][k + 1..]) == s[..k + 1] + s[k + 2..]
  {
    var l := [s[0]] + (s[1..][..k] + s[1..][k + 1..]);
    var r := s[..k + 1] + s[k + 2..];
    assert |l| == |r|;
    forall j | 0 <= j < |l|
      ensures l[j] == r[j]
    {
    }
  }

  /** Erasing removes exactly one occurrence of Entity(id) when there is one
      and changes nothing otherwise. */
  lemma {:induction false} EraseFirstRemovesOne(s: seq<Entity>, id: EntityId)
    ensures multiset(EraseFirst(s, id)) == multiset(s) - multiset{Entity(id)}
    ensures |EraseFirst(s, id)| == if Entity(id) in s then |s| - 1 else |s|
  {
    EraseFirstAt(s, id);
    var k := FirstWithId(s, id);
    if k < |s| {
      SplitAt(s, k);
    } else {
      NotFound(s, id);
    }
  }

  lemma SplitAt(s: seq<Entity>, k: nat)
    requires k < |s|
    ensures multiset(s[..k] + s[k + 1..]) == multiset(s) - multiset{s[k]}
    ensures s[k] in s
  {
    assert s == s[..k] + [s[k]] + s[k + 1..];
  }

  lemma NotFound(s: seq<Entity>, id: EntityId)
    requires FirstWithId(s, id) == |s|
    ensures Entity(id) !in s
    ensures multiset(s) - multiset{Entity(id)} == multiset(s)
  {
    assert multiset(s)[Entity(id)] == 0;
  }

  /** The handles of es that are alive, in order (the list `remove_if` keeps). */
  function Survivors(es: seq<Entity>, alive: seq<bool>): (r: seq<Entity>)
    requires IdsBelow(es, |alive|)
    ensures |r| <= |es|
    ensures forall e :: e in r ==> e in es && alive[e.id]
  {
    if es == [] then []
    else
      var last := es[|es| - 1];
      Survivors(es[..|es| - 1], alive) + (if alive[last.id] then [last] else [])
  }

  /** A handle survives exactly when it was in the list and its id is alive. */
  lemma {:induction false} SurvivorsMembers(es: seq<Entity>, alive: seq<bool>, e: Entity)
    requires IdsBelow(es, |alive|)
    ensures e in Survivors(es, alive) <==> e in es && alive[e.id]
  {
    if es != [] {
      var init := es[..|es| - 1];
      SurvivorsMembers(init, alive, e);
      assert es == init + [es[|es| - 1]];
    }
  }

  /** Nothing is removed exactly when every handle in the list is alive. */
  lemma {:induction false} SurvivorsAll(es: seq<Entity>, alive: seq<bool>)
    requires IdsBelow(es, |alive|)
    ensures Survivors(es, alive) == es <==> forall e :: e in es ==> alive[e.id]
  {
    if es != [] {
      var init := es[..|es| - 1];
      var last := es[|es| - 1];
      SurvivorsAll(init, alive);
      assert es == init + [last];
      if !alive[last.id] {
        assert |Survivors(es, alive)| < |es| by {
          assert |Survivors(init, alive)| <= |init|;
        }
      } else if Survivors(es, alive) == es {
        assert Survivors(init, alive) == init by {
          assert Survivors(es, alive) == Survivors(init, alive) + [last];
          assert es[..|es| - 1] == init;
        }
      }
    }
  }

  /** The ids of the handles in es that are dead. */
  function DeadIds(es: seq<Entity>, alive: seq<bool>): set<EntityId>
    requires IdsBelow(es, |alive|)
  {
    if es == [] then {}
    else
      var last := es[|es| - 1];
      DeadIds(es[..|es| - 1], alive) + (if alive[last.id] then {} else {last.id})
  }

  /** An id is reset exactly when a handle for it is in the list and it is dead. */
  lemma {:induction false} DeadIdsMembers(es: seq<Entity>, alive: seq<bool>, j: EntityId)
    requires IdsBelow(es, |alive|)
    ensures j in DeadIds(es, alive) <==> Entity(j) in es && !alive[j]
  {
    if es != [] {
      var init := es[..|es| - 1];
      DeadIdsMembers(init, alive, j);
      assert es == init + [es[|es| - 1]];
    }
  }

  /** The tag index after the second phase of update: for each dead handle,
      in list order, its first same-id occurrence is erased from the list of
      its tag (a key is created for that tag if it was absent). */
  function Unlinked(m: map<string, seq<Entity>>, es: seq<Entity>, alive: seq<bool>, tags: seq<string>): map<string, seq<Entity>>
    requires |alive| == |tags| && IdsBelow(es, |alive|)
  {
    if es == [] then m
    else
      var m' := Unlinked(m, es[..|es| - 1], alive, tags);
      var e := es[|es| - 1];
      if alive[e.id] then m' else m'[tags[e.id] := EraseFirst(Get(m', tags[e.id]), e.id)]
  }

  /** Unlinked over one more handle. */
  lemma UnlinkedStep(m: map<string, seq<Entity>>, es: seq<Entity>, i: nat, alive: seq<bool>, tags: seq<string>)
    requires |alive| == |tags| && i < |es| && IdsBelow(es, |alive|)
    ensures Unlinked(m, es[..i + 1], alive, tags) ==
      var m' := Unlinked(m, es[..i], alive, tags);
      if alive[es[i].id] then m' else m'[tags[es[i].id] := EraseFirst(Get(m', tags[es[i].id]), es[i].id)]
  {
    assert es[..i + 1][..i] == es[..i];
  }

  /** The dead handles of es whose id carries tag t, in order. */
  function DeadWithTag(es: seq<Entity>, alive: seq<bool>, tags: seq<string>, t: string): (r: seq<Entity>)
    requires |alive| == |tags| && IdsBelow(es, |alive|)
    ensures forall e :: e in r ==> e in es && !alive[e.id] && tags[e.id] == t
  {
    if es == [] then []
    else
      var last := es[|es| - 1];
      DeadWithTag(es[..|es| - 1], alive, tags, t) + (if !alive[last.id] && tags[last.id] == t then [last] else [])
  }

  /** EraseFirst applied once for each handle of ds, in order. */
  function EraseEach(s: seq<Entity>, ds: seq<Entity>): (r: seq<Entity>)
    ensures forall e :: e in r ==> e in s
  {
    if ds == [] then s else EraseFirst(EraseEach(s, ds[..|ds| - 1]), ds[|ds| - 1].id)
  }

  /** Unlinking erases from every tag's list, once each and in list order,
      exactly the dead handles of that tag, and adds a key for each such
      tag. */
  lemma {:induction false} UnlinkedPerTag(m: map<string, seq<Entity>>, es: seq<Entity>, alive: seq<bool>, tags: seq<string>, t: string)
    requires |alive| == |tags| && IdsBelow(es, |alive|)
    ensures Get(Unlinked(m, es, alive, tags), t) == EraseEach(Get(m, t), DeadWithTag(es, alive, tags, t))
    ensures t in Unlinked(m, es, alive, tags) <==> t in m || DeadWithTag(es, alive, tags, t) != []
  {
    if es != [] {
      var init := es[..|es| - 1];
      UnlinkedPerTag(m, init, alive, tags, t);
      var last := es[|es| - 1];
      var ds := DeadWithTag(init, alive, tags, t);
      if !alive[last.id] && tags[last.id] == t {
        assert DeadWithTag(es, alive, tags, t) == ds + [last];
        assert (ds + [last])[..|ds|] == ds;
      } else {
        assert DeadWithTag(es, alive, tags, t) == ds;
      }
    }
  }

  /** Survivors over one more handle. */
  lemma SurvivorsStep(es: seq<Entity>, i: nat, alive: seq<bool>)
    requires i < |es| && IdsBelow(es, |alive|)
    ensures Survivors(es[..i + 1], alive) == Survivors(es[..i], alive) + (if alive[es[i].id] then [es[i]] else [])
  {
    assert es[..i + 1][..i] == es[..i];
  }

  /** DeadIds over one more handle. */
  lemma DeadIdsStep(es: seq<Entity>, i: nat, alive: seq<bool>)
    requires i < |es| && IdsBelow(es, |alive|)
    ensures DeadIds(es[..i + 1], alive) == DeadIds(es[..i], alive) + (if alive[es[i].id] then {} else {es[i].id})
  {
    assert es[..i + 1][..i] == es[..i];
  }

  /** Since the pre-state, exactly the slots of the ids in `reset` went back
      to their defaults; every other slot is unchanged. */
  twostate predicate ResetExactly(pool: EntityMemoryPool, reset: set<EntityId>)
    reads pool.components
    requires pool.Shaped()
  {
    forall q, j :: 0 <= q < KindCount && 0 <= j < pool.poolSize ==>
      pool.components[q, j] == if j in reset then Default(KindAt(q)) else old(pool.components[q, j])
  }

  class EntityManager {
    const pool: EntityMemoryPool
    var entities: seq<Entity>
    var entitiesToAdd: seq<Entity>
    var entityMap: map<string, seq<Entity>>

    /** The store is valid and every handle the directory holds names one of
        its slots. */
    ghost predicate Valid()
      reads this, pool, pool.alive, pool.tags, pool.components
    {
      pool.Valid() &&
      IdsBelow(entities, pool.poolSize) && IdsBelow(entitiesToAdd, pool.poolSize) &&
      (forall t :: t in entityMap ==> IdsBelow(entityMap[t], pool.poolSize))
    }

    /** A directory over an explicit store, with no entities. */
    constructor (store: EntityMemoryPool)
      requires store.Valid()
      ensures Valid() && pool == store
      ensures entities == [] && entitiesToAdd == [] && entityMap == map[]
    {
      pool := store;
      entities, entitiesToAdd, entityMap := [], [], map[];
    }

    /** `addEntity`: allocates an id in the store and stages the handle in
        the pending list only; the active list and the tag index are left as
        they are. The store's abort on exhaustion is None. */
    method AddEntity(tag: string) returns (r: Option<Entity>)
      requires Valid() && tag != []
      modifies this, pool, pool.alive, pool.tags
      ensures Valid()
      ensures r.None? <==> old(pool.nextEntityId) == pool.poolSize && forall j :: 0 <= j < pool.poolSize ==> old(pool.alive[j])
      ensures r.Some? ==> r.value.id < pool.poolSize && pool.alive[r.value.id] && pool.tags[r.value.id] == tag
      ensures r.Some? ==> forall j :: 0 <= j < pool.poolSize && j != r.value.id ==>
                pool.alive[j] == old(pool.alive[j]) && pool.tags[j] == old(pool.tags[j])
      ensures r.Some? && old(pool.nextEntityId) < pool.poolSize ==> r.value.id == old(pool.nextEntityId)
      ensures r.Some? && old(pool.nextEntityId) == pool.poolSize ==> r.value.id == FirstDead(old(pool.alive[..]))
      ensures r.Some? && old(pool.nextEntityId) < pool.poolSize ==> pool.nextEntityId == old(pool.nextEntityId) + 1
      ensures old(pool.nextEntityId) == pool.poolSize ==> pool.nextEntityId == pool.poolSize
      ensures r.None? ==> pool.nextEntityId == old(pool.nextEntityId) &&
                          pool.alive[..] == old(pool.alive[..]) && pool.tags[..] == old(pool.tags[..])
      ensures entitiesToAdd == if r.Some? then old(entitiesToAdd) + [r.value] else old(entitiesToAdd)
      ensures entities == old(entities) && entityMap == old(entityMap)
    {
      r := pool.AddEntity(tag);
      if r.Some? {
        entitiesToAdd := entitiesToAdd + [r.value];
      }
    }

    /** `addEntities`, the first phase of update: pending handles are
        appended in order to the active list and to their tag's list, and the
        pending list is emptied. */
    method AddEntities()
      requires Valid()
      modifies this
      ensures Valid()
      ensures entities == old(entities) + old(entitiesToAdd)
      ensures entityMap == Committed(old(entityMap), old(entitiesToAdd), pool.tags[..])
      ensures entitiesToAdd == []
    {
      var pending := entitiesToAdd;
      var i := 0;
      while i < |pending|
        invariant 0 <= i <= |pending|
        invariant entitiesToAdd == pending
        invariant entities == old(entities) + pending[..i]
        invariant entityMap == Committed(old(entityMap), pending[..i], pool.tags[..])
        invariant forall t :: t in entityMap ==> IdsBelow(entityMap[t], pool.poolSize)
      {
        var e := pending[i];
        var tag := e.GetTag(pool);
        entities := entities + [e];
        entityMap := entityMap[tag := Get(entityMap, tag) + [e]];
        assert pending[..i + 1][..i] == pending[..i];
        i := i + 1;
      }
      assert pending[..i] == pending;
      entitiesToAdd := [];
    }

    /** `removeFromEntityMap`: erases the handle's first same-id occurrence
        from the list of its current tag, creating an empty list for a tag
        that had none. */
    method RemoveFromEntityMap(e: Entity)
      requires Valid() && e.id < pool.poolSize
      modifies this
      ensures Valid()
      ensures entityMap == old(entityMap)[pool.tags[e.id] := EraseFirst(Get(old(entityMap), pool.tags[e.id]), e.id)]
      ensures entities == old(entities) && entitiesToAdd == old(entitiesToAdd)
    {
      var tag := e.GetTag(pool);
      var vec := Get(entityMap, tag);
      entityMap := entityMap[tag := EraseFirst(vec, e.id)];
    }

    /** The predicate `remove_if` applies to each handle: a dead handle has
        its components reset and is unlinked from the tag index, and the
        answer says whether it is to be erased. */
    method NeedErase(e: Entity) returns (erase: bool)
      requires Valid() && e.id < pool.poolSize
      modifies this, pool.components
      ensures Valid()
      ensures erase == !pool.alive[e.id]
      ensures entityMap == if erase then old(entityMap)[pool.tags[e.id] := EraseFirst(Get(old(entityMap), pool.tags[e.id]), e.id)]
                           else old(entityMap)
      ensures ResetExactly(pool, if erase then {e.id} else {})
      ensures entities == old(entities) && entitiesToAdd == old(entitiesToAdd)
      ensures pool.alive[..] == old(pool.alive[..]) && pool.tags[..] == old(pool.tags[..])
    {
      if !e.IsAlive(pool) {
        pool.ResetComponents(e.id);
        RemoveFromEntityMap(e);
        return true;
      }
      return false;
    }

    /** `std::ranges::remove_if` with NeedErase over the active list: the
        handles it keeps, in order. The list itself is left for the caller
        to erase from. */
    method RemoveIf() returns (kept: seq<Entity>)
      requires Valid()
      modifies this, pool.components
      ensures Valid()
      ensures kept == Survivors(entities, pool.alive[..])
      ensures entityMap == Unlinked(old(entityMap), entities, pool.alive[..], pool.tags[..])
      ensures entities == old(entities) && entitiesToAdd == old(entitiesToAdd)
      ensures ResetExactly(pool, DeadIds(entities, pool.alive[..]))
    {
      var es := entities;
      ghost var alive := pool.alive[..];
      ghost var tags := pool.tags[..];
      kept := [];
      var i := 0;
      while i < |es|
        invariant 0 <= i <= |es|
        invariant Valid()
        invariant entities == es && entitiesToAdd == old(entitiesToAdd)
        invariant pool.alive[..] == alive && pool.tags[..] == tags
        invariant kept == Survivors(es[..i], alive)
        invariant entityMap == Unlinked(old(entityMap), es[..i], alive, tags)
        invariant ResetExactly(pool, DeadIds(es[..i], alive))
      {
        var e := es[i];
        DeadIdsStep(es, i, alive);
        ghost var prev := entityMap;
        var erase := NeedErase(e);
        assert erase == !alive[e.id] && pool.tags[e.id] == tags[e.id];
        assert entityMap == if alive[e.id] then prev else prev[tags[e.id] := EraseFirst(Get(prev, tags[e.id]), e.id)];
        UnlinkedStep(old(entityMap), es, i, alive, tags);
        SurvivorsStep(es, i, alive);
        if !erase {
          kept := kept + [e];
        }
        i := i + 1;
      }
      assert es[..i] == es;
    }

    /** `removeEntities`, the second phase of update: every dead handle of
        the active list has its components reset and is unlinked from the tag
        index; the alive ones stay in order. The cursor is rewound only when
        something was removed. */
    method RemoveEntities()
      requires Valid()
      modifies this, pool, pool.components
      ensures Valid()
      ensures entities == Survivors(old(entities), pool.alive[..])
      ensures entityMap == Unlinked(old(entityMap), old(entities), pool.alive[..], pool.tags[..])
      ensures entitiesToAdd == old(entitiesToAdd)
      ensures ResetExactly(pool, DeadIds(old(entities), pool.alive[..]))
      ensures pool.nextEntityId == if |entities| < |old(entities)| then PastLastAlive(pool.alive[..]) else old(pool.nextEntityId)
    {
      var kept := RemoveIf();
      if |kept| < |entities| {
        pool.ResetNextEntityId();
      }
      entities := kept;
    }

    /** `update`: commit the pending handles, then remove the dead ones. A
        handle created and destroyed before the same update is committed and
        removed within it. */
    method Update()
      requires Valid()
      modifies this, pool, pool.components
      ensures Valid()
      ensures entitiesToAdd == []
      ensures entities == Survivors(old(entities) + old(entitiesToAdd), pool.alive[..])
      ensures forall e :: e in entities <==> e in old(entities) + old(entitiesToAdd) && pool.alive[e.id]
      ensures entityMap == Unlinked(Committed(old(entityMap), old(entitiesToAdd), pool.tags[..]),
                                    old(entities) + old(entitiesToAdd), pool.alive[..], pool.tags[..])
      ensures ResetExactly(pool, DeadIds(old(entities) + old(entitiesToAdd), pool.alive[..]))
      ensures pool.nextEntityId == if |entities| < |old(entities)| + |old(entitiesToAdd)| then PastLastAlive(pool.alive[..]) else old(pool.nextEntityId)
    {
      AddEntities();
      RemoveEntities();
      forall e | true
        ensures e in entities <==> e in old(entities) + old(entitiesToAdd) && pool.alive[e.id]
      {
        SurvivorsMembers(old(entities) + old(entitiesToAdd), pool.alive[..], e);
      }
    }

    /** `getEntities()`: the active list. */
    function GetEntities(): (r: seq<Entity>)
      reads this, pool, pool.alive, pool.tags, pool.components
      requires Valid()
      ensures r == entities
      ensures forall e :: e in r ==> e.id < pool.poolSize
    {
      entities
    }

    /** The non-const `getEntities(tag)`: `operator[]` inserts an empty list
        for an unknown tag and returns the tag's list. */
    method GetEntitiesByTag(tag: string) returns (r: seq<Entity>)
      requires Valid()
      modifies this
      ensures Valid()
      ensures tag in entityMap && r == entityMap[tag]
      ensures entityMap == if tag in old(entityMap) then old(entityMap) else old(entityMap)[tag := []]
      ensures entities == old(entities) && entitiesToAdd == old(entitiesToAdd)
    {
      if tag !in entityMap {
        entityMap := entityMap[tag := []];
      }
      r := entityMap[tag];
    }

    /** The const `getEntities(tag)`: `at` throws for an unknown tag (None). */
    function FindEntitiesByTag(tag: string): (r: Option<seq<Entity>>)
      reads this
      ensures r.Some? <==> tag in entityMap
      ensures r.Some? ==> r.value == entityMap[tag]
    {
      if tag in entityMap then Some(entityMap[tag]) else None
    }
  }

  /** A new "cell" entity is not in the tag index before update and is its
      only member after. */
  method CommitMakesEntityVisible() returns (before: seq<Entity>, after: seq<Entity>, e: Entity)
    ensures before == [] && after == [e]
  {
    var pool := new EntityMemoryPool(4);
    var manager := new EntityManager(pool);
    var r := manager.AddEntity("cell");
    e := r.value;
    before := manager.GetEntitiesByTag("cell");
    manager.Update();
    CommittedPerTag(map["cell" := []], [e], pool.tags[..], "cell");
    assert WithTag([e], pool.tags[..], "cell") == [e] by {
      assert [e][..0] == [];
    }
    assert manager.entities == [e] by {
      assert [] + [e] == [e];
      assert [e][..0] == [];
    }
    after := manager.GetEntitiesByTag("cell");
  }

  /** Consecutive creations on a fresh store take consecutive ids. */
  method CreationsTakeConsecutiveIds() returns (first: Option<Entity>, second: Option<Entity>, third: Option<Entity>)
    ensures first == Some(Entity(0)) && second == Some(Entity(1)) && third == Some(Entity(2))
  {
    var pool := new EntityMemoryPool(4);
    var manager := new EntityManager(pool);
    first := manager.AddEntity("cell");
    second := manager.AddEntity("cell");
    third := manager.AddEntity("cell");
  }

  /** With capacity 1, a second allocation without any destroy fails. */
  method SecondCreateExhaustsUnitPool() returns (first: Option<Entity>, second: Option<Entity>)
    ensures first == Some(Entity(0)) && second == None
  {
    var pool := new EntityMemoryPool(1);
    var manager := new EntityManager(pool);
    first := manager.AddEntity("cell");
    second := manager.AddEntity("cell");
  }

  /** An entity created and destroyed before one update is committed and
      removed within it: it is not in the active list afterwards, and since
      the cursor was rewound its id is the next one allocated. */
  method DestroyedBeforeCommitIsDropped() returns (e: Entity, listed: seq<Entity>, next: Option<Entity>)
    ensures e !in listed && next == Some(e)
  {
    var pool := new EntityMemoryPool(2);
    var manager := new EntityManager(pool);
    var r := manager.AddEntity("cell");
    e := r.value;
    e.Destroy(pool);
    manager.Update();
    SurvivorsMembers([e], pool.alive[..], e);
    listed := manager.GetEntities();
    next := manager.AddEntity("cell");
  }
}
