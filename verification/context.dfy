/** Context: the directory of live entities, layered over one entity pool and one
    component pool per schema slot. The directory (a map from id to entity in the
    source) is represented by its key set: every entry maps an id to the entity
    carrying that id, and the entity's current state lives in the entity pool's
    storage. */
module Contexts {
  import opened Wrappers
  import opened Schema
  import opened Entities
  import opened EntityPools

  /** A component pool, reduced to the kind it serves and whether its storage
      has been dropped by `cleanup()`. Its internals are not part of this model. */
  datatype ComponentPool = ComponentPool(kind: TypeToken, released: bool)

  datatype Context = Context(
    info: ContextInfo,
    directory: set<Id>,
    entityPool: EntityPool,
    componentPools: seq<Option<ComponentPool>>)

  /** Ids of the pooled entities whose in-use flag is set. */
  function InUseIds(p: EntityPool): set<Id>
    requires p.Live? && |p.used| == |p.elems|
  {
    set i | 0 <= i < |p.elems| && p.used[i] :: p.elems[i].id
  }

  /** The invariant every operation keeps. A directory entry always names an
      in-use pooled entity (once the pool is dropped the directory is empty);
      there is a component pool exactly at the slots whose schema type is present. */
  predicate Valid(c: Context) {
    && WellFormed(c.info)
    && EntityPools.Valid(c.entityPool)
    && c.entityPool.width == c.info.count
    && |c.componentPools| == c.info.count
    && (forall s | 0 <= s < c.info.count ::
          c.componentPools[s].Some? == c.info.types[s].Some? &&
          (c.componentPools[s].Some? ==> c.componentPools[s].value.kind == c.info.types[s].value))
    && (c.entityPool.Released? ==> c.directory == {})
    && (c.entityPool.Live? ==> c.directory <= InUseIds(c.entityPool))
  }

  /** The constructor: an empty directory, a fresh entity pool bound to the
      schema, and a component pool at slot s iff the schema's type at s is present.
      `origin` names the new pool's identifier supply (see `Entities.Id`). */
  function New(info: ContextInfo, origin: nat): (c: Context)
    requires WellFormed(info)
    ensures Valid(c) && c.info == info
    ensures c.directory == {}
    ensures c.entityPool.Live? && |c.entityPool.used| == BASE_ELEMENT_POOL
    ensures c.entityPool.origin == origin
    ensures forall s | 0 <= s < info.count ::
              (c.componentPools[s].Some? <==> info.types[s].Some?) &&
              (c.componentPools[s].Some? ==> !c.componentPools[s].value.released)
  {
    var pools := seq(info.count, s requires 0 <= s < info.count =>
                       match info.types[s]
                       case Some(t) => Some(ComponentPool(t, false))
                       case None => None);
    Context(info, {}, EntityPools.New(info.count, origin), pools)
  }

  /** `getEntity(id)`: the entity registered under `id`, or none (null). */
  function GetEntity(c: Context, id: Id): (r: Option<Entity>)
    requires Valid(c)
    ensures r.None? <==> id !in c.directory
    ensures r.Some? ==> r.value.id == id && c.entityPool.Live? && r.value in c.entityPool.elems
  {
    if id !in c.directory then None
    else
      var p := c.entityPool;
      assert exists i | 0 <= i < |p.elems| && p.used[i] :: p.elems[i].id == id;
      match IndexOf(p.elems, id, 0)
      case Some(i) => Some(p.elems[i])
  }

  /** `hasEntity(e)`: whether `getEntity(e.id)` would find it. */
  predicate HasEntity(c: Context, e: Id)
    requires Valid(c)
    ensures HasEntity(c, e) <==> GetEntity(c, e).Some?
  {
    e in c.directory
  }

  /** `getEntitesCount()`: the number of directory entries. It never exceeds the
      number of pooled entities in use, hence never the pool's capacity, and it
      is zero once the pool is dropped. */
  function EntityCount(c: Context): (n: nat)
    ensures Valid(c) && c.entityPool.Live? ==> n <= |InUseIds(c.entityPool)| <= |c.entityPool.elems|
    ensures Valid(c) && c.entityPool.Released? ==> n == 0
  {
    CountBound(c);
    |c.directory|
  }

  /** The ids of a sequence of entities. */
  function IdsOf(es: seq<Entity>): (ids: set<Id>)
    ensures |ids| <= |es|
    ensures forall i | 0 <= i < |es| :: es[i].id in ids
  {
    if es == [] then {} else {es[0].id} + IdsOf(es[1..])
  }

  lemma SubsetCard<T>(a: set<T>, b: set<T>)
    requires a <= b
    ensures |a| <= |b|
  {
    assert b == a + (b - a);
  }

  /** Every key names a distinct in-use pooled entity. */
  lemma CountBound(c: Context)
    ensures Valid(c) && c.entityPool.Live? ==>
              |c.directory| <= |InUseIds(c.entityPool)| <= |c.entityPool.elems|
  {
    if Valid(c) && c.entityPool.Live? {
      SubsetCard(c.directory, InUseIds(c.entityPool));
      SubsetCard(InUseIds(c.entityPool), IdsOf(c.entityPool.elems));
    }
  }

  datatype Created = Created(context: Context, entity: Entity)

  /** `createEntity()`: take an entity from the pool and register it under its id.
      Because `get()` can hand out an element that is already registered, the
      count rises by one only when the id was not yet a key. */
  function CreateEntity(c: Context): (r: Result<Created, PoolFault>)
    requires Valid(c)
    ensures c.entityPool.Released? <==> r.Err?
    ensures r.Ok? ==>
              var c', e := r.value.context, r.value.entity;
              && Valid(c') && c'.info == c.info && c'.componentPools == c.componentPools
              && HasEntity(c', e.id) && GetEntity(c', e.id) == Some(e)
              && c'.directory == c.directory + {e.id}
              && EntityCount(c') == EntityCount(c) + (if e.id in c.directory then 0 else 1)
    // while a slot is free, the entity handed out is a blank one ready for reuse
    ensures r.Ok? && c.entityPool.Live? && !Full(c.entityPool) ==> r.value.entity.IsBlank()
  {
    match Get(c.entityPool)
    case Err(f) => Err(f)
    case Ok(a) =>
      Register(c, a);
      AddKey(c.directory, a.entity.id);
      Ok(Created(c.(directory := c.directory + {a.entity.id}, entityPool := a.pool), a.entity))
  }

  /** Adding a key grows the directory by one exactly when the key is new. */
  lemma AddKey(dir: set<Id>, id: Id)
    ensures |dir + {id}| == |dir| + (if id in dir then 0 else 1)
  {
    if id in dir {
      assert dir + {id} == dir;
    } else {
      assert dir * {id} == {};
    }
  }

  /** `createEntity()` over the corrected `get()`: the entity handed out is never
      already registered, so every call adds exactly one entry. */
  function CreateEntityFixed(c: Context): (r: Result<Created, PoolFault>)
    requires Valid(c)
    ensures c.entityPool.Released? <==> r.Err?
    ensures r.Ok? ==>
              var c', e := r.value.context, r.value.entity;
              && Valid(c') && HasEntity(c', e.id) && GetEntity(c', e.id) == Some(e)
              && e.id !in c.directory
              && c'.directory == c.directory + {e.id}
              && EntityCount(c') == EntityCount(c) + 1
              && e.IsBlank()
  {
    match GetFixed(c.entityPool)
    case Err(f) => Err(f)
    case Ok(a) =>
      var p := c.entityPool;
      forall id | id in c.directory ensures id != a.entity.id {
        var i :| 0 <= i < |p.elems| && p.used[i] && p.elems[i].id == id;
      }
      Register(c, a);
      AddKey(c.directory, a.entity.id);
      Ok(Created(c.(directory := c.directory + {a.entity.id}, entityPool := a.pool), a.entity))
  }

  /** Lookup of a registered pooled entity finds exactly that entity. */
  lemma GetEntityOfMember(c: Context, i: nat)
    requires Valid(c) && c.entityPool.Live? && i < |c.entityPool.elems|
    requires c.entityPool.elems[i].id in c.directory
    ensures GetEntity(c, c.entityPool.elems[i].id) == Some(c.entityPool.elems[i])
  {
  }

  /** Registering an element just marked in use keeps the invariant, and the
      lookup of its id finds it. */
  lemma Register(c: Context, a: Acquired)
    requires Valid(c) && c.entityPool.Live?
    requires var p, q := c.entityPool, a.pool;
             && q.Live? && EntityPools.Valid(q) && q.width == p.width
             && a.slot < |q.elems| && q.used[a.slot] && a.entity == q.elems[a.slot]
             && |p.elems| <= |q.elems|
             && (forall i | 0 <= i < |p.elems| :: q.elems[i] == p.elems[i])
             && (forall i | 0 <= i < |p.used| :: p.used[i] ==> q.used[i])
    ensures var c' := c.(directory := c.directory + {a.entity.id}, entityPool := a.pool);
            Valid(c') && GetEntity(c', a.entity.id) == Some(a.entity)
  {
    var p, q := c.entityPool, a.pool;
    var c' := c.(directory := c.directory + {a.entity.id}, entityPool := a.pool);
    assert a.entity.id in InUseIds(q);
    forall id | id in c.directory ensures id in InUseIds(q) {
      var i :| 0 <= i < |p.elems| && p.used[i] && p.elems[i].id == id;
      assert q.elems[i] == p.elems[i] && q.used[i];
    }
    GetEntityOfMember(c', a.slot);
  }

  /** `destroyEntity(e)`: reset `e`, remove key `e.id`, repay `e` to the pool.
      There is no membership guard: an entity that is not registered is still
      reset and repaid. */
  function DestroyEntity(c: Context, e: Id): (r: Result<Context, PoolFault>)
    requires Valid(c)
    ensures c.entityPool.Released? <==> r.Err?
    ensures r.Ok? ==>
              var c' := r.value;
              && Valid(c') && c'.info == c.info && c'.componentPools == c.componentPools
              && c'.directory == c.directory - {e}
              && c'.entityPool.Live? && |c'.entityPool.elems| == |c.entityPool.elems|
              && (forall i | 0 <= i < |c.entityPool.elems| ::
                    var old_e, new_e := c.entityPool.elems[i], c'.entityPool.elems[i];
                    if old_e.id == e
                    then !c'.entityPool.used[i] && new_e.id == e && new_e.IsBlank()
                    else c'.entityPool.used[i] == c.entityPool.used[i] && new_e == old_e)
  {
    // The source resets the entity before removing it; `repay()` resets it again,
    // so the single reset inside Repay has the same effect.
    var p :- Repay(c.entityPool, e);
    var c' := c.(directory := c.directory - {e}, entityPool := p);
    assert c'.directory <= InUseIds(p) by {
      forall id | id in c'.directory ensures id in InUseIds(p) {
        var q := c.entityPool;
        var i :| 0 <= i < |q.elems| && q.used[i] && q.elems[i].id == id;
        assert p.elems[i] == q.elems[i] && p.used[i];
      }
    }
    Ok(c')
  }

  /** Entities whose id is listed are reset; the others are untouched. */
  function ResetListed(elems: seq<Entity>, ids: set<Id>): (r: seq<Entity>)
    ensures |r| == |elems|
    ensures forall i | 0 <= i < |elems| ::
              r[i] == if elems[i].id in ids then elems[i].Reset() else elems[i]
  {
    seq(|elems|, i requires 0 <= i < |elems| =>
          if elems[i].id in ids then elems[i].Reset() else elems[i])
  }

  /** `destroyAllEntities()`: reset every registered entity and clear the
      directory. The entities are NOT repaid: their in-use flags stay set. */
  function DestroyAllEntities(c: Context): (r: Context)
    requires Valid(c)
    ensures Valid(r) && r.info == c.info && r.componentPools == c.componentPools
    ensures r.directory == {} && EntityCount(r) == 0
    ensures r.entityPool.Live? == c.entityPool.Live?
    ensures c.entityPool.Live? ==>
              var p, q := c.entityPool, r.entityPool;
              && q.used == p.used
              && |q.elems| == |p.elems|
              && (forall i | 0 <= i < |p.elems| ::
                    q.elems[i].id == p.elems[i].id &&
                    (p.elems[i].id in c.directory ==> q.elems[i].IsBlank()) &&
                    (p.elems[i].id !in c.directory ==> q.elems[i] == p.elems[i]))
  {
    match c.entityPool
    case Released(_, _, _) => c
    case Live(elems, _, _, _, _) =>
      var q := c.entityPool.(elems := ResetListed(elems, c.directory));
      c.(directory := {}, entityPool := q)
  }

  /** `reset()`: destroy all entities, clean up the entity pool and every
      component pool. The loop that cleans the component pools only nulls its own
      loop variable, so the array entries remain, each holding a released pool. */
  function Reset(c: Context): (r: Result<Context, PoolFault>)
    requires Valid(c)
    ensures c.entityPool.Live? <==> r.Ok?
    ensures r.Ok? ==>
              var c' := r.value;
              && Valid(c') && c'.directory == {}
              && c'.entityPool.Released?
              && |c'.componentPools| == |c.componentPools|
              && (forall s | 0 <= s < |c.componentPools| ::
                    c'.componentPools[s].Some? == c.componentPools[s].Some? &&
                    (c'.componentPools[s].Some? ==>
                       c'.componentPools[s].value.released &&
                       c'.componentPools[s].value.kind == c.componentPools[s].value.kind))
  {
    var d := DestroyAllEntities(c);
    var p :- Cleanup(d.entityPool);
    var pools := seq(|d.componentPools|, s requires 0 <= s < |d.componentPools| =>
                       match d.componentPools[s]
                       case Some(cp) => Some(cp.(released := true))
                       case None => None);
    Ok(d.(entityPool := p, componentPools := pools))
  }
}
