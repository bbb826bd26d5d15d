/** Properties of the context that relate several calls, including how the pool's
    growth defect shows through `createEntity()`. */
module ContextLemmas {
  import opened Wrappers
  import opened Schema
  import opened Entities
  import opened EntityPools
  import opened Contexts
  import EntityPoolLemmas

  /** Step `i` of a run: `createEntity()` on `cs[i]` returns `es[i]` and leaves `cs[i + 1]`. */
  predicate RunStep(cs: seq<Context>, es: seq<Entity>, i: nat) {
    && i < |es| && i + 1 < |cs|
    && Contexts.Valid(cs[i])
    && CreateEntity(cs[i]) == Ok(Created(cs[i + 1], es[i]))
  }

  /** `cs[0]`, ..., `cs[|es|]` are the contexts seen by `|es|` consecutive
      `createEntity()` calls, the i-th of which returns `es[i]`. */
  predicate IsRun(cs: seq<Context>, es: seq<Entity>) {
    && |cs| == |es| + 1
    && (forall i | 0 <= i < |cs| :: Contexts.Valid(cs[i]))
    && (forall i | 0 <= i < |es| :: RunStep(cs, es, i))
  }

  /** The state after the first `k` creations on a fresh context: the storage is
      untouched, exactly the first `k` slots are in use and registered. */
  predicate AfterCreations(c: Context, base: seq<Entity>, k: nat) {
    && c.entityPool.Live?
    && c.entityPool.elems == base
    && |base| == BASE_ELEMENT_POOL
    && k <= BASE_ELEMENT_POOL
    && |c.entityPool.used| == |base|
    && (forall i | 0 <= i < |base| :: c.entityPool.used[i] == (i < k))
    && c.directory == InUseIds(c.entityPool)
    && |c.directory| == k
  }

  /** Marking slot `k` in use adds exactly its id to the in-use ids. */
  lemma MarkInUse(p: EntityPool, k: nat)
    requires p.Live? && |p.used| == |p.elems| && k < |p.used|
    ensures InUseIds(p.(used := p.used[k := true])) == InUseIds(p) + {p.elems[k].id}
  {
    var q := p.(used := p.used[k := true]);
    forall id | id in InUseIds(q) ensures id in InUseIds(p) + {p.elems[k].id} {
      var i :| 0 <= i < |q.elems| && q.used[i] && q.elems[i].id == id;
      if i != k { assert p.used[i]; }
    }
    forall id | id in InUseIds(p) ensures id in InUseIds(q) {
      var i :| 0 <= i < |p.elems| && p.used[i] && p.elems[i].id == id;
      assert q.used[i];
    }
  }

  /** On a pool whose in-use slots are exactly the first `k` of 32, `get()`
      takes slot `k` and changes nothing else. */
  lemma GetOnPrefix(p: EntityPool, k: nat)
    requires p.Live? && EntityPools.Valid(p) && |p.used| == BASE_ELEMENT_POOL && k < BASE_ELEMENT_POOL
    requires forall i | 0 <= i < |p.used| :: p.used[i] == (i < k)
    ensures Get(p).Ok?
    ensures Get(p).value == Acquired(p.(used := p.used[k := true]), k, p.elems[k])
  {
    assert !Full(p) by { assert !p.used[k]; }
    var a := Get(p).value;
    assert a.slot == k by {
      assert !p.used[a.slot] && p.used[a.slot] == (a.slot < k);
      assert !p.used[k];
    }
  }

  /** One creation while a free slot remains takes slot `k` and registers a new key. */
  lemma CreateStep(c: Context, base: seq<Entity>, k: nat)
    requires Contexts.Valid(c) && AfterCreations(c, base, k) && k < BASE_ELEMENT_POOL
    ensures CreateEntity(c).Ok?
    ensures CreateEntity(c).value.entity == base[k]
    ensures Contexts.Valid(CreateEntity(c).value.context)
    ensures AfterCreations(CreateEntity(c).value.context, base, k + 1)
  {
    var p := c.entityPool;
    GetOnPrefix(p, k);
    CreateFromFreeSlot(c);
    MarkInUse(p, k);
    Contexts.AddKey(c.directory, base[k].id);
  }

  /** One step along a run, from the state after `k` creations. */
  lemma RunAdvance(cs: seq<Context>, es: seq<Entity>, base: seq<Entity>, k: nat)
    requires IsRun(cs, es) && k < |es| && k < BASE_ELEMENT_POOL && AfterCreations(cs[k], base, k)
    ensures AfterCreations(cs[k + 1], base, k + 1) && es[k] == base[k]
  {
    assert RunStep(cs, es, k);
    CreateStep(cs[k], base, k);
  }

  /** Along a run of at most 32 creations from a fresh context, the entities
      returned are the first pooled entities in storage order, and the final
      context is in the state after that many creations. */
  lemma {:induction false} RunHandsOutInOrder(cs: seq<Context>, es: seq<Entity>, base: seq<Entity>)
    requires IsRun(cs, es) && |es| <= BASE_ELEMENT_POOL && AfterCreations(cs[0], base, 0)
    ensures AfterCreations(cs[|es|], base, |es|)
    ensures es == base[..|es|]
  {
    var k := 0;
    while k < |es|
      invariant 0 <= k <= |es|
      invariant AfterCreations(cs[k], base, k)
      invariant es[..k] == base[..k]
    {
      RunAdvance(cs, es, base, k);
      assert es[..k + 1] == es[..k] + [es[k]];
      assert base[..k + 1] == base[..k] + [base[k]];
      k := k + 1;
    }
  }

  /** A fresh context is in the state after zero creations. */
  lemma FreshContextAfterNoCreations(info: ContextInfo, origin: nat)
    requires WellFormed(info)
    ensures Contexts.Valid(Contexts.New(info, origin))
    ensures AfterCreations(Contexts.New(info, origin), Contexts.New(info, origin).entityPool.elems, 0)
  {
  }

  /** Once all 32 initial slots are taken, a creation grows the pool and
      returns the last initial entity again, which is still registered. */
  lemma CreateOnFullPool(c: Context, base: seq<Entity>)
    requires Contexts.Valid(c) && AfterCreations(c, base, BASE_ELEMENT_POOL)
    ensures CreateEntity(c).Ok?
    ensures var x := CreateEntity(c).value;
            && x.entity == base[BASE_ELEMENT_POOL - 1]
            && HasEntity(c, x.entity.id)
            && EntityCount(x.context) == EntityCount(c) == BASE_ELEMENT_POOL
            && |x.context.entityPool.used| == BASE_ELEMENT_POOL + ADD_ELEMENT_POOL
  {
    var p := c.entityPool;
    assert Full(p);
    var last := BASE_ELEMENT_POOL - 1;
    assert base[last].id in c.directory;
    assert Get(p).value.entity == base[last];
  }

  /** On a fresh context, 32 creations return 32 distinct entities and leave
      every one of them registered. */
  lemma ThirtyTwoCreatesRegisterAll(info: ContextInfo, origin: nat, cs: seq<Context>, es: seq<Entity>)
    requires WellFormed(info) && IsRun(cs, es) && cs[0] == Contexts.New(info, origin)
    requires |es| == BASE_ELEMENT_POOL
    ensures forall i, j | 0 <= i < j < |es| :: es[i].id != es[j].id
    ensures forall i | 0 <= i < |es| :: HasEntity(cs[|es|], es[i].id)
    ensures EntityCount(cs[|es|]) == BASE_ELEMENT_POOL
  {
    var base := cs[0].entityPool.elems;
    FreshContextAfterNoCreations(info, origin);
    RunHandsOutInOrder(cs, es, base);
    assert es == base;
    AllRegisteredWhenFull(cs[|es|], base);
  }

  /** Once the first 32 slots are all taken, each of them is registered and
      their ids are pairwise distinct. */
  lemma AllRegisteredWhenFull(c: Context, base: seq<Entity>)
    requires Contexts.Valid(c) && AfterCreations(c, base, BASE_ELEMENT_POOL)
    ensures forall i, j | 0 <= i < j < |base| :: base[i].id != base[j].id
    ensures forall i | 0 <= i < |base| :: HasEntity(c, base[i].id)
  {
    forall i | 0 <= i < |base| ensures HasEntity(c, base[i].id) {
      assert c.entityPool.used[i];
    }
  }

  /** After 32 creations on a fresh context, the 33rd creation grows the pool
      but returns the entity the 32nd creation returned, which is still
      registered, so the count stays at 32. */
  lemma ThirtyThirdCreateReturnsLiveEntity(info: ContextInfo, origin: nat, cs: seq<Context>, es: seq<Entity>)
    requires WellFormed(info) && IsRun(cs, es) && cs[0] == Contexts.New(info, origin)
    requires |es| == BASE_ELEMENT_POOL
    ensures CreateEntity(cs[|es|]).Ok?
    ensures var x := CreateEntity(cs[|es|]).value;
            && x.entity == es[|es| - 1]
            && HasEntity(cs[|es|], x.entity.id)
            && EntityCount(x.context) == BASE_ELEMENT_POOL
            && |x.context.entityPool.used| == BASE_ELEMENT_POOL + ADD_ELEMENT_POOL
  {
    var base := cs[0].entityPool.elems;
    FreshContextAfterNoCreations(info, origin);
    RunHandsOutInOrder(cs, es, base);
    assert es[|es| - 1] == base[BASE_ELEMENT_POOL - 1];
    CreateOnFullPool(cs[|es|], base);
  }

  /** With the corrected `get()`, the 33rd creation adds a 33rd entry. */
  lemma ThirtyThirdFixedCreateAddsEntry(info: ContextInfo, origin: nat, cs: seq<Context>, es: seq<Entity>)
    requires WellFormed(info) && IsRun(cs, es) && cs[0] == Contexts.New(info, origin)
    requires |es| == BASE_ELEMENT_POOL
    ensures CreateEntityFixed(cs[|es|]).Ok?
    ensures EntityCount(CreateEntityFixed(cs[|es|]).value.context) == BASE_ELEMENT_POOL + 1
  {
    FreshContextAfterNoCreations(info, origin);
    RunHandsOutInOrder(cs, es, cs[0].entityPool.elems);
  }

  /** While a free slot remains, `createEntity()` registers the entity `get()`
      hands out, whose id was not yet a key. */
  lemma CreateFromFreeSlot(c: Context)
    requires Contexts.Valid(c) && c.entityPool.Live? && !Full(c.entityPool)
    ensures var a := Get(c.entityPool).value;
            && CreateEntity(c) == Ok(Created(c.(directory := c.directory + {a.entity.id}, entityPool := a.pool), a.entity))
            && a.entity.id !in c.directory
  {
    var p := c.entityPool;
    var a := Get(p).value;
    forall id | id in c.directory ensures id != a.entity.id {
      var i :| 0 <= i < |p.elems| && p.used[i] && p.elems[i].id == id;
    }
  }

  /** Creating an entity while a free slot remains and then destroying it
      restores the directory and every in-use flag. */
  lemma CreateThenDestroyRestores(c: Context)
    requires Contexts.Valid(c) && c.entityPool.Live? && !Full(c.entityPool)
    ensures var x := CreateEntity(c).value;
            && DestroyEntity(x.context, x.entity.id).Ok?
            && DestroyEntity(x.context, x.entity.id).value.directory == c.directory
            && DestroyEntity(x.context, x.entity.id).value.entityPool.used == c.entityPool.used
  {
    CreateFromFreeSlot(c);
    EntityPoolLemmas.GetThenRepayRestoresFlags(c.entityPool);
  }

  /** Entities of another context, whose pool draws ids under a different origin,
      are never registered here, and destroying one here leaves this context `c`
      unchanged: the key is absent and the pool does not hold the element. The
      reset of the passed object, which clears its components in the other
      context, is not modelled. */
  lemma DestroyForeignEntityIsNoOp(c: Context, other: Context, i: nat)
    requires Contexts.Valid(c) && Contexts.Valid(other)
    requires c.entityPool.Live? && other.entityPool.Live?
    requires c.entityPool.origin != other.entityPool.origin
    requires i < |other.entityPool.elems|
    ensures !HasEntity(c, other.entityPool.elems[i].id)
    ensures DestroyEntity(c, other.entityPool.elems[i].id) == Ok(c)
  {
    var p, id := c.entityPool, other.entityPool.elems[i].id;
    assert id.origin == other.entityPool.origin;
    forall j | 0 <= j < |p.elems| ensures p.elems[j].id != id {
      assert p.elems[j].id.origin == p.origin;
    }
    EntityPoolLemmas.RepayForeignIsNoOp(p, id);
    assert c.directory - {id} == c.directory;
  }

  /** Destroying an entity that is pooled and in use but not registered (for
      instance one left behind by `destroyAllEntities()`) leaves the directory
      as it is, yet still resets the entity and clears its in-use flag. */
  lemma DestroyUnregisteredStillRepays(c: Context, i: nat)
    requires Contexts.Valid(c) && c.entityPool.Live? && i < |c.entityPool.elems|
    requires c.entityPool.elems[i].id !in c.directory
    ensures var r := DestroyEntity(c, c.entityPool.elems[i].id);
            && r.Ok? && r.value.directory == c.directory
            && !r.value.entityPool.used[i] && r.value.entityPool.elems[i].IsBlank()
  {
  }

  /** After `destroyAllEntities()` the pool still counts every previously
      registered entity as in use: the flags are exactly those before the call. */
  lemma DestroyAllKeepsEntitiesInUse(c: Context, id: Id)
    requires Contexts.Valid(c) && c.entityPool.Live? && id in c.directory
    ensures var d := DestroyAllEntities(c);
            !HasEntity(d, id) && id in InUseIds(d.entityPool)
  {
    var p := c.entityPool;
    var i :| 0 <= i < |p.elems| && p.used[i] && p.elems[i].id == id;
    assert DestroyAllEntities(c).entityPool.elems[i].id == id;
  }
}
