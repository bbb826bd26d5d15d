/** MoveSystem.execute(deltaTime): every registered entity that has both a
    Position and a Motion component has its Position's `x` advanced by
    `deltaTime`, or wrapped back to 0 once it has reached the design width. */
module MoveSystem {
  import opened Wrappers
  import opened Entities
  import opened EntityPools
  import opened Contexts

  /** What the system reads from its example's configuration: the slot ids of
      POSITION and MOTION in that example's schema and DESIGN_WIDTH. */
  datatype Layout = Layout(position: nat, motion: nat, designWidth: real)

  /** `hasComponents(POSITION, MOTION)`. */
  predicate Matches(e: Entity, l: Layout) {
    e.Has(l.position) && e.Has(l.motion)
  }

  /** The cast of the POSITION component to Position, which the loop body makes
      only for a matching entity, succeeds. */
  predicate PositionTyped(e: Entity, l: Layout) {
    Matches(e, l) ==> e.slots[l.position].value.Position?
  }

  /** Every entity whose id is listed passes the cast. */
  predicate TypedFor(es: seq<Entity>, ids: set<Id>, l: Layout) {
    forall i | 0 <= i < |es| && es[i].id in ids :: PositionTyped(es[i], l)
  }

  /** The loop body for one entity. */
  function MoveEntity(e: Entity, dt: real, l: Layout): (r: Entity)
    requires PositionTyped(e, l)
    ensures r.id == e.id && r.SameOccupancy(e) && PositionTyped(r, l)
    ensures !Matches(e, l) ==> r == e
    ensures Matches(e, l) ==>
              && (forall s | 0 <= s < |e.slots| && s != l.position :: r.slots[s] == e.slots[s])
              && var x, x' := e.slots[l.position].value.x, r.slots[l.position].value.x;
                 && (x < l.designWidth ==> x' == x + dt)
                 && (x >= l.designWidth ==> x' == 0.0)
  {
    if Matches(e, l) then
      var x := e.slots[l.position].value.x;
      var x' := if x < l.designWidth then x + dt else 0.0;
      e.(slots := e.slots[l.position := Some(Position(x'))])
    else e
  }

  /** The effect of a whole tick on the storage: the registered entities move,
      the others stay as they are. */
  function MoveListed(es: seq<Entity>, ids: set<Id>, dt: real, l: Layout): (r: seq<Entity>)
    requires TypedFor(es, ids, l)
    ensures |r| == |es|
    ensures forall i | 0 <= i < |es| ::
              r[i] == if es[i].id in ids then MoveEntity(es[i], dt, l) else es[i]
  {
    seq(|es|, i requires 0 <= i < |es| =>
          if es[i].id in ids then MoveEntity(es[i], dt, l) else es[i])
  }

  /** `execute(deltaTime)` over a context whose registered matching entities hold
      a Position at POSITION. */
  function Execute(c: Context, dt: real, l: Layout): (r: Context)
    requires Contexts.Valid(c)
    requires c.entityPool.Live? ==> TypedFor(c.entityPool.elems, c.directory, l)
    ensures Contexts.Valid(r)
    ensures r.directory == c.directory && r.info == c.info && r.componentPools == c.componentPools
    ensures r.entityPool.Live? == c.entityPool.Live?
    ensures c.entityPool.Live? ==>
              var es, es' := c.entityPool.elems, r.entityPool.elems;
              && r.entityPool.used == c.entityPool.used
              && |es'| == |es|
              && (forall i | 0 <= i < |es| :: es'[i].id == es[i].id && es'[i].SameOccupancy(es[i]))
              // unregistered entities, and entities lacking POSITION or MOTION, are untouched
              && (forall i | 0 <= i < |es| && (es[i].id !in c.directory || !Matches(es[i], l)) ::
                    es'[i] == es[i])
              // registered matching entities move
              && (forall i | 0 <= i < |es| && es[i].id in c.directory && Matches(es[i], l) ::
                    es'[i] == MoveEntity(es[i], dt, l))
  {
    match c.entityPool
    case Released(_, _, _) => c
    case Live(elems, _, _, _, _) =>
      MovedPoolValid(c.entityPool, c.directory, dt, l);
      c.(entityPool := c.entityPool.(elems := MoveListed(elems, c.directory, dt, l)))
  }

  /** Moving entities keeps the pool invariant and the set of in-use ids: ids,
      shapes and flags are untouched, and a blank entity in a free slot never
      matches, so it stays blank. */
  lemma MovedPoolValid(p: EntityPool, ids: set<Id>, dt: real, l: Layout)
    requires p.Live? && EntityPools.Valid(p) && TypedFor(p.elems, ids, l)
    ensures var q := p.(elems := MoveListed(p.elems, ids, dt, l));
            EntityPools.Valid(q) && InUseIds(q) == InUseIds(p)
  {
    var q := p.(elems := MoveListed(p.elems, ids, dt, l));
    forall i | 0 <= i < |p.elems| ensures q.elems[i].id == p.elems[i].id { }
    assert InUseIds(q) == InUseIds(p);
  }

  /** The loop body applied to the entity with identity `id` only. */
  function MoveOne(es: seq<Entity>, id: Id, dt: real, l: Layout): (r: seq<Entity>)
    requires TypedFor(es, {id}, l)
    ensures |r| == |es|
    ensures forall i | 0 <= i < |es| :: r[i].id == es[i].id && (PositionTyped(es[i], l) ==> PositionTyped(r[i], l))
    ensures forall i | 0 <= i < |es| ::
              r[i] == if es[i].id == id then MoveEntity(es[i], dt, l) else es[i]
  {
    seq(|es|, i requires 0 <= i < |es| =>
          if es[i].id == id then MoveEntity(es[i], dt, l) else es[i])
  }

  /** The loop visiting the directory's entities one at a time, in `order`: the
      reference loop that `RunInOrderMovesAll` and `ExecuteOrderIndependent`
      relate to `MoveListed` and `Execute`. */
  function RunInOrder(es: seq<Entity>, order: seq<Id>, dt: real, l: Layout): (r: seq<Entity>)
    requires TypedFor(es, Members(order), l)
    ensures |r| == |es|
    ensures forall i | 0 <= i < |es| :: r[i].id == es[i].id
    decreases |order|
  {
    if order == [] then es
    else
      var es1 := MoveOne(es, order[0], dt, l);
      assert Members(order[1..]) <= Members(order) by {
        forall k | k in order[1..] ensures k in order { }
      }
      RunInOrder(es1, order[1..], dt, l)
  }

  predicate NoDuplicates(order: seq<Id>) {
    forall i, j | 0 <= i < j < |order| :: order[i] != order[j]
  }

  function Members(order: seq<Id>): set<Id> {
    set k | k in order
  }

  /** Visiting each id once, in any order, has the effect of moving all of them
      at once: each entity's update depends on that entity alone. */
  lemma {:induction false} RunInOrderMovesAll(es: seq<Entity>, order: seq<Id>, dt: real, l: Layout)
    requires TypedFor(es, Members(order), l) && NoDuplicates(order)
    ensures RunInOrder(es, order, dt, l) == MoveListed(es, Members(order), dt, l)
    decreases |order|
  {
    if order == [] {
      assert MoveListed(es, Members(order), dt, l) == es;
    } else {
      var k, rest := order[0], order[1..];
      var es1 := MoveOne(es, k, dt, l);
      assert NoDuplicates(rest) by {
        forall i, j | 0 <= i < j < |rest| ensures rest[i] != rest[j] {
          assert rest[i] == order[i + 1] && rest[j] == order[j + 1];
        }
      }
      RunInOrderMovesAll(es1, rest, dt, l);
      assert k !in Members(rest) by {
        forall j | 0 <= j < |rest| ensures rest[j] != k {
          assert rest[j] == order[j + 1];
        }
      }
      assert Members(order) == Members(rest) + {k} by {
        assert order == [k] + rest;
      }
      var lhs, rhs := MoveListed(es1, Members(rest), dt, l), MoveListed(es, Members(order), dt, l);
      forall i | 0 <= i < |es| ensures lhs[i] == rhs[i] {
        if es[i].id == k {
          assert lhs[i] == es1[i];
        }
      }
      assert lhs == rhs;
    }
  }

  /** The outcome of a tick does not depend on the order in which the directory
      is iterated. */
  lemma ExecuteOrderIndependent(c: Context, dt: real, l: Layout, order: seq<Id>)
    requires Contexts.Valid(c) && c.entityPool.Live?
    requires NoDuplicates(order) && Members(order) == c.directory
    requires TypedFor(c.entityPool.elems, c.directory, l)
    ensures RunInOrder(c.entityPool.elems, order, dt, l) == Execute(c, dt, l).entityPool.elems
  {
    RunInOrderMovesAll(c.entityPool.elems, order, dt, l);
  }
}
