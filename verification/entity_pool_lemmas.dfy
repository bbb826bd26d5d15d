/** Properties of the entity pool that relate several calls. */
module EntityPoolLemmas {
  import opened Wrappers
  import opened Entities
  import opened EntityPools

  /** The growth defect: on a full pool, `get()` returns the element at the last
      old index, which some earlier caller already holds, although the growth
      has just made free slots. */
  lemma GrowthHandsOutLiveElement(p: EntityPool)
    requires p.Live? && Valid(p) && Full(p)
    ensures Get(p).Ok?
    ensures Get(p).value.slot == |p.used| - 1
    ensures Get(p).value.entity == p.elems[|p.used| - 1] && p.used[|p.used| - 1]
    ensures !Full(Get(p).value.pool)
  {
    var q := Get(p).value.pool;
    assert !q.used[|p.used|];
  }

  /** After the defective growth, the following `get()` returns the first slot
      added by the growth. */
  lemma GrowthThenNextGet(p: EntityPool)
    requires p.Live? && Valid(p) && Full(p)
    ensures Get(p).Ok? && Get(Get(p).value.pool).Ok?
    ensures Get(Get(p).value.pool).value.slot == |p.used|
  {
    GrowthHandsOutLiveElement(p);
    assert !Get(p).value.pool.used[|p.used|];
  }

  /** With the corrected growth, no call ever hands out an element that was in
      use: the chosen slot was free, or it is new and carries a fresh id. */
  lemma GetFixedHandsOutFreeElement(p: EntityPool)
    requires p.Live? && Valid(p)
    ensures GetFixed(p).Ok?
    ensures var a := GetFixed(p).value;
            (a.slot < |p.used| && !p.used[a.slot]) ||
            (a.slot >= |p.used| && forall i | 0 <= i < |p.elems| :: p.elems[i].id != a.entity.id)
  {
  }

  /** Repaying the element `get()` just took from a free slot restores every
      in-use flag and leaves the storage as it was, up to resetting that element. */
  lemma GetThenRepayRestoresFlags(p: EntityPool)
    requires p.Live? && Valid(p) && !Full(p)
    ensures var a := Get(p).value;
            && Repay(a.pool, a.entity.id).Ok?
            && Repay(a.pool, a.entity.id).value.used == p.used
            && Repay(a.pool, a.entity.id).value.elems == p.elems[a.slot := p.elems[a.slot].Reset()]
  {
    var a := Get(p).value;
    var q := Repay(a.pool, a.entity.id).value;
    forall i | 0 <= i < |p.used| ensures q.used[i] == p.used[i] {
      if i != a.slot { assert p.elems[i].id != a.entity.id; }
    }
    forall i | 0 <= i < |p.elems| ensures q.elems[i] == p.elems[a.slot := p.elems[a.slot].Reset()][i] {
      if i != a.slot { assert p.elems[i].id != a.entity.id; }
    }
  }

  /** Repaying twice is the same as repaying once. */
  lemma RepayIdempotent(p: EntityPool, e: Id)
    requires p.Live? && Valid(p)
    ensures Repay(p, e).Ok?
    ensures Repay(Repay(p, e).value, e) == Repay(p, e)
  {
    var q := Repay(p, e).value;
    var q2 := Repay(q, e).value;
    forall i | 0 <= i < |q.elems|
      ensures q2.elems[i] == q.elems[i] && q2.used[i] == q.used[i]
    {
      if q.elems[i].id == e {
        assert q.elems[i].Reset() == q.elems[i];
      }
    }
    assert q2.elems == q.elems;
    assert q2.used == q.used;
  }

  /** Repaying an element the pool does not hold changes nothing. */
  lemma RepayForeignIsNoOp(p: EntityPool, e: Id)
    requires p.Live? && Valid(p)
    requires forall i | 0 <= i < |p.elems| :: p.elems[i].id != e
    ensures Repay(p, e) == Ok(p)
  {
    var q := Repay(p, e).value;
    assert q.elems == p.elems;
    assert q.used == p.used;
  }

  /** Capacity never shrinks and an element keeps the id it was constructed
      with, across `get()` and `repay()`. */
  lemma IdsAndCapacityStable(p: EntityPool, e: Id)
    requires p.Live? && Valid(p)
    ensures var q := Get(p).value.pool;
            |q.used| >= |p.used| && forall i | 0 <= i < |p.elems| :: q.elems[i].id == p.elems[i].id
    ensures var q := Repay(p, e).value;
            |q.used| == |p.used| && forall i | 0 <= i < |p.elems| :: q.elems[i].id == p.elems[i].id
  {
  }
}
