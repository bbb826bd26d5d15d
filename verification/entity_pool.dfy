/** EntityPool: a growable reuse allocator over two parallel arrays, the element
    storage and an in-use flag per slot. */
module EntityPools {
  import opened Wrappers
  import opened Entities

  /** Slots made by the constructor (Constants.BASE_ELEMENT_POOL). */
  const BASE_ELEMENT_POOL: nat := 32
  /** Slots added by each growth (Constants.ADD_ELEMENT_POOL). */
  const ADD_ELEMENT_POOL: nat := 10

  /** Using a pool after `cleanup()` dereferences its dropped arrays; the source
      does not catch the resulting null-pointer failure, so it reaches the caller. */
  datatype PoolFault = StorageReleased

  /** `Live` holds the two parallel arrays; `Released` is a pool after `cleanup()`.
      `width` is the slot count of the schema the entities are bound to.
      `origin` and `nextSerial` stand for the identifier supply: every entity
      this pool constructs carries an id of this origin, with a serial below
      `nextSerial`. */
  datatype EntityPool =
    | Live(elems: seq<Entity>, used: seq<bool>, width: nat, origin: nat, nextSerial: nat)
    | Released(width: nat, origin: nat, nextSerial: nat)

  predicate DistinctIds(es: seq<Entity>) {
    forall i, j | 0 <= i < j < |es| :: es[i].id != es[j].id
  }

  /** The invariant every operation keeps: parallel arrays of equal length, never
      below the base capacity, entities shaped by the schema, ids drawn from the
      pool's own supply and pairwise distinct, and every free slot holding a
      blank entity, ready for reuse. */
  predicate Valid(p: EntityPool) {
    p.Live? ==>
      && |p.elems| == |p.used|
      && |p.elems| >= BASE_ELEMENT_POOL
      && (forall i | 0 <= i < |p.elems| ::
            && p.elems[i].id.origin == p.origin
            && p.elems[i].id.serial < p.nextSerial
            && |p.elems[i].slots| == p.width)
      // free slots are blank: nothing in the model changes an entity after it was repaid
      && (forall i | 0 <= i < |p.elems| :: !p.used[i] ==> p.elems[i].IsBlank())
      && DistinctIds(p.elems)
  }

  /** Whether every slot is in use, so that `get()` must grow. */
  predicate Full(p: EntityPool)
    requires p.Live?
  {
    forall i | 0 <= i < |p.used| :: p.used[i]
  }

  /** `count` freshly constructed entities taking the ids of `origin` with
      serials `first`, `first + 1`, ...
      (Construction by reflection is assumed to succeed; were it to fail, the slot
      would stay null yet be marked free.) */
  function Fresh(origin: nat, first: nat, count: nat, width: nat): (r: seq<Entity>)
    ensures |r| == count
    ensures forall k | 0 <= k < count :: r[k] == Blank(Id(origin, first + k), width)
  {
    seq(count, k requires 0 <= k < count => Blank(Id(origin, first + k), width))
  }

  /** The constructor: BASE_ELEMENT_POOL blank entities with distinct ids, none in
      use. `origin` names this pool's identifier supply; pools given different
      origins never construct entities with equal ids. */
  function New(width: nat, origin: nat): (p: EntityPool)
    ensures p.Live? && Valid(p) && p.origin == origin
    ensures |p.used| == BASE_ELEMENT_POOL
    ensures forall i | 0 <= i < |p.used| :: !p.used[i]
    ensures forall i | 0 <= i < |p.elems| :: p.elems[i].IsBlank() && |p.elems[i].slots| == width
  {
    Live(Fresh(origin, 0, BASE_ELEMENT_POOL, width), seq(BASE_ELEMENT_POOL, _ => false),
         width, origin, BASE_ELEMENT_POOL)
  }

  /** The scan of `get()`: the lowest index at or after `from` whose flag is clear. */
  function FirstFree(used: seq<bool>, from: nat): (r: Option<nat>)
    requires from <= |used|
    ensures r.Some? ==> from <= r.value < |used| && !used[r.value]
    ensures r.Some? ==> forall k | from <= k < r.value :: used[k]
    ensures r.None? ==> forall k | from <= k < |used| :: used[k]
    decreases |used| - from
  {
    if from == |used| then None
    else if !used[from] then Some(from)
    else FirstFree(used, from + 1)
  }

  /** The growth step shared by `get()` and its corrected form: both arrays are
      copied into arrays ADD_ELEMENT_POOL longer, and the new tail is filled with
      freshly constructed, free entities. */
  function Grow(p: EntityPool): (q: EntityPool)
    requires p.Live? && Valid(p)
    ensures q.Live? && Valid(q) && q.width == p.width && q.origin == p.origin
    ensures |q.used| == |p.used| + ADD_ELEMENT_POOL
    ensures q.elems[..|p.elems|] == p.elems && q.used[..|p.used|] == p.used
    ensures forall k | |p.elems| <= k < |q.elems| ::
              !q.used[k] && q.elems[k].IsBlank() && p.nextSerial <= q.elems[k].id.serial
  {
    var q := Live(p.elems + Fresh(p.origin, p.nextSerial, ADD_ELEMENT_POOL, p.width),
                  p.used + seq(ADD_ELEMENT_POOL, _ => false),
                  p.width, p.origin, p.nextSerial + ADD_ELEMENT_POOL);
    assert q.elems[..|p.elems|] == p.elems;
    assert q.used[..|p.used|] == p.used;
    q
  }

  /** What `get()` hands back: the pool after the call, the storage index of the
      element (a modelling aid; the source returns only the element) and the element. */
  datatype Acquired = Acquired(pool: EntityPool, slot: nat, entity: Entity)

  /** `get()` as written. With a free slot, the lowest free slot is marked in use
      and its element returned. With none, the pool grows and then marks and
      returns index `oldLength - 1`, a slot that was already in use. */
  function Get(p: EntityPool): (r: Result<Acquired, PoolFault>)
    requires Valid(p)
    ensures p.Released? <==> r.Err?
    ensures r.Ok? ==>
              var q := r.value.pool;
              && q.Live? && Valid(q) && q.width == p.width
              && q.origin == p.origin && p.nextSerial <= q.nextSerial
              && r.value.slot < |q.elems| && q.used[r.value.slot]
              && r.value.entity == q.elems[r.value.slot]
              && |p.elems| <= |q.elems|
              && (forall i | 0 <= i < |p.elems| :: q.elems[i] == p.elems[i])
              && (forall i | 0 <= i < |p.used| :: q.used[i] == (p.used[i] || i == r.value.slot))
    // a free slot exists: the lowest one, holding a blank entity; nothing else changes
    ensures r.Ok? && !Full(p) ==>
              var q := r.value.pool;
              && r.value.slot < |p.used| && !p.used[r.value.slot]
              && r.value.entity.IsBlank()
              && (forall k | 0 <= k < r.value.slot :: p.used[k])
              && q == p.(used := p.used[r.value.slot := true])
    // every slot in use: grow by ADD_ELEMENT_POOL, keep the old slots, and hand
    // out the last old slot although it is already in use
    ensures r.Ok? && Full(p) ==>
              var q := r.value.pool;
              && |q.used| == |p.used| + ADD_ELEMENT_POOL
              && (forall k | |p.elems| <= k < |q.elems| ::
                    !q.used[k] && q.elems[k].IsBlank() && p.nextSerial <= q.elems[k].id.serial)
              && r.value.slot == |p.used| - 1 && p.used[r.value.slot]
  {
    match p
    case Released(_, _, _) => Err(StorageReleased)
    case Live(elems, used, _, _, _) =>
      match FirstFree(used, 0)
      case Some(i) => Ok(Acquired(p.(used := used[i := true]), i, elems[i]))
      case None =>
        var q := Grow(p);
        var last := |used| - 1;
        Ok(Acquired(q.(used := q.used[last := true]), last, q.elems[last]))
  }

  /** `get()` as evidently intended: on growth, hand out the first NEW slot
      (index `oldLength`) instead of the last old one. */
  function GetFixed(p: EntityPool): (r: Result<Acquired, PoolFault>)
    requires Valid(p)
    ensures p.Released? <==> r.Err?
    ensures r.Ok? ==>
              var q := r.value.pool;
              && q.Live? && Valid(q) && q.width == p.width
              && r.value.slot < |q.elems| && q.used[r.value.slot]
              && r.value.entity == q.elems[r.value.slot]
              && |p.elems| <= |q.elems|
              && (forall i | 0 <= i < |p.elems| :: q.elems[i] == p.elems[i])
              && (forall i | 0 <= i < |p.used| :: q.used[i] == (p.used[i] || i == r.value.slot))
    // the element handed out was not in use before the call, and is blank
    ensures r.Ok? && r.value.slot < |p.used| ==> !p.used[r.value.slot]
    ensures r.Ok? && r.value.slot >= |p.used| ==> p.nextSerial <= r.value.entity.id.serial
    ensures r.Ok? ==> r.value.entity.IsBlank()
    // a free slot exists: the lowest one; every slot in use: the first new slot
    ensures r.Ok? && !Full(p) ==>
              r.value.slot < |p.used| && forall k | 0 <= k < r.value.slot :: p.used[k]
    ensures r.Ok? && Full(p) ==> r.value.slot == |p.used|
  {
    match p
    case Released(_, _, _) => Err(StorageReleased)
    case Live(elems, used, _, _, _) =>
      match FirstFree(used, 0)
      case Some(i) => Ok(Acquired(p.(used := used[i := true]), i, elems[i]))
      case None =>
        var q := Grow(p);
        var first := |used|;
        Ok(Acquired(q.(used := q.used[first := true]), first, q.elems[first]))
  }

  /** The identity scan of `repay()`: the first index at or after `from` holding
      the element with identity `id`. */
  function IndexOf(elems: seq<Entity>, id: Id, from: nat): (r: Option<nat>)
    requires from <= |elems|
    ensures r.Some? ==> from <= r.value < |elems| && elems[r.value].id == id
    ensures r.Some? ==> forall k | from <= k < r.value :: elems[k].id != id
    ensures r.None? ==> forall k | from <= k < |elems| :: elems[k].id != id
    decreases |elems| - from
  {
    if from == |elems| then None
    else if elems[from].id == id then Some(from)
    else IndexOf(elems, id, from + 1)
  }

  /** `repay(e)`: find `e` by identity, clear its flag and reset it. An element
      that is not in the pool raises an exception the method itself catches and
      logs, so the pool is left as it was. */
  function Repay(p: EntityPool, e: Id): (r: Result<EntityPool, PoolFault>)
    requires Valid(p)
    ensures p.Released? <==> r.Err?
    ensures r.Ok? ==>
              var q := r.value;
              && q.Live? && Valid(q)
              && q.width == p.width && q.origin == p.origin && q.nextSerial == p.nextSerial
              && |q.elems| == |p.elems|
              && (forall i | 0 <= i < |p.elems| ::
                    if p.elems[i].id == e
                    then !q.used[i] && q.elems[i] == p.elems[i].Reset()
                    else q.used[i] == p.used[i] && q.elems[i] == p.elems[i])
  {
    match p
    case Released(_, _, _) => Err(StorageReleased)
    case Live(elems, used, _, _, _) =>
      match IndexOf(elems, e, 0)
      case Some(i) =>
        Ok(p.(elems := elems[i := elems[i].Reset()], used := used[i := false]))
      case None =>
        Ok(p)
  }

  /** `cleanup()`: drop both arrays. A second call dereferences the dropped arrays. */
  function Cleanup(p: EntityPool): (r: Result<EntityPool, PoolFault>)
    ensures p.Live? <==> r.Ok?
    ensures r.Ok? ==>
              && r.value.Released? && r.value.width == p.width
              && r.value.origin == p.origin && r.value.nextSerial == p.nextSerial
  {
    match p
    case Live(_, _, width, origin, nextSerial) => Ok(Released(width, origin, nextSerial))
    case Released(_, _, _) => Err(StorageReleased)
  }
}
