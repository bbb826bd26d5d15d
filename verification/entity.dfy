/** The entity as the core sees it: a stable identifier and a sparse array of
    component slots indexed by slot id. The Entity class itself is not part of
    this model; only the behaviour the core relies on is: `reset()` empties every
    slot, and `hasComponents(s...)` holds when every listed slot is occupied. */
module Entities {
  import opened Wrappers
  import opened Schema

  /** An entity identifier. The source stamps each constructed entity with a
      random UUID, unique across every pool of the process. The model makes that
      uniqueness structural: an id names the pool that constructed the entity
      (`origin`) and the entity's place in that pool's construction order
      (`serial`). The id also stands for the entity's object identity: two
      references are the same object iff their ids agree. */
  datatype Id = Id(origin: nat, serial: nat)

  /** Components are opaque except for Position, whose `x` coordinate is the one
      field the modelled systems read and write. */
  datatype Component = Position(x: real) | Opaque(kind: TypeToken)

  datatype Entity = Entity(id: Id, slots: seq<Option<Component>>) {

    /** Entity.reset(): every slot emptied, identity kept. */
    function Reset(): (r: Entity)
      ensures r.id == id
      ensures |r.slots| == |slots|
      ensures r.IsBlank()
    {
      Entity(id, seq(|slots|, _ => None))
    }

    predicate IsBlank() {
      forall s | 0 <= s < |slots| :: slots[s].None?
    }

    /** Whether slot `s` holds a component. */
    predicate Has(s: nat) {
      s < |slots| && slots[s].Some?
    }

    /** Occupancy pattern: which slots are filled, regardless of the values. */
    predicate SameOccupancy(other: Entity) {
      |other.slots| == |slots| &&
      forall s | 0 <= s < |slots| :: other.slots[s].Some? == slots[s].Some?
    }
  }

  /** A freshly constructed entity with `width` empty slots. */
  function Blank(id: Id, width: nat): (e: Entity)
    ensures e.id == id && |e.slots| == width && e.IsBlank()
  {
    Entity(id, seq(width, _ => None))
  }
}
