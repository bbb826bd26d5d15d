/** GameComponents: the test schema, four component kinds over five slot ids with
    slot 2 left as a gap. */
module GameComponents {
  import opened Wrappers
  import opened Schema
  import Contexts

  const ANIMATION: nat := 0
  const MOTION: nat := 1
  const POSITION: nat := 3
  const VIEW: nat := 4

  const NUMBER_COMPONENTS: nat := 5

  const COMPONENT_NAMES: seq<Option<string>> :=
    [Some("Animation"), Some("Motion"), None, Some("Position"), Some("View")]

  const COMPONENT_TYPES: seq<Option<TypeToken>> :=
    [Some(TypeToken("Animation")), Some(TypeToken("Motion")), None,
     Some(TypeToken("Position")), Some(TypeToken("View"))]

  /** The descriptor a Context is built from. */
  function Info(): (info: ContextInfo)
    ensures WellFormed(info)
    ensures info.count == |info.names| == |info.types| == 5
  {
    ContextInfo(NUMBER_COMPONENTS, COMPONENT_NAMES, COMPONENT_TYPES)
  }

  /** The declared slot ids are pairwise distinct and all below the slot count. */
  lemma SlotIdsDistinctAndInRange()
    ensures forall s | s in [ANIMATION, MOTION, POSITION, VIEW] :: s < NUMBER_COMPONENTS
    ensures |{ANIMATION, MOTION, POSITION, VIEW}| == 4
  {
  }

  /** Names and types are absent at exactly the same slots, and every declared
      slot id has a type. */
  lemma NamesAndTypesAgree()
    ensures forall s | 0 <= s < NUMBER_COMPONENTS ::
              COMPONENT_NAMES[s].None? <==> COMPONENT_TYPES[s].None?
    ensures forall s | s in [ANIMATION, MOTION, POSITION, VIEW] :: COMPONENT_TYPES[s].Some?
  {
  }

  /** Slot 2 is a gap: it has neither name nor type, so a Context built from this
      schema has no component pool there, and has one at every declared slot. */
  lemma GapAtSlotTwo(origin: nat)
    ensures COMPONENT_NAMES[2].None? && COMPONENT_TYPES[2].None?
    ensures Contexts.New(Info(), origin).componentPools[2].None?
    ensures forall s | s in [ANIMATION, MOTION, POSITION, VIEW] ::
              Contexts.New(Info(), origin).componentPools[s].Some?
  {
  }
}
