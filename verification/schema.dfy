/** The schema descriptor (ContextInfo) a Context is built from: for each slot id
    below `count`, an optional component-type token. An absent token is a gap:
    the slot id is reserved but no component kind is bound to it. */
module Schema {
  import opened Wrappers

  /** Names one component class declared in a schema. */
  datatype TypeToken = TypeToken(name: string)

  datatype ContextInfo = ContextInfo(
    count: nat,
    names: seq<Option<string>>,
    types: seq<Option<TypeToken>>)

  /** What the Context constructor needs of its descriptor: a type entry for every
      slot id below the slot count (otherwise the constructor's scan would run
      off the end of the types array). */
  predicate WellFormed(info: ContextInfo) {
    |info.types| >= info.count
  }
}
