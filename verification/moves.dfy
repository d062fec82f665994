/** A move a form learns by levelling up: the `(level, move)` tuples of a moveset. */
module Moves {

  datatype Entry = Entry(level: int, move: string)

  /** The second pass's looser test: same level or same move name. */
  predicate LooseMatch(x: Entry, y: Entry)
  {
    x.level == y.level || x.move == y.move
  }
}
