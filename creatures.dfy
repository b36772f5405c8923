/**
 The creature record shared by the editor and the graph builder
 (`interface Creature` in app/page.tsx and components/GraphVisualization.tsx).
 */
module Creatures {

  /** One row of the food web: a name, a single food name (possibly empty) and a fill colour. */
  datatype Creature = Creature(name: string, eats: string, color: string)

  /** A value that may be absent (the edit cursor is a number or null). */
  datatype Option<T> = None | Some(value: T)
}
