/** The drawing records shared by the server ledger and the client canvas. */
module Strokes {
  import opened Optional

  /** A point on the drawing surface. Coordinates are only stored and
      compared, never computed with, so the model keeps them exact. */
  datatype Point = Point(x: real, y: real)

  /** One drawing gesture: its colour and brush width as the form inputs
      deliver them (strings), and its points in drawing order. */
  datatype Stroke = Stroke(colour: string, width: string, points: seq<Point>)

  /** One slot of a ledger or of an undo stack. `None` is the `undefined`
      that `push(pop())` stores when the popped array was empty. */
  type Entry = Option<Stroke>

  /** True when no slot of the ledger is `undefined`. */
  predicate AllDefined(ledger: seq<Entry>)
  {
    forall i :: 0 <= i < |ledger| ==> ledger[i].Some?
  }

}
