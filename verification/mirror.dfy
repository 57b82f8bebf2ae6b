/** The client's canvas ledger (client/src/components/Canvas.js) against
    the server's room ledger (server/server.js): where the two stack
    disciplines agree and where they part. */
module Mirror {
  import opened Optional
  import opened Strokes
  import Rooms
  import Canvas

  /** The two ledgers hold the same strokes and the same undo stack. */
  predicate InStep(c: Canvas.State, room: Rooms.Room)
  {
    c.history == room.history && c.undoHistory == room.undoHistory
  }

  /** On a non-empty ledger the client's undo and the server's undo move
      the same stroke, so the ledgers stay in step. */
  lemma UndoInStep(c: Canvas.State, room: Rooms.Room)
    requires InStep(c, room) && |c.history| > 0
    ensures InStep(Canvas.Undo(c), Rooms.Undo(room))
  {
  }

  /** Likewise for redo on a non-empty undo stack. */
  lemma RedoInStep(c: Canvas.State, room: Rooms.Room)
    requires InStep(c, room) && |c.undoHistory| > 0
    ensures InStep(Canvas.Redo(c), Rooms.Redo(room))
  {
  }

  /** On an empty ledger they part: the client ignores the undo, the server
      pushes an `undefined` slot onto its undo stack. */
  lemma UndoOnEmptyPartsWays(c: Canvas.State, room: Rooms.Room)
    requires InStep(c, room) && |c.history| == 0
    ensures Canvas.Undo(c) == c
    ensures !InStep(Canvas.Undo(c), Rooms.Undo(room))
  {
    assert |Rooms.Undo(room).undoHistory| == |room.undoHistory| + 1;
  }

  /** Starting a stroke clears the client's undo stack but not the
      server's; the ledgers part whenever there was something to redo. */
  lemma DrawStartPartsWays(c: Canvas.State, room: Rooms.Room, colour: string, width: string, at: Point)
    requires InStep(c, room) && |c.undoHistory| > 0
    ensures Canvas.DrawStart(c, at).undoHistory == []
    ensures Rooms.DrawStart(room, colour, width, at).undoHistory == room.undoHistory
  {
  }

  /** The mouse moves of one gesture on the client. */
  function ClientDrag(c: Canvas.State, points: seq<Point>): Canvas.State
    decreases |points|
  {
    if |points| == 0 then c else ClientDrag(Canvas.Drawing(c, points[0]), points[1..])
  }

  /** The `send_drawing` events of one gesture on the server. */
  function ServerDrag(room: Rooms.Room, points: seq<Point>): Option<Rooms.Room>
    decreases |points|
  {
    if |points| == 0 then Some(room)
    else match Rooms.Drawing(room, points[0])
      case None => None
      case Some(r) => ServerDrag(r, points[1..])
  }

  lemma {:induction false} ClientDragExtends(c: Canvas.State, points: seq<Point>)
    requires c.drag
    ensures ClientDrag(c, points) == c.(currentLine := c.currentLine + points)
    decreases |points|
  {
    if |points| > 0 {
      ClientDragExtends(Canvas.Drawing(c, points[0]), points[1..]);
      assert c.currentLine + [points[0]] + points[1..] == c.currentLine + points;
    }
  }

  /** Each `send_drawing` lands on the stroke the gesture opened. */
  lemma {:induction false} ServerDragExtends(room: Rooms.Room, points: seq<Point>)
    requires |room.history| > 0 && room.history[|room.history| - 1].Some?
    ensures var n := |room.history|;
            var last := room.history[n - 1].value;
            ServerDrag(room, points)
              == Some(room.(history := room.history[n - 1 := Some(last.(points := last.points + points))]))
    decreases |points|
  {
    var n := |room.history|;
    var last := room.history[n - 1].value;
    if |points| == 0 {
      assert last.points + points == last.points;
      assert room.history[n - 1 := Some(last)] == room.history;
    } else {
      var next := Rooms.Drawing(room, points[0]).value;
      var grown := last.(points := last.points + [points[0]]);
      assert next.history == room.history[n - 1 := Some(grown)];
      ServerDragExtends(next, points[1..]);
      assert grown.points + points[1..] == last.points + points;
      assert next.history[n - 1 := Some(grown.(points := grown.points + points[1..]))]
             == room.history[n - 1 := Some(last.(points := last.points + points))];
    }
  }

  /** One whole gesture as the drawing client records it: mouse down,
      mouse moves, mouse up. */
  function ClientGesture(c: Canvas.State, colour: string, width: string, first: Point,
                         rest: seq<Point>): Canvas.State
  {
    Canvas.DrawEnd(ClientDrag(Canvas.DrawStart(c, first), rest), colour, width)
  }

  /** The same gesture as the server records it from the drawer's events. */
  function ServerGesture(room: Rooms.Room, colour: string, width: string, first: Point,
                         rest: seq<Point>): Option<Rooms.Room>
  {
    ServerDrag(Rooms.DrawStart(room, colour, width, first), rest)
  }

  /** A gesture started with no line in progress commits the same stroke
      on the client and on the server: one stroke holding every point of
      the gesture in order, appended after the existing ledger. */
  lemma GestureInStep(c: Canvas.State, room: Rooms.Room, colour: string, width: string,
                      first: Point, rest: seq<Point>)
    requires c.currentLine == [] && c.history == room.history
    ensures ServerGesture(room, colour, width, first, rest).Some?
    ensures ClientGesture(c, colour, width, first, rest).history
            == ServerGesture(room, colour, width, first, rest).value.history
            == room.history + [Some(Stroke(colour, width, [first] + rest))]
  {
    var started := Canvas.DrawStart(c, first);
    ClientDragExtends(started, rest);
    assert started.currentLine + rest == [first] + rest;
    assert ClientDrag(started, rest).currentLine == [first] + rest;
    var begun := Rooms.DrawStart(room, colour, width, first);
    ServerDragExtends(begun, rest);
    var n := |begun.history|;
    assert begun.history[n - 1 := Some(Stroke(colour, width, [first] + rest))]
           == room.history + [Some(Stroke(colour, width, [first] + rest))];
  }

  /** A viewer that follows the broadcasts stays in step with the server:
      the drawer's committed points (`receive_draw_end`) append the stroke the
      server built from the gesture, and the snapshots sent after an undo or a
      redo (`receive_undo`, `receive_redo`) are the server's stacks. */
  lemma ViewerInStep(viewer: Canvas.State, room: Rooms.Room, colour: string, width: string,
                     first: Point, rest: seq<Point>)
    requires InStep(viewer, room)
    ensures var drawn := ServerGesture(room, colour, width, first, rest);
            && drawn.Some?
            && InStep(Canvas.ReceiveDrawEnd(viewer, colour, width, [first] + rest), drawn.value)
    ensures var undone := Rooms.Undo(room);
            InStep(Canvas.ReceiveSnapshot(viewer, undone.history, undone.undoHistory), undone)
    ensures var redone := Rooms.Redo(room);
            InStep(Canvas.ReceiveSnapshot(viewer, redone.history, redone.undoHistory), redone)
  {
    var begun := Rooms.DrawStart(room, colour, width, first);
    ServerDragExtends(begun, rest);
    var n := |begun.history|;
    assert begun.history[n - 1 := Some(Stroke(colour, width, [first] + rest))]
           == room.history + [Some(Stroke(colour, width, [first] + rest))];
  }

}
