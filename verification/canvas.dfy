/** The ledger a client keeps beside its drawing surface
    (client/src/components/Canvas.js): the React state `history`,
    `undoHistory`, `currentLine` and `drag`, and the transitions its mouse,
    button and socket handlers apply. Painting on the 2D context is not
    modelled. */
module Canvas {
  import opened Optional
  import opened Strokes

  datatype State = State(drag: bool, history: seq<Entry>, undoHistory: seq<Entry>,
                         currentLine: seq<Point>)

  /** The component's initial state, seeded from the server's snapshot. */
  function Mount(initHistory: seq<Entry>, initUndoHistory: seq<Entry>): (c: State)
    ensures !c.drag && c.currentLine == []
    ensures c.history == initHistory && c.undoHistory == initUndoHistory
  {
    State(false, initHistory, initUndoHistory, [])
  }

  /** `drawStart`: the gesture begins, the undo stack is dropped (redo is no
      longer possible once new drawing happens) and the first point is
      appended to the line in progress. */
  function DrawStart(c: State, at: Point): (r: State)
    ensures r.drag && r.undoHistory == []
    ensures r.currentLine == c.currentLine + [at]
    ensures r.history == c.history
  {
    c.(drag := true, undoHistory := [], currentLine := c.currentLine + [at])
  }

  /** `drawing`: while dragging, each mouse move adds a point to the line. */
  function Drawing(c: State, at: Point): (r: State)
    ensures c.drag ==> r.currentLine == c.currentLine + [at]
    ensures r.(currentLine := c.currentLine) == c
    ensures !c.drag ==> r == c
  {
    if c.drag then c.(currentLine := c.currentLine + [at]) else c
  }

  /** `drawEnd`: the gesture stops; a line with points is committed as one
      stroke with the current colour and width and the line is reset. An
      empty line commits nothing. */
  function DrawEnd(c: State, colour: string, width: string): (r: State)
    ensures !r.drag && r.undoHistory == c.undoHistory
    ensures |c.currentLine| > 0 ==>
              && r.history == c.history + [Some(Stroke(colour, width, c.currentLine))]
              && r.currentLine == []
    ensures |c.currentLine| == 0 ==> r.history == c.history && r.currentLine == []
  {
    if |c.currentLine| != 0 then
      c.(drag := false, history := c.history + [Some(Stroke(colour, width, c.currentLine))],
         currentLine := [])
    else c.(drag := false)
  }

  /** `undo`: guarded against an empty ledger; otherwise the last stroke
      moves to the top of the undo stack. */
  function Undo(c: State): (r: State)
    ensures |c.history| == 0 ==> r == c
    ensures |c.history| > 0 ==>
              && r.history == c.history[..|c.history| - 1]
              && r.undoHistory == c.undoHistory + [c.history[|c.history| - 1]]
              && r.(history := c.history, undoHistory := c.undoHistory) == c
    ensures |r.history| + |r.undoHistory| == |c.history| + |c.undoHistory|
  {
    if |c.history| == 0 then c
    else
      var n := |c.history|;
      c.(history := c.history[..n - 1], undoHistory := c.undoHistory + [c.history[n - 1]])
  }

  /** `redo`: guarded against an empty undo stack; otherwise its top stroke
      returns to the end of the ledger. */
  function Redo(c: State): (r: State)
    ensures |c.undoHistory| == 0 ==> r == c
    ensures |c.undoHistory| > 0 ==>
              && r.undoHistory == c.undoHistory[..|c.undoHistory| - 1]
              && r.history == c.history + [c.undoHistory[|c.undoHistory| - 1]]
              && r.(history := c.history, undoHistory := c.undoHistory) == c
    ensures |r.history| + |r.undoHistory| == |c.history| + |c.undoHistory|
  {
    if |c.undoHistory| == 0 then c
    else
      var n := |c.undoHistory|;
      c.(undoHistory := c.undoHistory[..n - 1], history := c.history + [c.undoHistory[n - 1]])
  }

  /** Undo followed by redo restores a non-empty ledger. */
  lemma UndoThenRedo(c: State)
    requires |c.history| > 0
    ensures Redo(Undo(c)) == c
  {
    var n := |c.history|;
    assert c.history[..n - 1] + [c.history[n - 1]] == c.history;
  }

  /** Redo followed by undo restores a non-empty undo stack. */
  lemma RedoThenUndo(c: State)
    requires |c.undoHistory| > 0
    ensures Undo(Redo(c)) == c
  {
    var n := |c.undoHistory|;
    assert c.undoHistory[..n - 1] + [c.undoHistory[n - 1]] == c.undoHistory;
  }

  /** `k` undos in a row. */
  function Undos(c: State, k: nat): State
  {
    if k == 0 then c else Undo(Undos(c, k - 1))
  }

  /** `k` redos in a row. */
  function Redos(c: State, k: nat): State
  {
    if k == 0 then c else Redo(Redos(c, k - 1))
  }

  /** `k` undos take the last `k` strokes off the ledger and push them on
      top of the undo stack, leaving everything else as it was. */
  lemma {:induction false} UndosShape(c: State, k: nat)
    requires k <= |c.history|
    ensures Undos(c, k).history == c.history[..|c.history| - k]
    ensures |Undos(c, k).undoHistory| == |c.undoHistory| + k
    ensures Undos(c, k).undoHistory[..|c.undoHistory|] == c.undoHistory
    ensures Undos(c, k).(history := c.history, undoHistory := c.undoHistory) == c
  {
    if k > 0 {
      UndosShape(c, k - 1);
      var d := Undos(c, k - 1);
      assert d.history[..|d.history| - 1] == c.history[..|c.history| - k];
    }
  }

  /** `k` undos stack the last `k` strokes on the undo stack, the most
      recent stroke lowest: the `j`-th stroke above the old stack is the
      `j`-th stroke from the end of the ledger. */
  lemma {:induction false} UndosStack(c: State, k: nat)
    requires k <= |c.history|
    ensures |Undos(c, k).undoHistory| == |c.undoHistory| + k
    ensures forall j :: |c.undoHistory| <= j < |c.undoHistory| + k ==>
              Undos(c, k).undoHistory[j] == c.history[|c.history| + |c.undoHistory| - 1 - j]
  {
    if k > 0 {
      UndosStack(c, k - 1);
      UndosShape(c, k - 1);
      var d := Undos(c, k - 1);
      assert Undos(c, k).undoHistory == d.undoHistory + [d.history[|d.history| - 1]];
      assert d.history[|d.history| - 1] == c.history[|c.history| - k];
    }
  }

  /** Any run of undos is fully reversed by the same number of redos. */
  lemma {:induction false} UndosThenRedos(c: State, k: nat)
    requires k <= |c.history|
    ensures Redos(Undos(c, k), k) == c
  {
    UndosThenRedosFrom(c, k, k);
  }

  lemma {:induction false} UndosThenRedosFrom(c: State, k: nat, j: nat)
    requires j <= k <= |c.history|
    ensures Redos(Undos(c, k), j) == Undos(c, k - j)
  {
    if j > 0 {
      UndosThenRedosFrom(c, k, j - 1);
      UndosShape(c, k - j + 1);
      UndosShape(c, k - j);
      UndoThenRedo(Undos(c, k - j));
    }
  }

  /** `receive_draw_end`: another player's stroke, with the point list the
      sender committed, is appended to the ledger. */
  function ReceiveDrawEnd(c: State, colour: string, width: string, points: seq<Point>): (r: State)
    ensures |r.history| == |c.history| + 1
    ensures r.history[..|c.history|] == c.history
    ensures r.history[|c.history|] == Some(Stroke(colour, width, points))
    ensures r.(history := c.history) == c
  {
    c.(history := c.history + [Some(Stroke(colour, width, points))])
  }

  /** `receive_undo` and `receive_redo`: the server's snapshot replaces both
      stacks. */
  function ReceiveSnapshot(c: State, history: seq<Entry>, undoHistory: seq<Entry>): (r: State)
    ensures r.history == history && r.undoHistory == undoHistory
    ensures r.drag == c.drag && r.currentLine == c.currentLine
  {
    c.(history := history, undoHistory := undoHistory)
  }

  /** `receive_clear_board`: both stacks are emptied. */
  function ClearBoard(c: State): (r: State)
    ensures r.history == [] && r.undoHistory == []
    ensures r.drag == c.drag && r.currentLine == c.currentLine
  {
    c.(history := [], undoHistory := [])
  }

  /** On a cleared board, undo and redo are both no-ops. */
  lemma ClearedBoardIsInert(c: State)
    ensures Undo(ClearBoard(c)) == ClearBoard(c)
    ensures Redo(ClearBoard(c)) == ClearBoard(c)
  {
  }

  /** Starting a stroke makes redo a no-op until something is undone. */
  lemma DrawStartDisablesRedo(c: State, at: Point)
    ensures Redo(DrawStart(c, at)) == DrawStart(c, at)
  {
  }

}
