/** One room of the game server and the transitions its socket handlers
    apply to it (server/server.js). Each handler is modelled as a pure
    function from the room before the event to the room after it; the
    broadcasts that follow each mutation are not part of the model. */
module Rooms {
  import opened Optional
  import opened Strokes

  /** A socket id: one per live connection, also used as the player id. */
  type UserId = string

  datatype User = User(username: string, id: UserId, points: int)

  /** Entries of the room's chat log: the server's own join/leave notices
      and the payloads players send, stored as received. */
  datatype Message =
    | System(text: string)
    | Chat(author: string, text: string, time: string)

  /** The values of `STATES`; nothing in the server ever sets `Finished`. */
  datatype Phase = Lobby | Game | Finished

  /** The room record. `currentDrawer` holds the drawer's id: the handlers
      only ever read `currentDrawer.id`, and `None` is the `undefined` left
      by reading `users[k]` past the end of the list. */
  datatype Room = Room(
    id: string,
    users: seq<User>,
    leaderId: UserId,
    currentDrawer: Option<UserId>,
    messages: seq<Message>,
    state: Phase,
    history: seq<Entry>,
    undoHistory: seq<Entry>,
    drawtime: int,
    rounds: int,
    currentRound: int,
    wordDifficulty: string,
    currentWord: Option<string>)

  // ---------------------------------------------------------------------
  // The user list

  /** `users[k].id` in JavaScript: `undefined` outside the list. */
  function UserAt(users: seq<User>, k: int): (r: Option<UserId>)
    ensures r.Some? <==> 0 <= k < |users|
    ensures r.Some? ==> r.value == users[k].id
  {
    if 0 <= k < |users| then Some(users[k].id) else None
  }

  /** `i` is the first position of the list holding a user with this id. */
  predicate FirstAt(users: seq<User>, id: UserId, i: int)
  {
    && 0 <= i < |users|
    && users[i].id == id
    && forall j :: 0 <= j < i ==> users[j].id != id
  }

  /** No user of the list has this id. */
  predicate Absent(users: seq<User>, id: UserId)
  {
    forall j :: 0 <= j < |users| ==> users[j].id != id
  }

  /** `users.findIndex(user => user.id == id)`: -1 when there is none. */
  function IndexOfUser(users: seq<User>, id: UserId): (i: int)
    ensures -1 <= i < |users|
    ensures i >= 0 ==> FirstAt(users, id, i)
    ensures i == -1 <==> Absent(users, id)
  {
    if |users| == 0 then -1
    else if users[0].id == id then 0
    else
      var k := IndexOfUser(users[1..], id);
      if k == -1 then -1 else k + 1
  }

  /** `users.find(u => u.id === id)`. */
  function FindUser(users: seq<User>, id: UserId): (r: Option<User>)
    ensures r.None? <==> Absent(users, id)
    ensures r.Some? ==> exists i :: FirstAt(users, id, i) && r.value == users[i]
  {
    var i := IndexOfUser(users, id);
    if i < 0 then None else Some(users[i])
  }

  /** `removeUserFromRoom`: `users.filter(user => user.id !== id)`. */
  function Without(users: seq<User>, id: UserId): (r: seq<User>)
    ensures |r| <= |users|
    ensures forall u :: u in r <==> u in users && u.id != id
  {
    if |users| == 0 then []
    else (if users[0].id != id then [users[0]] else []) + Without(users[1..], id)
  }

  /** Filtering distributes over concatenation, so the users that stay keep
      their relative order. */
  lemma {:induction false} WithoutAppend(a: seq<User>, b: seq<User>, id: UserId)
    ensures Without(a + b, id) == Without(a, id) + Without(b, id)
  {
    if |a| == 0 {
      assert a + b == b;
    } else {
      assert (a + b)[1..] == a[1..] + b;
      WithoutAppend(a[1..], b, id);
    }
  }

  /** Removing an id nobody has changes nothing. */
  lemma {:induction false} WithoutAbsent(users: seq<User>, id: UserId)
    requires Absent(users, id)
    ensures Without(users, id) == users
  {
    if |users| > 0 {
      WithoutAbsent(users[1..], id);
    }
  }

  /** `users.forEach(user => user.points = 0)`. */
  function ResetPoints(users: seq<User>): (r: seq<User>)
    ensures |r| == |users|
    ensures forall i :: 0 <= i < |users| ==> r[i] == users[i].(points := 0)
  {
    if |users| == 0 then [] else [users[0].(points := 0)] + ResetPoints(users[1..])
  }

  // ---------------------------------------------------------------------
  // Creation and membership

  /** The record `create_room` pushes: the creator is leader and the
      default drawer, but is not yet in `users` (they join separately). */
  function NewRoom(roomId: string, creator: UserId, drawtime: int, rounds: int,
                   difficulty: string): (r: Room)
    ensures r.id == roomId && r.state == Lobby && r.currentRound == 1
    ensures r.users == [] && r.messages == [] && r.history == [] && r.undoHistory == []
    ensures r.currentWord.None?
    ensures r.leaderId == creator && r.currentDrawer == Some(creator)
    ensures r.drawtime == drawtime && r.rounds == rounds && r.wordDifficulty == difficulty
  {
    Room(roomId, [], creator, Some(creator), [], Lobby, [], [], drawtime, rounds, 1,
         difficulty, None)
  }

  /** The notice appended when a user joins. */
  function JoinNotice(username: string): Message
  {
    System(username + " joined.")
  }

  /** The notice appended when a user leaves. */
  function LeaveNotice(username: string): Message
  {
    System(username + " left.")
  }

  /** `join_room` on an existing room: the socket becomes a user with no
      points at the end of the list, and a join notice is logged. */
  function Join(room: Room, sock: UserId, username: string): (r: Room)
    ensures |r.users| == |room.users| + 1
    ensures r.users[..|room.users|] == room.users
    ensures r.users[|room.users|] == User(username, sock, 0)
    ensures r.messages == room.messages + [JoinNotice(username)]
    ensures r.(users := room.users, messages := room.messages) == room
  {
    room.(users := room.users + [User(username, sock, 0)],
          messages := room.messages + [JoinNotice(username)])
  }

  /** The part of `userLeave` that mutates the room: log the notice, drop
      every user with the socket's id, and hand leadership to the first
      remaining user. An emptied room keeps its leader (it is discarded).
      The drawer is not reassigned, even when it is the leaving user. */
  function Leave(room: Room, sock: UserId, username: string): (r: Room)
    ensures r.users == Without(room.users, sock)
    ensures r.messages == room.messages + [LeaveNotice(username)]
    ensures |r.users| > 0 ==> r.leaderId == r.users[0].id
    ensures |r.users| == 0 ==> r.leaderId == room.leaderId
    ensures r.(users := room.users, messages := room.messages, leaderId := room.leaderId) == room
  {
    var users := Without(room.users, sock);
    var leader := if |users| > 0 then users[0].id else room.leaderId;
    room.(users := users, messages := room.messages + [LeaveNotice(username)], leaderId := leader)
  }

  /** A user with a new socket id that joins and then leaves restores the
      user list. The leave hands leadership to the first user, so the room
      comes back as it was, with only the two notices added, exactly when
      the leader already was the first user. */
  lemma JoinThenLeave(room: Room, sock: UserId, username: string)
    requires Absent(room.users, sock)
    requires |room.users| > 0
    ensures Leave(Join(room, sock, username), sock, username).users == room.users
    ensures Leave(Join(room, sock, username), sock, username).leaderId == room.users[0].id
    ensures Leave(Join(room, sock, username), sock, username)
            == room.(messages := room.messages + [JoinNotice(username), LeaveNotice(username)],
                     leaderId := room.users[0].id)
    ensures room.leaderId == room.users[0].id <==>
            Leave(Join(room, sock, username), sock, username)
              == room.(messages := room.messages + [JoinNotice(username), LeaveNotice(username)])
  {
    var joined := Join(room, sock, username);
    assert joined.users == room.users + [User(username, sock, 0)];
    WithoutAppend(room.users, [User(username, sock, 0)], sock);
    WithoutAbsent(room.users, sock);
    assert Without([User(username, sock, 0)], sock) == [];
  }

  /** `send_message`: the payload is appended to the log as received. */
  function SendMessage(room: Room, m: Message): (r: Room)
    ensures |r.messages| == |room.messages| + 1
    ensures r.messages[..|room.messages|] == room.messages && r.messages[|room.messages|] == m
    ensures r.(messages := room.messages) == room
  {
    room.(messages := room.messages + [m])
  }

  /** The chat log is append-only: every room transition keeps the earlier
      messages as a prefix, and only join, leave and send add to it. */
  lemma MessagesOnlyGrow(room: Room, sock: UserId, name: string, m: Message, word: string,
                         newRound: bool, colour: string, width: string, at: Point)
    ensures room.messages <= Join(room, sock, name).messages
    ensures room.messages <= Leave(room, sock, name).messages
    ensures room.messages <= SendMessage(room, m).messages
    ensures Initialize(room, word).messages == room.messages
    ensures NewDrawer(room, word, newRound).Some? ==>
              NewDrawer(room, word, newRound).value.messages == room.messages
    ensures DrawStart(room, colour, width, at).messages == room.messages
    ensures Drawing(room, at).Some? ==> Drawing(room, at).value.messages == room.messages
    ensures Undo(room).messages == room.messages && Redo(room).messages == room.messages
    ensures ClearBoard(room).messages == room.messages
  {
  }

  // ---------------------------------------------------------------------
  // Game phase and turns

  /** The invariant the game phase is meant to keep: while a game is on,
      the drawer is one of the room's users. */
  predicate DrawerPresent(room: Room)
  {
    room.state == Game ==>
      room.currentDrawer.Some? && !Absent(room.users, room.currentDrawer.value)
  }

  /** `initialize`: the game starts, the first user draws, every score is
      reset and the chosen word is recorded. With no users the drawer is
      `undefined`. */
  function Initialize(room: Room, word: string): (r: Room)
    ensures r.state == Game
    ensures r.currentDrawer == UserAt(room.users, 0)
    ensures |r.users| == |room.users|
    ensures forall i :: 0 <= i < |room.users| ==>
              r.users[i].points == 0 && r.users[i].id == room.users[i].id
              && r.users[i].username == room.users[i].username
    ensures r.currentWord == Some(word)
    ensures |room.users| > 0 ==> DrawerPresent(r)
    ensures r.(state := room.state, currentDrawer := room.currentDrawer, users := room.users,
               currentWord := room.currentWord) == room
  {
    room.(state := Game, currentDrawer := UserAt(room.users, 0),
          users := ResetPoints(room.users), currentWord := Some(word))
  }

  /** `new_drawer`. With `newRound` the first user draws and the round
      counter goes up by one. Otherwise the user after the current drawer
      draws: the first user when the drawer is no longer in the list, and
      `undefined` when the drawer was last. The handler throws (None) when
      there is no current drawer to look up; with no users `findIndex`
      never runs its callback, so an empty room yields `users[0]`, which
      is `undefined`, without throwing. */
  function NewDrawer(room: Room, word: string, newRound: bool): (r: Option<Room>)
    ensures r.None? <==> !newRound && room.currentDrawer.None? && |room.users| > 0
    ensures r.Some? ==> r.value.(currentDrawer := room.currentDrawer,
                                 currentRound := room.currentRound,
                                 currentWord := room.currentWord) == room
    ensures r.Some? ==> r.value.currentWord == Some(word)
    ensures newRound ==> r.Some? && r.value.currentRound == room.currentRound + 1
                         && r.value.currentDrawer == UserAt(room.users, 0)
    ensures !newRound && r.Some? ==> r.value.currentRound == room.currentRound
    ensures !newRound && room.currentDrawer.Some? ==>
              r.Some? && forall i :: FirstAt(room.users, room.currentDrawer.value, i) ==>
                r.value.currentDrawer == UserAt(room.users, i + 1)
    ensures !newRound && room.currentDrawer.Some? && Absent(room.users, room.currentDrawer.value) ==>
              r.Some? && r.value.currentDrawer == UserAt(room.users, 0)
    ensures !newRound && |room.users| == 0 ==> r.Some? && r.value.currentDrawer.None?
  {
    if newRound then
      Some(room.(currentDrawer := UserAt(room.users, 0), currentRound := room.currentRound + 1,
                 currentWord := Some(word)))
    else
      match room.currentDrawer
      case None => if |room.users| == 0 then Some(room.(currentWord := Some(word))) else None
      case Some(d) =>
        Some(room.(currentDrawer := UserAt(room.users, IndexOfUser(room.users, d) + 1),
                   currentWord := Some(word)))
  }

  /** Leaving does not keep the game invariant: when the drawer leaves, the
      room stays in the game phase with a drawer that is no longer a user. */
  lemma DrawerLeavingBreaksInvariant(room: Room, sock: UserId, username: string)
    requires room.state == Game && room.currentDrawer == Some(sock)
    ensures !DrawerPresent(Leave(room, sock, username))
  {
  }

  /** The invariant can hold before the drawer leaves: a two-player game
      whose first player draws, and that player leaves. */
  lemma {:induction false} DrawerLeavingFromValidRoom()
    ensures var room := Room("R", [User("a", "s1", 0), User("b", "s2", 0)], "s1", Some("s1"),
                             [], Game, [], [], 30, 3, 1, "easy", Some("cat"));
            DrawerPresent(room) && !DrawerPresent(Leave(room, "s1", "a"))
  {
    var room := Room("R", [User("a", "s1", 0), User("b", "s2", 0)], "s1", Some("s1"),
                     [], Game, [], [], 30, 3, 1, "easy", Some("cat"));
    assert room.users[0].id == "s1";
    DrawerLeavingBreaksInvariant(room, "s1", "a");
  }

  // ---------------------------------------------------------------------
  // The stroke ledger

  /** `send_draw_start`: a new stroke with a single point is pushed. The
      undo stack is left alone. */
  function DrawStart(room: Room, colour: string, width: string, at: Point): (r: Room)
    ensures |r.history| == |room.history| + 1
    ensures r.history[..|room.history|] == room.history
    ensures r.history[|room.history|] == Some(Stroke(colour, width, [at]))
    ensures r.undoHistory == room.undoHistory
    ensures r.(history := room.history) == room
  {
    room.(history := room.history + [Some(Stroke(colour, width, [at]))])
  }

  /** `send_drawing`: the point is appended to the last stroke. Reading
      `.points` of the last slot throws (None) when the ledger is empty or
      that slot is `undefined`. */
  function Drawing(room: Room, at: Point): (r: Option<Room>)
    ensures r.None? <==> |room.history| == 0 || room.history[|room.history| - 1].None?
    ensures r.Some? ==>
              var n := |room.history|;
              var last := room.history[n - 1].value;
              && |r.value.history| == n
              && r.value.history[..n - 1] == room.history[..n - 1]
              && r.value.history[n - 1] == Some(last.(points := last.points + [at]))
              && r.value.(history := room.history) == room
  {
    if |room.history| == 0 then None
    else
      var n := |room.history|;
      match room.history[n - 1]
      case None => None
      case Some(last) =>
        Some(room.(history := room.history[n - 1 := Some(last.(points := last.points + [at]))]))
  }

  /** `undo`: `undoHistory.push(history.pop())`. On an empty ledger the pop
      yields `undefined`, which is pushed onto the undo stack. */
  function Undo(room: Room): (r: Room)
    ensures |room.history| > 0 ==>
              && r.history == room.history[..|room.history| - 1]
              && r.undoHistory == room.undoHistory + [room.history[|room.history| - 1]]
    ensures |room.history| == 0 ==>
              r.history == [] && r.undoHistory == room.undoHistory + [None]
    ensures |room.history| > 0 ==>
              |r.history| + |r.undoHistory| == |room.history| + |room.undoHistory|
    ensures r.(history := room.history, undoHistory := room.undoHistory) == room
  {
    if |room.history| == 0 then room.(undoHistory := room.undoHistory + [None])
    else
      var n := |room.history|;
      room.(history := room.history[..n - 1], undoHistory := room.undoHistory + [room.history[n - 1]])
  }

  /** `redo`: `history.push(undoHistory.pop())`, with the same `undefined`
      behaviour on an empty undo stack. */
  function Redo(room: Room): (r: Room)
    ensures |room.undoHistory| > 0 ==>
              && r.undoHistory == room.undoHistory[..|room.undoHistory| - 1]
              && r.history == room.history + [room.undoHistory[|room.undoHistory| - 1]]
    ensures |room.undoHistory| == 0 ==>
              r.undoHistory == [] && r.history == room.history + [None]
    ensures |room.undoHistory| > 0 ==>
              |r.history| + |r.undoHistory| == |room.history| + |room.undoHistory|
    ensures r.(history := room.history, undoHistory := room.undoHistory) == room
  {
    if |room.undoHistory| == 0 then room.(history := room.history + [None])
    else
      var n := |room.undoHistory|;
      room.(undoHistory := room.undoHistory[..n - 1], history := room.history + [room.undoHistory[n - 1]])
  }

  /** Redo undoes an undo of a non-empty ledger. */
  lemma UndoThenRedo(room: Room)
    requires |room.history| > 0
    ensures Redo(Undo(room)) == room
  {
    var n := |room.history|;
    assert room.history[..n - 1] + [room.history[n - 1]] == room.history;
  }

  /** Undo undoes a redo of a non-empty undo stack. */
  lemma RedoThenUndo(room: Room)
    requires |room.undoHistory| > 0
    ensures Undo(Redo(room)) == room
  {
    var n := |room.undoHistory|;
    assert room.undoHistory[..n - 1] + [room.undoHistory[n - 1]] == room.undoHistory;
  }

  /** On an empty ledger undo is not a no-op: it grows the undo stack by an
      `undefined` slot, and a following redo moves that slot into the ledger. */
  lemma UndoOnEmptyLedger(room: Room)
    requires room.history == []
    ensures Undo(room).undoHistory == room.undoHistory + [None]
    ensures Redo(Undo(room)).history == [None]
    ensures Redo(Undo(room)) != room
  {
  }

  /** Neither the ledger nor the undo stack holds an `undefined` slot. */
  predicate LedgerDefined(room: Room)
  {
    AllDefined(room.history) && AllDefined(room.undoHistory)
  }

  /** Strokes, undo and redo keep every slot a stroke, except that popping
      an empty stack is exactly what lets `undefined` in. */
  lemma LedgerStaysDefined(room: Room, colour: string, width: string, at: Point)
    requires LedgerDefined(room)
    ensures LedgerDefined(DrawStart(room, colour, width, at))
    ensures Drawing(room, at).Some? ==> LedgerDefined(Drawing(room, at).value)
    ensures LedgerDefined(Undo(room)) <==> |room.history| > 0
    ensures LedgerDefined(Redo(room)) <==> |room.undoHistory| > 0
  {
    if |room.history| == 0 {
      assert Undo(room).undoHistory[|room.undoHistory|].None?;
    }
    if |room.undoHistory| == 0 {
      assert Redo(room).history[|room.history|].None?;
    }
  }

  /** `clear_board`: both the ledger and the undo stack are emptied. */
  function ClearBoard(room: Room): (r: Room)
    ensures r.history == [] && r.undoHistory == []
    ensures r.(history := room.history, undoHistory := room.undoHistory) == room
  {
    room.(history := [], undoHistory := [])
  }

  /** After a clear, undo and redo only ever add `undefined` slots. */
  lemma ClearedLedgerHasNoStrokes(room: Room)
    ensures Undo(ClearBoard(room)).undoHistory == [None]
    ensures Redo(ClearBoard(room)).history == [None]
  {
  }

}
