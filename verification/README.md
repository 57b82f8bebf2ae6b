# Pictionary game: room server, canvas ledger and letter reveal in Dafny

This project models the game-state core of a multiplayer drawing game (a
Pictionary clone). It has three parts:

- **The room server** (`server/server.js`). The server keeps a `rooms` array.
  Each room holds its users, leader, current drawer, phase, round counter,
  word, chat log and stroke ledger. The ledger is `canvasActionsHistory` plus
  the undo stack `canvasUndoHistory`. Each socket handler is modelled as a
  pure transition: on one room (module `Rooms`), or on the whole array
  (module `Registry`, which also dispatches an `Event` datatype).
  `Turns` proves how repeated `new_drawer` events rotate the drawer.
- **The client canvas ledger** (`client/src/components/Canvas.js`). This is
  the React state `history`, `undoHistory`, `currentLine` and `drag`, with
  the mouse, button and socket handlers as transitions (module `Canvas`).
  `Mirror` compares it with the server ledger.
- **The letter-reveal timer** (`client/src/components/Timer.js`). This is the
  word mask, the reveal interval and the per-tick reveal (module
  `RevealTimer`). `JsText` models the JavaScript `join`, `split` and
  `filter(...).length` that the timer uses to count hidden slots.

Modelling conventions:

- JavaScript `undefined` is `None` of `Optional.Option`.
- A ledger slot is an `Option<Stroke>`. The server's `push(pop())` on an
  empty array really stores `undefined`, and the model keeps that.
- A handler that throws (usually by reading a field of a failed `getRoom`)
  returns `None` at the registry level. None of these handlers changes
  anything before it throws.
- The drawer is recorded by its id, because the handlers only read
  `currentDrawer.id`.
- Chat messages are stored as the `Chat` payload the client sends, without
  its `roomId` field.
- The random position in `Timer.js` is a parameter. Its range is
  `Math.floor(Math.random() * word.length)`: below the word length, or 0
  for an empty word.

Where the code departs from what the game evidently intends, the model
follows the code:

- Server undo and redo are not guarded against empty stacks. They push
  `undefined` (`Rooms.UndoOnEmptyLedger`). The client guards them
  (`Mirror.UndoOnEmptyPartsWays`).
- `send_draw_start` does not clear the server's undo stack. The client's
  `drawStart` does (`Mirror.DrawStartPartsWays`).
- A leaving drawer is not replaced, so the game phase can be left without a
  drawer who is a user (`Rooms.DrawerLeavingBreaksInvariant`).
- `create_room` does not reject a duplicate id. The new room is stored but
  shadowed by the first room with that id (`Registry.CreateThenGet`).
- Nothing sets the `FINISHED` phase. No handler checks that the caller is
  the drawer.

## Model

| member | source | states |
|---|---|---|
| Registry.FindRoom | server/server.js:28 | Gives the position of the first room with the id, or none exactly when no room has it. |
| Registry.GetRoom | server/server.js:28 | `getRoom` returns the first room whose id matches, or undefined when no room matches. |
| Registry.Create | server/server.js:34-52 | `create_room` appends one new room and leaves every existing room in place. It never rejects an id. |
| Registry.CreateThenGet | server/server.js:28-52 | After a create, a lookup finds the new room only if no earlier room had the id. Otherwise the earlier room shadows it. |
| Rooms.NewRoom | server/server.js:35-51 | A new room is in LOBBY with round 1. Users, messages, ledger and undo stack are empty and the word is null. The creator is both leader and drawer. |
| Rooms.Join | server/server.js:54-60 | Exactly one user with 0 points is appended after the existing users, and one join notice is logged. Nothing else changes. |
| Rooms.Without | server/server.js:29 | `removeUserFromRoom` keeps exactly the users whose id differs from the leaving socket's id. |
| Rooms.WithoutAppend | server/server.js:29 | The filter distributes over concatenation, so the remaining users keep their relative order. |
| Rooms.WithoutAbsent | server/server.js:29 | Removing an id that no user has leaves the list unchanged. |
| Rooms.IndexOfUser | server/server.js:92 | `findIndex` gives the first position holding the id, and -1 exactly when the id is absent. |
| Rooms.UserAt | server/server.js:78-92 | `users[k].id` is the id at position k when k is inside the list, and undefined otherwise. |
| Rooms.FindUser | server/server.js:144 | `users.find` gives the first user with the id, or undefined exactly when there is none. |
| Rooms.MessagesOnlyGrow | server/server.js:54-194 | The chat log is append-only. Only join, leave and send-message add to it, and every other transition leaves it unchanged. |
| Rooms.ClearBoard | server/server.js:68-73 | `clear_board` empties the ledger and the undo stack and changes nothing else. |
| Rooms.ResetPoints | server/server.js:79 | Every user keeps its place and identity and gets 0 points. |
| Rooms.Initialize | server/server.js:75-80 | `initialize` sets the phase to GAME, the drawer to `users[0]` (undefined if there are no users), every score to 0 and the word to the given one. The user list is otherwise unchanged, and with users present the drawer is a user. |
| Rooms.NewDrawer | server/server.js:86-94 | With newRound, the first user draws and the round goes up by exactly 1. Otherwise the user after the drawer's first position draws: the first user when the drawer is absent, and undefined when the drawer was last. The round is unchanged. The handler throws exactly when there is no drawer and the room has users. In an empty room `findIndex` never reads the drawer, so the drawer just stays undefined. |
| Turns.RotationVisitsInOrder | server/server.js:86-94 | With distinct ids and the first user drawing, k plain advances hand the turn to user k. Round and users are unchanged. |
| Turns.PlainAdvancePastLastUser | server/server.js:92 | A plain advance from the last user leaves the drawer undefined, and the advance after that throws. |
| Turns.FullRound | server/server.js:88-94 | One round visits every user in join order. The newRound advance then returns to the first user with the round one higher. |
| Turns.InitializeStartsRotation | server/server.js:75-94 | After `initialize` with distinct ids, k plain advances hand the turn to user k, so the rotation starts at the first user. |
| Rooms.SendMessage | server/server.js:99-102 | `send_message` appends the payload as the last message and changes nothing else. |
| Rooms.DrawStart | server/server.js:106-111 | `send_draw_start` appends one stroke holding exactly the one start point. Earlier strokes and the undo stack are unchanged. |
| Rooms.Drawing | server/server.js:114-118 | `send_drawing` appends the point to the last stroke only, and the ledger length and earlier strokes are unchanged. It throws exactly when the ledger is empty or its last slot is undefined. |
| Registry.DrawEndChangesNothing | server/server.js:121-124 | `send_draw_end` on an existing room leaves the registry unchanged. |
| Rooms.Undo | server/server.js:126-130 | `undo` moves the last ledger slot onto the undo stack, keeping the total number of slots. On an empty ledger it pushes undefined instead. |
| Rooms.Redo | server/server.js:132-137 | `redo` moves the top of the undo stack back onto the ledger, keeping the total. On an empty undo stack it pushes undefined onto the ledger. |
| Rooms.UndoThenRedo | server/server.js:126-137 | On a non-empty ledger, undo followed by redo restores the room exactly. |
| Rooms.RedoThenUndo | server/server.js:126-137 | On a non-empty undo stack, redo followed by undo restores the room exactly. |
| Rooms.UndoOnEmptyLedger | server/server.js:128 | Undo on an empty ledger is not a no-op: it adds an undefined slot, and a redo then moves that slot into the ledger. |
| Rooms.LedgerStaysDefined | server/server.js:106-137 | Strokes and points keep every slot a stroke. Undo and redo bring in undefined exactly when their source stack is empty. |
| Rooms.ClearedLedgerHasNoStrokes | server/server.js:68-73 | After a clear, undo and redo only produce undefined slots. |
| Rooms.Leave | server/server.js:178-194 | The leave logs a notice and removes exactly the socket's users. Leadership passes to the first remaining user, and an emptied room keeps its leader. The drawer is untouched. |
| Rooms.JoinThenLeave | server/server.js:178-194 | A new socket that joins and then leaves a room with users restores the user list, and leadership ends with the first user. The room comes back exactly as it was, plus the two notices, if and only if the leader already was the first user. |
| Rooms.DrawerLeavingBreaksInvariant | server/server.js:178-194 | Whenever the drawer leaves during a game, the room stays in the game phase with a drawer who is no longer a user. |
| Rooms.DrawerLeavingFromValidRoom | server/server.js:178-194 | The invariant really is broken by the leave: here it holds in a two-player game and fails once the drawer leaves. |
| Registry.UserLeave | server/server.js:178-194 | The room is spliced out exactly when the leave empties it. Otherwise it is replaced in place, and the new-leader flag is true exactly when the leader id changed. |
| Registry.LeaveRoom | server/server.js:139-151 | `leave_room` does nothing when the room or the user is unknown. Otherwise it is `userLeave` on the first room with the id, under the username of the socket's first user entry. |
| Registry.LeaveDestroysOnlyEmptiedRoom | server/server.js:185-187 | A leave shrinks the registry exactly when the socket was in the room and no other user remains. |
| Registry.Apply | server/server.js:68-137 | A room handler changes only the first room with the id. It throws when the room is missing or the step throws. |
| Registry.MissingRoom | server/server.js:54-142 | On an unknown room id, join and leave leave the registry unchanged, and every other room handler throws. |
| Registry.TouchesOneRoom | server/server.js:54-137 | A room-scoped event other than a leave keeps the registry's length and every room except the first with its id. |
| Registry.Handle | server/server.js:34-163 | Create, join, leave and disconnect never throw. A create appends one room. A join or leave on an unknown room changes nothing. A disconnect leaves no room holding the socket. Apart from a create, no event grows the registry. |
| Registry.DisconnectAsWritten | server/server.js:153-163 | `disconnect` as written: forEach with splicing never grows the registry (it can skip rooms; see Findings). |
| Registry.DisconnectAsWrittenSkipsRoom | server/server.js:153-163 | Concrete input where the room after an emptied room keeps the disconnected socket. |
| Registry.AfterDisconnect | server/server.js:153-194 | A room without the socket is kept as it is. A room holding it is dropped exactly when the socket was its last user; otherwise it becomes the room after that user's leave, and no longer holds the socket. |
| Registry.DisconnectSpecReleases | server/server.js:153-163 | No room of the intended result holds the socket. |
| Registry.DisconnectFrom | server/server.js:153-163 | The corrected loop computes the reference result, visiting every room once. |
| Registry.Disconnect | server/server.js:153-163 | The corrected disconnect equals the reference result, which visits every room once. Afterwards no room holds the socket and the registry has not grown. |
| Registry.DisconnectKeepsOtherRooms | server/server.js:153-163 | In any registry, every room that never held the socket is still present, unchanged, after the disconnect. |
| Registry.DisconnectWithoutSocketIsIdentity | server/server.js:153-163 | When no room holds the socket, a disconnect leaves the registry exactly as it was. |
| Canvas.Mount | client/src/components/Canvas.js:11-14 | The client starts from the server's snapshot, not dragging and with an empty line. |
| Canvas.DrawStart | client/src/components/Canvas.js:88-90 | `drawStart` starts a drag, clears the undo stack and appends the first point to the line. The ledger is unchanged. |
| Canvas.Drawing | client/src/components/Canvas.js:94-103 | While dragging, a move appends its point to the line. Otherwise it changes nothing. |
| Canvas.DrawEnd | client/src/components/Canvas.js:107-114 | A non-empty line is committed as exactly one stroke {colour, width, line} and the line is reset. An empty line leaves the ledger unchanged. |
| Canvas.Undo | client/src/components/Canvas.js:117-126 | No-op on an empty ledger. Otherwise the last stroke moves to the end of the undo stack. |
| Canvas.Redo | client/src/components/Canvas.js:133-141 | No-op on an empty undo stack. Otherwise its last stroke moves to the end of the ledger. |
| Canvas.UndoThenRedo | client/src/components/Canvas.js:117-141 | Undo followed by redo on a non-empty ledger restores both stacks. |
| Canvas.RedoThenUndo | client/src/components/Canvas.js:117-141 | Redo followed by undo on a non-empty undo stack restores both stacks. |
| Canvas.UndosShape | client/src/components/Canvas.js:117-126 | k undos remove the last k strokes from the ledger, grow the undo stack by k above its old contents, and change nothing else. |
| Canvas.UndosStack | client/src/components/Canvas.js:117-126 | The k entries pushed by k undos are the last k strokes of the ledger, newest first. |
| Canvas.UndosThenRedos | client/src/components/Canvas.js:117-141 | Any k undos are fully reversed by k redos. |
| Canvas.ReceiveDrawEnd | client/src/components/Canvas.js:28 | A received draw-end appends exactly one stroke with the received points. |
| Canvas.ReceiveSnapshot | client/src/components/Canvas.js:30-41 | A received undo or redo replaces both stacks with the server's snapshot. |
| Canvas.ClearBoard | client/src/components/Canvas.js:43-48 | A received clear empties both stacks. |
| Canvas.ClearedBoardIsInert | client/src/components/Canvas.js:43-48 | On a cleared board, undo and redo are no-ops. |
| Canvas.DrawStartDisablesRedo | client/src/components/Canvas.js:88-90 | After a stroke starts, redo is a no-op. |
| Mirror.UndoInStep | client/src/components/Canvas.js:117-126 | On a non-empty ledger, client and server undo keep the two ledgers equal. |
| Mirror.RedoInStep | client/src/components/Canvas.js:133-141 | On a non-empty undo stack, client and server redo keep the two ledgers equal. |
| Mirror.UndoOnEmptyPartsWays | client/src/components/Canvas.js:119 | On an empty ledger the client ignores undo while the server's stacks change. The client's guard returns before it emits `undo`, so an in-step client never sends one here. The two part ways only when an undo reaches the server from a sender that is out of step. |
| Mirror.DrawStartPartsWays | client/src/components/Canvas.js:89 | Starting a stroke clears the client's undo stack but not the server's. |
| Mirror.ClientDragExtends | client/src/components/Canvas.js:94-103 | During a drag, the moves append their points to the line in order. |
| Mirror.ServerDragExtends | server/server.js:114-118 | Successive `send_drawing` events extend the last stroke by their points in order. |
| Mirror.GestureInStep | client/src/components/Canvas.js:79-114 | One gesture commits the same stroke on client and server: all its points in order, after the existing ledger. |
| Mirror.ViewerInStep | client/src/components/Canvas.js:28-41 | A viewer in step with the server stays in step. It applies the drawer's committed points and the undo and redo snapshots, which match what the server stored. |
| RevealTimer.InitialMask | client/src/components/Timer.js:16 | The mask has the word's length. Each space maps to " " and every other character to "___". |
| RevealTimer.Mount | client/src/components/Timer.js:10-17 | A fresh timer is valid. Nothing is revealed, the interval is 0 and the times are undefined. |
| RevealTimer.SetWord | client/src/components/Timer.js:15-17 | A new word gets a fresh mask and the revealed-index list is kept. Validity is preserved. |
| RevealTimer.CeilDiv | client/src/components/Timer.js:32 | The result is `Math.ceil(n / d)`: the least q with q*d >= n. |
| RevealTimer.RevealInterval | client/src/components/Timer.js:32 | The interval is ceil((drawtime - 5) / word length), and it is at least 1 when drawtime > 5. |
| RevealTimer.DividesIsMultiple | client/src/components/Timer.js:46 | `t % interval === 0` holds exactly when the interval is non-zero and t is a whole multiple of it. A zero interval gives NaN, which never passes. |
| RevealTimer.GameStart | client/src/components/Timer.js:27-34 | With a non-empty word, the clock and original time become the draw time and the interval is set. With an empty word nothing changes. |
| RevealTimer.Tick | client/src/components/Timer.js:38-61 | At 0 the end signal fires, the clock resets to the original time and nothing is revealed. A reveal happens only on a multiple of the interval with more than 2 hidden slots, at a new non-space position. It changes only that slot and records the position. |
| RevealTimer.RevealUncoversHiddenSlot | client/src/components/Timer.js:51-55 | In a reachable state, a reveal uncovers a hidden, non-space slot never revealed before. |
| RevealTimer.TickPreservesValid | client/src/components/Timer.js:38-61 | Ticks keep the mask consistent with the word and the revealed positions distinct. |
| RevealTimer.RevealKeepsFloor | client/src/components/Timer.js:44-59 | A tick reveals at most one slot, and only when more than 2 are hidden, so a reveal never leaves fewer than 2 hidden. |
| RevealTimer.HiddenSlotsIsCount | client/src/components/Timer.js:47 | For every mask the component builds, the count of "___" in `mask.join(" ").split(" ")` equals the count of "___" entries in the mask. |
| RevealTimer.Run | client/src/components/Timer.js:41-43 | Over a sequence of ticks, the end signal fires once per zero time. |
| RevealTimer.CountdownEndsOnce | client/src/components/Timer.js:41-43 | For a positive draw time, the server's countdown drawtime-1 .. 0 makes the end signal fire exactly once. |
| RevealTimer.CountdownNeverEnds | server/server.js:166-176 | With a draw time of 0 or less the countdown never shows 0, so the end signal never fires however many seconds pass. |
| RevealTimer.Countdown | server/server.js:166-176 | Over any observed number of seconds, the countdown emits drawtime-1, drawtime-2, ... one per second. With a positive draw time it stops after 0, emitting drawtime values in all. With a draw time of 0 or less it never stops. |
| JsText.Split | client/src/components/Timer.js:47 | `split(" ")` yields at least one piece, and no piece contains the separator. |
| JsText.JoinShape | client/src/components/Timer.js:23 | `join` starts with the first piece. With two pieces or more, a separator follows the first piece and the join of the remaining pieces follows it. The length is the pieces' total plus one per separator. |
| JsText.Count | client/src/components/Timer.js:47 | `filter(l => l === w).length` is at most the number of pieces, and is 0 exactly when no piece equals w. |
| JsText.SplitJoinRoundTrip | client/src/components/Timer.js:23 | Splitting the join of separator-free pieces gives the pieces back. |
| JsText.JoinSplitRoundTrip | client/src/components/Timer.js:47 | Joining the pieces of a split restores the string. |

## Left out

- Socket.io fan-out (`emit`, `to`, `join`, `leave`), the console logging and
  the Express endpoints (server/server.js:201-239): these are transport and
  I/O. The model keeps only the resulting state.
- `startDrawtimeCountdown` (server/server.js:166-176) is a `setInterval`
  timer. Only the sequence of values it emits is modelled
  (`RevealTimer.Countdown`). The ticks are taken as inputs.
- RevealTimer.Countdown: a draw time of 0 or less is modelled as a
  countdown that never ends. A non-numeric draw time (`undefined` or a
  string that is not a number) makes `timeLeft` NaN. That countdown also
  never ends, but it is not modelled, because the model's draw time is an
  integer. The observed seconds are a bound chosen by the caller.
- `getRandomArrayElements` and the `/words` endpoint are random and HTTP.
  The word arrives as an event field.
- Canvas painting (`ctx` calls, `getScaledCoordinates`, `utils/draw.js`)
  works on floats and the DOM. The draw-start and drawing receive handlers
  only paint, so they have no state to model.
- The React wiring is left out: effects and their re-subscription, stale
  closures, `setState` batching. Each handler is applied atomically to the
  current state. `remainingLetters` is taken to be settled to
  `mask.join(" ")`. The `setRemainingLetters(revealedLetters.current)`
  assignment at client/src/components/Timer.js:58 is left out, because the
  effect it triggers restores the joined mask.
- Types are simplified. `drawtime` and `rounds` come from a `<select>` as
  strings and JavaScript coerces them to numbers; the model uses integers.
  Coordinates are exact reals, since they are only stored.
- Game.js, JoinRoom.js, Messages.js, App.js and index.js are UI and are not
  part of this model.
- Registry.Handle: `disconnect` goes to the corrected `Registry.Disconnect`,
  not the loop as written (server/server.js:153-163). The as-written loop
  is `Registry.DisconnectAsWritten`, and Findings shows where the two differ.
  Every other event follows the code.
- Strings are sequences of Unicode characters. JavaScript indexes strings
  by UTF-16 code units: `word.split("")`, `word.length` and `word[rand]` at
  client/src/components/Timer.js:16, 32, 49, 52 and 57. So for a word with
  a character outside the Basic Multilingual Plane (an emoji, say), the
  component gets a longer mask and a different reveal interval than the
  model does.

## Findings

| source | as written | input that shows it | evidently intended | confidence | as-written member | corrected member |
|---|---|---|---|---|---|---|
| server/server.js:153-163 | `disconnect` iterates `rooms.forEach` while `userLeave` splices emptied rooms out of the same array, so the room after a closed room is skipped | socket `s` is the only user of room A (index 0) and a user of room B (index 1); after the disconnect, B still lists `s` | every room holding the socket is visited, and afterwards no room lists it | medium, not executed (needs one socket in two rooms) | Registry.DisconnectAsWrittenSkipsRoom | Registry.Disconnect |
