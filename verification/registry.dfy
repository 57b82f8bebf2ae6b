/** The server's module-level `rooms` array and the socket handlers that
    resolve a room in it (server/server.js). A handler that throws in the
    server (typically reading a field of the `undefined` a failed lookup
    returns) is modelled by the result `None`; the array is then as the
    handler left it, which for every such handler is unchanged. */
module Registry {
  import opened Optional
  import opened Strokes
  import Rooms

  type RoomList = seq<Rooms.Room>

  /** The inbound socket events, with the payload fields the core reads. */
  datatype Event =
    | CreateRoom(roomId: string, drawtime: int, rounds: int, difficulty: string,
                 creator: Rooms.UserId)
    | JoinRoom(roomId: string, username: string)
    | ClearBoard(roomId: string)
    | Initialize(roomId: string, word: string)
    | NewDrawer(roomId: string, word: string, newRound: bool)
    | SendMessage(roomId: string, message: Rooms.Message)
    | SendDrawStart(roomId: string, colour: string, width: string, at: Point)
    | SendDrawing(roomId: string, at: Point)
    | SendDrawEnd(roomId: string)
    | Undo(roomId: string)
    | Redo(roomId: string)
    | LeaveRoomEvent(roomId: string)
    | DisconnectEvent

  /** Position of the first room with this id. */
  function FindRoom(rooms: RoomList, id: string): (r: Option<nat>)
    ensures r.Some? ==> r.value < |rooms| && rooms[r.value].id == id
    ensures r.Some? ==> forall j :: 0 <= j < r.value ==> rooms[j].id != id
    ensures r.None? <==> forall j :: 0 <= j < |rooms| ==> rooms[j].id != id
  {
    if |rooms| == 0 then None
    else if rooms[0].id == id then Some(0)
    else match FindRoom(rooms[1..], id)
      case None => None
      case Some(k) => Some(k + 1)
  }

  /** `getRoom`: `rooms.find(room => room.id === id)`. */
  function GetRoom(rooms: RoomList, id: string): (r: Option<Rooms.Room>)
    ensures r.None? <==> forall j :: 0 <= j < |rooms| ==> rooms[j].id != id
    ensures r.Some? ==> exists i :: 0 <= i < |rooms| && rooms[i] == r.value && r.value.id == id
                                    && forall j :: 0 <= j < i ==> rooms[j].id != id
  {
    match FindRoom(rooms, id)
    case None => None
    case Some(i) => Some(rooms[i])
  }

  /** `create_room`: the new room is appended whatever ids already exist. */
  function Create(rooms: RoomList, roomId: string, drawtime: int, rounds: int, difficulty: string,
                  creator: Rooms.UserId): (r: RoomList)
    ensures |r| == |rooms| + 1 && r[..|rooms|] == rooms
    ensures r[|rooms|] == Rooms.NewRoom(roomId, creator, drawtime, rounds, difficulty)
  {
    rooms + [Rooms.NewRoom(roomId, creator, drawtime, rounds, difficulty)]
  }

  /** A created room is found by its id only when no earlier room had that
      id: a duplicate is stored but shadowed by the first room with the id. */
  lemma {:induction false} CreateThenGet(rooms: RoomList, roomId: string, drawtime: int, rounds: int,
                                         difficulty: string, creator: Rooms.UserId)
    ensures var after := Create(rooms, roomId, drawtime, rounds, difficulty, creator);
            GetRoom(after, roomId)
              == if GetRoom(rooms, roomId).Some? then GetRoom(rooms, roomId)
                 else Some(Rooms.NewRoom(roomId, creator, drawtime, rounds, difficulty))
  {
    var after := Create(rooms, roomId, drawtime, rounds, difficulty, creator);
    if |rooms| > 0 {
      if rooms[0].id != roomId {
        assert after[1..] == Create(rooms[1..], roomId, drawtime, rounds, difficulty, creator);
        CreateThenGet(rooms[1..], roomId, drawtime, rounds, difficulty, creator);
      }
    }
  }

  /** Applies a room transition to the first room with the id. The result
      is `None` when there is no such room (the handler throws on the
      `undefined` lookup) or when the transition itself throws. */
  function Apply(rooms: RoomList, id: string, step: Rooms.Room -> Option<Rooms.Room>): (r: Option<RoomList>)
    ensures FindRoom(rooms, id).None? ==> r.None?
    ensures FindRoom(rooms, id).Some? ==>
              var i := FindRoom(rooms, id).value;
              && (r.None? <==> step(rooms[i]).None?)
              && (r.Some? ==> r.value == rooms[i := step(rooms[i]).value])
  {
    match FindRoom(rooms, id)
    case None => None
    case Some(i) =>
      match step(rooms[i])
      case None => None
      case Some(room) => Some(rooms[i := room])
  }

  /** The outcome of `userLeave`: the rooms afterwards, and whether the
      `user_disconnect` broadcast announces a new leader. */
  datatype Departure = Departure(rooms: RoomList, newLeader: bool)

  /** `userLeave` on the room at position `i`: the room is spliced out when
      its last user leaves; otherwise it is updated in place and the flag
      reports whether leadership moved to a different user. */
  function UserLeave(rooms: RoomList, i: nat, sock: Rooms.UserId, username: string): (r: Departure)
    requires i < |rooms|
    ensures var left := Rooms.Leave(rooms[i], sock, username);
            && (|r.rooms| == |rooms| - 1 <==> |left.users| == 0)
            && (|left.users| == 0 ==> r.rooms == rooms[..i] + rooms[i + 1..] && !r.newLeader)
            && (|left.users| > 0 ==>
                  && r.rooms == rooms[i := left]
                  && (r.newLeader <==> left.leaderId != rooms[i].leaderId))
  {
    var left := Rooms.Leave(rooms[i], sock, username);
    if |left.users| == 0 then Departure(rooms[..i] + rooms[i + 1..], false)
    else Departure(rooms[i := left], rooms[i].leaderId != left.users[0].id)
  }

  /** `leave_room`: nothing happens when the room or the user is unknown. */
  function LeaveRoom(rooms: RoomList, sock: Rooms.UserId, id: string): (r: RoomList)
    ensures FindRoom(rooms, id).None? ==> r == rooms
    ensures FindRoom(rooms, id).Some? && Rooms.Absent(rooms[FindRoom(rooms, id).value].users, sock)
            ==> r == rooms
    ensures FindRoom(rooms, id).Some? && !Rooms.Absent(rooms[FindRoom(rooms, id).value].users, sock)
            ==> var i := FindRoom(rooms, id).value;
                r == UserLeave(rooms, i, sock, Rooms.FindUser(rooms[i].users, sock).value.username).rooms
  {
    match FindRoom(rooms, id)
    case None => rooms
    case Some(i) =>
      match Rooms.FindUser(rooms[i].users, sock)
      case None => rooms
      case Some(u) => UserLeave(rooms, i, sock, u.username).rooms
  }

  /** A room disappears from the registry exactly when the leave empties it. */
  lemma LeaveDestroysOnlyEmptiedRoom(rooms: RoomList, sock: Rooms.UserId, id: string)
    requires FindRoom(rooms, id).Some?
    ensures var i := FindRoom(rooms, id).value;
            |LeaveRoom(rooms, sock, id)| < |rooms|
            <==> !Rooms.Absent(rooms[i].users, sock) && Rooms.Without(rooms[i].users, sock) == []
  {
  }

  // ---------------------------------------------------------------------
  // Disconnect

  /** The room has a user with the socket's id. */
  predicate Holds(room: Rooms.Room, sock: Rooms.UserId)
  {
    !Rooms.Absent(room.users, sock)
  }

  /** `disconnect` as written: `rooms.forEach` runs `userLeave` on every
      room holding the socket, and `userLeave` splices emptied rooms out of
      the array being iterated. `forEach` then moves on to the next index,
      so the room that slid into the freed position is never visited; once
      the index passes the shrunken length the remaining visits are skipped. */
  function DisconnectAsWritten(rooms: RoomList, sock: Rooms.UserId, k: nat): (r: RoomList)
    ensures |r| <= |rooms|
    decreases |rooms| - k
  {
    if k >= |rooms| then rooms
    else match Rooms.FindUser(rooms[k].users, sock)
      case None => DisconnectAsWritten(rooms, sock, k + 1)
      case Some(u) => DisconnectAsWritten(UserLeave(rooms, k, sock, u.username).rooms, sock, k + 1)
  }

  /** The skipped room keeps the disconnected socket as a user: here the
      socket is the only user of the first room and one of two users of the
      second, and after the disconnect it is still in the second room. */
  lemma DisconnectAsWrittenSkipsRoom()
    ensures var a := Rooms.NewRoom("A", "s", 30, 3, "easy").(users := [Rooms.User("x", "s", 0)]);
            var b := Rooms.NewRoom("B", "t", 30, 3, "easy")
                       .(users := [Rooms.User("x", "s", 0), Rooms.User("y", "t", 0)]);
            var after := DisconnectAsWritten([a, b], "s", 0);
            after == [b] && Holds(after[0], "s")
  {
    var a := Rooms.NewRoom("A", "s", 30, 3, "easy").(users := [Rooms.User("x", "s", 0)]);
    var b := Rooms.NewRoom("B", "t", 30, 3, "easy")
               .(users := [Rooms.User("x", "s", 0), Rooms.User("y", "t", 0)]);
    assert a.users[0].id == "s";
    assert Rooms.FindUser(a.users, "s") == Some(Rooms.User("x", "s", 0));
    assert Rooms.Without(a.users, "s") == [];
    assert UserLeave([a, b], 0, "s", "x").rooms == [b];
    assert b.users[0].id == "s";
  }

  /** The room as the intended disconnect leaves it: `None` when the socket
      was its last user, otherwise the room after the socket's leave. */
  function AfterDisconnect(room: Rooms.Room, sock: Rooms.UserId): (r: Option<Rooms.Room>)
    ensures r.Some? ==> !Holds(r.value, sock)
    ensures r.None? <==> Holds(room, sock) && Rooms.Without(room.users, sock) == []
    ensures !Holds(room, sock) ==> r == Some(room)
    ensures Holds(room, sock) && r.Some? ==>
              r.value == Rooms.Leave(room, sock, Rooms.FindUser(room.users, sock).value.username)
  {
    match Rooms.FindUser(room.users, sock)
    case None => Some(room)
    case Some(u) =>
      var left := Rooms.Leave(room, sock, u.username);
      if |left.users| == 0 then None else Some(left)
  }

  /** Reference meaning of a disconnect: every room is visited once. */
  function DisconnectSpec(rooms: RoomList, sock: Rooms.UserId): (r: RoomList)
  {
    if |rooms| == 0 then []
    else
      (match AfterDisconnect(rooms[0], sock) case None => [] case Some(room) => [room])
      + DisconnectSpec(rooms[1..], sock)
  }

  /** No room of the reference result still holds the socket. */
  lemma {:induction false} DisconnectSpecReleases(rooms: RoomList, sock: Rooms.UserId)
    ensures forall j :: 0 <= j < |DisconnectSpec(rooms, sock)| ==> !Holds(DisconnectSpec(rooms, sock)[j], sock)
  {
    if |rooms| > 0 {
      DisconnectSpecReleases(rooms[1..], sock);
    }
  }

  /** One unfolding of the reference disconnect. */
  lemma SpecStep(rooms: RoomList, sock: Rooms.UserId)
    requires |rooms| > 0
    ensures AfterDisconnect(rooms[0], sock).None? ==>
              DisconnectSpec(rooms, sock) == DisconnectSpec(rooms[1..], sock)
    ensures AfterDisconnect(rooms[0], sock).Some? ==>
              DisconnectSpec(rooms, sock)
                == [AfterDisconnect(rooms[0], sock).value] + DisconnectSpec(rooms[1..], sock)
  {
  }

  /** `disconnect` as evidently intended: the index only advances past a
      room that stayed in the array, so every room is visited. */
  function DisconnectFrom(rooms: RoomList, sock: Rooms.UserId, k: nat): (r: RoomList)
    ensures k <= |rooms| ==> r == rooms[..k] + DisconnectSpec(rooms[k..], sock)
    decreases |rooms| - k, |rooms|
  {
    if k >= |rooms| then rooms
    else match Rooms.FindUser(rooms[k].users, sock)
      case None =>
        assert rooms[k..][1..] == rooms[k + 1..];
        assert rooms[..k + 1] == rooms[..k] + [rooms[k]];
        SpecStep(rooms[k..], sock);
        DisconnectFrom(rooms, sock, k + 1)
      case Some(u) =>
        var d := UserLeave(rooms, k, sock, u.username);
        assert rooms[k..][1..] == rooms[k + 1..];
        SpecStep(rooms[k..], sock);
        if |d.rooms| < |rooms| then
          assert d.rooms[..k] == rooms[..k] && d.rooms[k..] == rooms[k + 1..];
          DisconnectFrom(d.rooms, sock, k)
        else
          assert d.rooms[..k + 1] == rooms[..k] + [d.rooms[k]];
          assert d.rooms[k + 1..] == rooms[k + 1..];
          DisconnectFrom(d.rooms, sock, k + 1)
  }

  /** The corrected `disconnect`, used by the event dispatcher. */
  function Disconnect(rooms: RoomList, sock: Rooms.UserId): (r: RoomList)
    ensures r == DisconnectSpec(rooms, sock)
    ensures forall j :: 0 <= j < |r| ==> !Holds(r[j], sock)
    ensures |r| <= |rooms|
  {
    assert rooms[..0] == [] && rooms[0..] == rooms;
    DisconnectSpecReleases(rooms, sock);
    DisconnectSpecShrinks(rooms, sock);
    DisconnectFrom(rooms, sock, 0)
  }

  lemma {:induction false} DisconnectSpecShrinks(rooms: RoomList, sock: Rooms.UserId)
    ensures |DisconnectSpec(rooms, sock)| <= |rooms|
  {
    if |rooms| > 0 {
      DisconnectSpecShrinks(rooms[1..], sock);
    }
  }

  /** Every room that never held the socket comes through a disconnect
      unchanged, whatever the other rooms are. */
  lemma DisconnectKeepsOtherRooms(rooms: RoomList, sock: Rooms.UserId)
    ensures forall j :: 0 <= j < |rooms| && !Holds(rooms[j], sock) ==>
              rooms[j] in Disconnect(rooms, sock)
  {
    forall j | 0 <= j < |rooms| && !Holds(rooms[j], sock)
      ensures rooms[j] in Disconnect(rooms, sock)
    {
      DisconnectSpecKeeps(rooms, sock, j);
    }
  }

  lemma {:induction false} DisconnectSpecKeeps(rooms: RoomList, sock: Rooms.UserId, j: nat)
    requires j < |rooms| && !Holds(rooms[j], sock)
    ensures rooms[j] in DisconnectSpec(rooms, sock)
  {
    var head := match AfterDisconnect(rooms[0], sock) case None => [] case Some(room) => [room];
    assert DisconnectSpec(rooms, sock) == head + DisconnectSpec(rooms[1..], sock);
    if j > 0 {
      DisconnectSpecKeeps(rooms[1..], sock, j - 1);
    }
  }

  /** A disconnect of a socket no room holds changes nothing. */
  lemma {:induction false} DisconnectWithoutSocketIsIdentity(rooms: RoomList, sock: Rooms.UserId)
    requires forall j :: 0 <= j < |rooms| ==> !Holds(rooms[j], sock)
    ensures Disconnect(rooms, sock) == rooms
  {
    DisconnectSpecIdentity(rooms, sock);
  }

  lemma {:induction false} DisconnectSpecIdentity(rooms: RoomList, sock: Rooms.UserId)
    requires forall j :: 0 <= j < |rooms| ==> !Holds(rooms[j], sock)
    ensures DisconnectSpec(rooms, sock) == rooms
  {
    if |rooms| > 0 {
      DisconnectSpecIdentity(rooms[1..], sock);
      assert [rooms[0]] + rooms[1..] == rooms;
    }
  }

  // ---------------------------------------------------------------------
  // Event dispatch

  /** One socket event from connection `sock`, applied to the registry.
      `None` means the handler throws. Only the handlers that look a room
      up and then touch it can throw; `disconnect` is dispatched to the
      corrected loop. */
  function Handle(rooms: RoomList, sock: Rooms.UserId, e: Event): (r: Option<RoomList>)
    ensures e.CreateRoom? || e.JoinRoom? || e.LeaveRoomEvent? || e.DisconnectEvent? ==> r.Some?
    ensures e.CreateRoom? ==> |r.value| == |rooms| + 1 && r.value[..|rooms|] == rooms
    ensures e.JoinRoom? || e.LeaveRoomEvent? ==> FindRoom(rooms, e.roomId).None? ==> r == Some(rooms)
    ensures e.DisconnectEvent? ==> forall j :: 0 <= j < |r.value| ==> !Holds(r.value[j], sock)
    ensures r.Some? && !e.CreateRoom? ==> |r.value| <= |rooms|
  {
    match e
    case CreateRoom(id, drawtime, rounds, difficulty, creator) =>
      Some(Create(rooms, id, drawtime, rounds, difficulty, creator))
    case JoinRoom(id, username) =>
      (match FindRoom(rooms, id)
       case None => Some(rooms)
       case Some(i) => Some(rooms[i := Rooms.Join(rooms[i], sock, username)]))
    case ClearBoard(id) => Apply(rooms, id, room => Some(Rooms.ClearBoard(room)))
    case Initialize(id, word) => Apply(rooms, id, room => Some(Rooms.Initialize(room, word)))
    case NewDrawer(id, word, newRound) => Apply(rooms, id, room => Rooms.NewDrawer(room, word, newRound))
    case SendMessage(id, m) => Apply(rooms, id, room => Some(Rooms.SendMessage(room, m)))
    case SendDrawStart(id, colour, width, at) =>
      Apply(rooms, id, room => Some(Rooms.DrawStart(room, colour, width, at)))
    case SendDrawing(id, at) => Apply(rooms, id, room => Rooms.Drawing(room, at))
    case SendDrawEnd(id) => Apply(rooms, id, room => Some(room))
    case Undo(id) => Apply(rooms, id, room => Some(Rooms.Undo(room)))
    case Redo(id) => Apply(rooms, id, room => Some(Rooms.Redo(room)))
    case LeaveRoomEvent(id) => Some(LeaveRoom(rooms, sock, id))
    case DisconnectEvent => Some(Disconnect(rooms, sock))
  }

  /** An event naming an unknown room leaves the registry unchanged when it
      is a join or a leave, and makes every other room handler throw. */
  lemma MissingRoom(rooms: RoomList, sock: Rooms.UserId, e: Event)
    requires !e.CreateRoom? && !e.DisconnectEvent?
    requires FindRoom(rooms, e.roomId).None?
    ensures e.JoinRoom? || e.LeaveRoomEvent? ==> Handle(rooms, sock, e) == Some(rooms)
    ensures !e.JoinRoom? && !e.LeaveRoomEvent? ==> Handle(rooms, sock, e).None?
  {
  }

  /** A room-scoped event other than a leave changes only the first room
      with its id: the array keeps its length and every other room. */
  lemma TouchesOneRoom(rooms: RoomList, sock: Rooms.UserId, e: Event, j: nat)
    requires !e.CreateRoom? && !e.DisconnectEvent? && !e.LeaveRoomEvent?
    requires Handle(rooms, sock, e).Some?
    requires j < |rooms| && (FindRoom(rooms, e.roomId).None? || j != FindRoom(rooms, e.roomId).value)
    ensures |Handle(rooms, sock, e).value| == |rooms|
    ensures Handle(rooms, sock, e).value[j] == rooms[j]
  {
  }

  /** `send_draw_end` resolves the room but changes nothing. */
  lemma DrawEndChangesNothing(rooms: RoomList, sock: Rooms.UserId, id: string)
    requires FindRoom(rooms, id).Some?
    ensures Handle(rooms, sock, SendDrawEnd(id)) == Some(rooms)
  {
    var i := FindRoom(rooms, id).value;
    assert rooms[i := rooms[i]] == rooms;
  }

}
