/** How repeated `new_drawer` events move the drawer through the user list
    (server/server.js). The client decides when a round is over and sends
    `newRound`; these lemmas show what the server does with either choice. */
module Turns {
  import opened Optional
  import Rooms

  /** Socket ids are unique per connection. */
  predicate DistinctIds(users: seq<Rooms.User>)
  {
    forall i, j :: 0 <= i < j < |users| ==> users[i].id != users[j].id
  }

  /** `k` successive `new_drawer` events without `newRound`. */
  function Advance(room: Rooms.Room, word: string, k: nat): Option<Rooms.Room>
  {
    if k == 0 then Some(room)
    else match Advance(room, word, k - 1)
      case None => None
      case Some(r) => Rooms.NewDrawer(r, word, false)
  }

  /** With distinct ids, a user at position `i` is the first with its id. */
  lemma FirstAtOwnIndex(users: seq<Rooms.User>, i: nat)
    requires DistinctIds(users) && i < |users|
    ensures Rooms.FirstAt(users, users[i].id, i)
  {
  }

  /** Starting from the first user, `k` plain turn advances (k below the
      number of users) hand the turn to the user at position `k`, without
      touching the round counter or the user list. */
  lemma {:induction false} RotationVisitsInOrder(room: Rooms.Room, word: string, k: nat)
    requires DistinctIds(room.users)
    requires |room.users| > 0 && room.currentDrawer == Some(room.users[0].id)
    requires k < |room.users|
    ensures Advance(room, word, k).Some?
    ensures Advance(room, word, k).value.currentDrawer == Some(room.users[k].id)
    ensures Advance(room, word, k).value.users == room.users
    ensures Advance(room, word, k).value.currentRound == room.currentRound
  {
    if k > 0 {
      RotationVisitsInOrder(room, word, k - 1);
      var prev := Advance(room, word, k - 1).value;
      FirstAtOwnIndex(room.users, k - 1);
      assert Rooms.FirstAt(prev.users, prev.currentDrawer.value, k - 1);
    }
  }

  /** A plain advance from the last user leaves the room without a drawer,
      and the next plain advance throws. */
  lemma PlainAdvancePastLastUser(room: Rooms.Room, word: string)
    requires DistinctIds(room.users) && |room.users| > 0
    requires room.currentDrawer == Some(room.users[|room.users| - 1].id)
    ensures Rooms.NewDrawer(room, word, false).Some?
    ensures Rooms.NewDrawer(room, word, false).value.currentDrawer.None?
    ensures Rooms.NewDrawer(Rooms.NewDrawer(room, word, false).value, word, false).None?
  {
    FirstAtOwnIndex(room.users, |room.users| - 1);
  }

  /** A full round: every user draws once in join order, then the
      `newRound` advance returns the turn to the first user and counts one
      more round. */
  lemma FullRound(room: Rooms.Room, word: string)
    requires DistinctIds(room.users)
    requires |room.users| > 0 && room.currentDrawer == Some(room.users[0].id)
    ensures var last := Advance(room, word, |room.users| - 1);
            && last.Some?
            && last.value.currentDrawer == Some(room.users[|room.users| - 1].id)
            && var next := Rooms.NewDrawer(last.value, word, true);
               && next.Some?
               && next.value.currentDrawer == room.currentDrawer
               && next.value.currentRound == room.currentRound + 1
               && next.value.users == room.users
  {
    RotationVisitsInOrder(room, word, |room.users| - 1);
  }

  /** After `initialize` a round starts with the first user: `k` plain
      advances then hand the turn to the user at position `k`. */
  lemma InitializeStartsRotation(room: Rooms.Room, word: string, next: string, k: nat)
    requires DistinctIds(room.users)
    requires k < |room.users|
    ensures var r := Advance(Rooms.Initialize(room, word), next, k);
            r.Some? && r.value.currentDrawer == Some(room.users[k].id)
  {
    var started := Rooms.Initialize(room, word);
    assert started.users[0].id == room.users[0].id;
    assert DistinctIds(started.users) by {
      forall i, j | 0 <= i < j < |started.users| ensures started.users[i].id != started.users[j].id {
        assert started.users[i].id == room.users[i].id && started.users[j].id == room.users[j].id;
      }
    }
    RotationVisitsInOrder(started, next, k);
    assert started.users[k].id == room.users[k].id;
  }

}
