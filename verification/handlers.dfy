/**
 The socket handlers of the server, one pure transition per event: each
 takes the room table and the sending connection's id and gives back the new
 table and the messages sent. Room codes and shuffled decks, drawn at random
 by the server, are parameters.
 */
module Handlers {
  import opened Rooms
  import opened Engine

  /** `createRoom`: a fresh room under `code` with the sender seated alone
      as host. An existing room under the same code is replaced. */
  function CreateRoom(reg: Registry, sender: Id, code: Code, name: string): (r: Reply)
    ensures r.rooms.Keys == reg.Keys + {code}
    ensures forall c :: c in reg && c != code ==> r.rooms[c] == reg[c]
    ensures var room := r.rooms[code];
            && room.host == sender && room.round == 0 && room.state == Lobby && room.roles == map[]
            && |room.players| == 1 && room.players[0] == Player(sender, name, 0)
            && Consistent(room)
    ensures r.out == [RoomJoined(sender, code, true), PlayerList(code, r.rooms[code].players), WaitingStatus(code, 1)]
  {
    var room := Room(sender, 0, Lobby, [Player(sender, name, 0)], map[]);
    Reply(reg[code := room], [RoomJoined(sender, code, true), PlayerList(code, room.players), WaitingStatus(code, 1)])
  }

  /** A colliding code evicts every other player of the room it replaces. */
  lemma CreateRoomEvicts(reg: Registry, sender: Id, code: Code, name: string)
    requires code in reg
    ensures var after := CreateRoom(reg, sender, code, name).rooms[code];
            forall p :: p in reg[code].players && p.id != sender ==> p.id !in Ids(after.players)
  {
  }

  /** Whether a join to `code` passes the server's three checks. */
  predicate Admits(reg: Registry, code: Code)
  {
    code in reg && |reg[code].players| < Capacity && reg[code].state == Lobby
  }

  /** `joinRoom`: refused, in this order, when the code is unknown, when the
      room already has four or more seats, or when it is not in the lobby.
      A code naming an inherited property passes the first check and then
      throws on `room.players.length` before anything changes. Otherwise one
      seat with score 0 is appended for the sender; it is not checked whether
      the sender is already seated. */
  function JoinRoom(reg: Registry, sender: Id, code: Code, name: string): (r: Reply)
    ensures code !in reg && code !in Inherited ==> r == Reply(reg, [Refused(sender, NoSuchRoom)])
    ensures code !in reg && code in Inherited ==> r == Reply(reg, [Threw])
    ensures code in reg && |reg[code].players| >= Capacity ==> r == Reply(reg, [Refused(sender, RoomFull)])
    ensures code in reg && |reg[code].players| < Capacity && reg[code].state != Lobby ==>
              r == Reply(reg, [Refused(sender, AlreadyStarted)])
    ensures Admits(reg, code) ==>
              && r.rooms.Keys == reg.Keys
              && (forall c :: c in reg && c != code ==> r.rooms[c] == reg[c])
              && var before := reg[code];
                 var after := r.rooms[code];
                 && |after.players| == |before.players| + 1 <= Capacity
                 && after.players[..|before.players|] == before.players
                 && after.players[|before.players|] == Player(sender, name, 0)
                 && after == before.(players := after.players)
                 && r.out == [RoomJoined(sender, code, false), PlayerList(code, after.players),
                              WaitingStatus(code, |after.players|)]
  {
    if code !in reg then
      if code in Inherited then Reply(reg, [Threw]) else Reply(reg, [Refused(sender, NoSuchRoom)])
    else if |reg[code].players| >= Capacity then Reply(reg, [Refused(sender, RoomFull)])
    else if reg[code].state != Lobby then Reply(reg, [Refused(sender, AlreadyStarted)])
    else
      var room := reg[code];
      var seated := room.players + [Player(sender, name, 0)];
      Reply(reg[code := room.(players := seated)],
            [RoomJoined(sender, code, false), PlayerList(code, seated), WaitingStatus(code, |seated|)])
  }

  /** `joinRoom` with the missing check added: a sender already seated in
      the room is refused; everything else is as `JoinRoom`. */
  function JoinRoomOnce(reg: Registry, sender: Id, code: Code, name: string): (r: Reply)
    ensures code in reg && sender in Ids(reg[code].players) ==> r == Reply(reg, [Refused(sender, AlreadySeated)])
    ensures !(code in reg && sender in Ids(reg[code].players)) ==> r == JoinRoom(reg, sender, code, name)
    ensures code in r.rooms ==> DistinctIds(reg[code].players) ==> DistinctIds(r.rooms[code].players)
  {
    if code in reg && sender in Ids(reg[code].players) then Reply(reg, [Refused(sender, AlreadySeated)])
    else
      var r := JoinRoom(reg, sender, code, name);
      if Admits(reg, code) then
        var ps := reg[code].players;
        var after := r.rooms[code].players;
        assert after == ps + [Player(sender, name, 0)];
        assert forall i :: 0 <= i < |ps| ==> ps[i] in ps;
        r
      else r
  }

  /** `startGame`: nothing happens unless the room exists and the sender is
      its recorded host; the host is refused unless exactly four are
      seated; otherwise a round starts. */
  function StartGame(reg: Registry, sender: Id, code: Code, deck: seq<Role>): (r: Reply)
    ensures code !in reg || reg[code].host != sender ==> r == Reply(reg, [])
    ensures code in reg && reg[code].host == sender && |reg[code].players| != Capacity ==>
              r == Reply(reg, [Refused(sender, NeedFourPlayers)])
    ensures code in reg && reg[code].host == sender && |reg[code].players| == Capacity ==>
              r == StartRound(reg, code, deck)
    ensures r.rooms != reg <==> code in reg && reg[code].host == sender && |reg[code].players| == Capacity
  {
    if code !in reg then Reply(reg, [])
    else if reg[code].host != sender then Reply(reg, [])
    else if |reg[code].players| != Capacity then Reply(reg, [Refused(sender, NeedFourPlayers)])
    else
      var r := StartRound(reg, code, deck);
      assert r.rooms[code].round != reg[code].round;
      r
  }

  /** `mantriGuess`: hands the target straight to `resolveGuess`; who sent
      it is never looked at. */
  function MantriGuess(reg: Registry, sender: Id, code: Code, target: Option<Id>): (r: Reply)
    ensures r == ResolveGuess(reg, code, target)
  {
    ResolveGuess(reg, code, target)
  }

  /** Any connection, seated or not, resolves the round with the same effect. */
  lemma GuessIgnoresSender(reg: Registry, code: Code, target: Option<Id>, a: Id, b: Id)
    ensures MantriGuess(reg, a, code, target) == MantriGuess(reg, b, code, target)
  {
  }

  /** `nextRound`: starts a round only in a room that shows results; any
      connection may send it. */
  function NextRound(reg: Registry, code: Code, deck: seq<Role>): (r: Reply)
    ensures code in reg && reg[code].state == Results ==> r == StartRound(reg, code, deck)
    ensures !(code in reg && reg[code].state == Results) ==> r == Reply(reg, [])
  {
    if code !in reg || reg[code].state != Results then Reply(reg, []) else StartRound(reg, code, deck)
  }

  /** `players.filter(p => p.id !== id)`. */
  function Without(ps: seq<Player>, id: Id): seq<Player>
  {
    if ps == [] then []
    else if ps[0].id == id then Without(ps[1..], id)
    else [ps[0]] + Without(ps[1..], id)
  }

  /** Removing a connection keeps exactly the other seats, drops exactly its
      id, shortens the list iff it was seated, and keeps ids distinct. */
  lemma WithoutFacts(ps: seq<Player>, id: Id)
    ensures forall p :: p in Without(ps, id) <==> p in ps && p.id != id
    ensures Ids(Without(ps, id)) == Ids(ps) - {id}
    ensures |Without(ps, id)| <= |ps|
    ensures |Without(ps, id)| == |ps| <==> id !in Ids(ps)
    ensures id !in Ids(ps) ==> Without(ps, id) == ps
    ensures DistinctIds(ps) ==> DistinctIds(Without(ps, id))
  {
    WithoutMembers(ps, id);
    WithoutLength(ps, id);
    if DistinctIds(ps) {
      WithoutDistinct(ps, id);
    }
  }

  lemma {:induction false} WithoutMembers(ps: seq<Player>, id: Id)
    ensures forall p :: p in Without(ps, id) <==> p in ps && p.id != id
    decreases |ps|
  {
    if ps != [] {
      WithoutMembers(ps[1..], id);
      assert ps == [ps[0]] + ps[1..];
    }
  }

  lemma {:induction false} WithoutLength(ps: seq<Player>, id: Id)
    ensures |Without(ps, id)| <= |ps|
    ensures |Without(ps, id)| == |ps| <==> id !in Ids(ps)
    ensures id !in Ids(ps) ==> Without(ps, id) == ps
    decreases |ps|
  {
    if ps != [] {
      var rest := ps[1..];
      WithoutLength(rest, id);
      assert ps == [ps[0]] + rest;
      assert Ids(ps) == {ps[0].id} + Ids(rest);
    }
  }

  lemma {:induction false} WithoutDistinct(ps: seq<Player>, id: Id)
    requires DistinctIds(ps)
    ensures DistinctIds(Without(ps, id))
    decreases |ps|
  {
    if ps != [] {
      var rest := ps[1..];
      assert DistinctIds(rest) by {
        forall i, j | 0 <= i < j < |rest| ensures rest[i].id != rest[j].id {
          assert rest[i] == ps[i + 1] && rest[j] == ps[j + 1];
        }
      }
      WithoutDistinct(rest, id);
      if ps[0].id != id {
        var kept := Without(rest, id);
        WithoutMembers(rest, id);
        assert forall k :: 0 <= k < |rest| ==> rest[k] == ps[k + 1];
        var all := [ps[0]] + kept;
        forall i, j | 0 <= i < j < |all|
          ensures all[i].id != all[j].id
        {
          assert all[j] == kept[j - 1];
          assert kept[j - 1] in rest;
          if i > 0 {
            assert all[i] == kept[i - 1];
          }
        }
      }
    }
  }

  /** Removing a connection from a concatenation removes it from each part:
      the seats that stay keep their relative order. */
  lemma {:induction false} WithoutAppend(a: seq<Player>, b: seq<Player>, id: Id)
    ensures Without(a + b, id) == Without(a, id) + Without(b, id)
    decreases |a|
  {
    if a != [] {
      WithoutAppend(a[1..], b, id);
      assert (a + b)[1..] == a[1..] + b;
    } else {
      assert a + b == b;
    }
  }

  /** What `disconnect` does to one room: drop every seat of the connection;
      if anything was dropped, promote the first remaining seat when the host
      left and go back to the lobby; delete the room once it is empty. */
  function Leave(room: Room, id: Id): (left: Option<Room>)
    ensures var kept := Without(room.players, id);
            && (left.None? <==> kept == [])
            && (left.Some? ==>
                  && left.value.players == kept
                  && left.value.round == room.round
                  && left.value.roles == room.roles
                  && (id !in Ids(room.players) ==> left.value == room)
                  && (id in Ids(room.players) ==>
                        && left.value.state == Lobby
                        && left.value.host == (if room.host == id then kept[0].id else room.host)))
  {
    WithoutFacts(room.players, id);
    var kept := Without(room.players, id);
    var after :=
      if |kept| != |room.players| then
        room.(players := kept, host := if room.host == id && |kept| > 0 then kept[0].id else room.host, state := Lobby)
      else room;
    if |after.players| == 0 then None else Some(after)
  }

  /** `disconnect`: every room is passed through `Leave`; a room left empty
      is removed from the table. The per-room broadcasts are not modelled. */
  function Disconnect(reg: Registry, sender: Id): (r: Reply)
    ensures r.out == []
    ensures forall c :: c in r.rooms <==> c in reg && Without(reg[c].players, sender) != []
    ensures forall c :: c in r.rooms ==> Leave(reg[c], sender) == Some(r.rooms[c])
  {
    Reply(map c | c in reg && Leave(reg[c], sender).Some? :: Leave(reg[c], sender).value, [])
  }
}
