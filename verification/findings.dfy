/**
 What the as-written `joinRoom` allows: the same connection can take two
 seats of one room. Concrete runs show the consequences: the role table
 loses a label, and depending on the shuffle either the reveal of the RAJA's
 name throws or the round pays out 130 or 230 points instead of 180.
 */
module Findings {
  import opened Rooms
  import opened Engine
  import opened Handlers

  const RoomCode: Code := "ABCDE"
  const Deck: seq<Role> := [Raja, Mantri, Chor, Sipahi]

  /** Connection "a" creates the room, then joins it again; "b" and "c" join. */
  function DoubleSeated(): Registry
  {
    var r0 := CreateRoom(map[], "a", RoomCode, "Asha");
    var r1 := JoinRoom(r0.rooms, "a", RoomCode, "Asha");
    var r2 := JoinRoom(r1.rooms, "b", RoomCode, "Bala");
    var r3 := JoinRoom(r2.rooms, "c", RoomCode, "Chet");
    r3.rooms
  }

  /** Every join was admitted: the room holds four seats, two of them "a". */
  lemma DoubleSeatedJoins()
    ensures RoomCode in DoubleSeated()
    ensures DoubleSeated()[RoomCode].players == Seats
    ensures DoubleSeated()[RoomCode] == Room("a", 0, Lobby, Seats, map[])
    ensures !DistinctIds(DoubleSeated()[RoomCode].players)
  {
    var r0 := CreateRoom(map[], "a", RoomCode, "Asha");
    assert |r0.rooms[RoomCode].players| == 1;
    var r1 := JoinRoom(r0.rooms, "a", RoomCode, "Asha");
    assert r1.rooms[RoomCode].players == [Player("a", "Asha", 0), Player("a", "Asha", 0)];
    var r2 := JoinRoom(r1.rooms, "b", RoomCode, "Bala");
    assert r2.rooms[RoomCode].players == [Player("a", "Asha", 0), Player("a", "Asha", 0), Player("b", "Bala", 0)];
  }

  /** The four seats of the double-seated room. */
  const Seats: seq<Player> :=
    [Player("a", "Asha", 0), Player("a", "Asha", 0), Player("b", "Bala", 0), Player("c", "Chet", 0)]

  /** The second seat of "a" overwrites RAJA with MANTRI. */
  lemma DoubleSeatedDeal()
    ensures Assign(Seats, Deck) == map["a" := Mantri, "b" := Chor, "c" := Sipahi]
  {
    var ps := Seats;
    assert ps[..3][..2] == ps[..2] && ps[..2][..1] == ps[..1] && ps[..1][..0] == [];
    assert Assign(ps[..1], Deck) == map["a" := Raja];
    assert Assign(ps[..2], Deck) == map["a" := Mantri];
    assert Assign(ps[..3], Deck) == map["a" := Mantri, "b" := Chor];
  }

  /** The host starts the game with the deck RAJA, MANTRI, CHOR, SIPAHI. No
      seat holds RAJA, so the public reveal throws, and the room is left
      Playing with three roles for four seats. */
  lemma DuplicateSeatThrows()
    ensures var r := StartGame(DoubleSeated(), "a", RoomCode, Deck);
            && Threw in r.out
            && r.rooms[RoomCode] == Room("a", 1, Playing, Seats, map["a" := Mantri, "b" := Chor, "c" := Sipahi])
            && !Dealt(r.rooms[RoomCode].players, r.rooms[RoomCode].roles)
  {
    DoubleSeatedJoins();
    DoubleSeatedDeal();
    var roles := map["a" := Mantri, "b" := Chor, "c" := Sipahi];
    assert FindWithRole(Seats, roles, Raja).None? by {
      assert forall i :: 0 <= i < |Seats| ==> RoleOf(roles, Seats[i].id) != Some(Raja);
    }
    var r := StartGame(DoubleSeated(), "a", RoomCode, Deck);
    assert r == StartRound(DoubleSeated(), RoomCode, Deck);
    assert r.out[|r.out| - 1] == Threw;
  }

  /** A pool under which the double-seated room deals without throwing. */
  const SipahiFirst: seq<Role> := [Sipahi, Chor, Raja, Mantri]

  /** The roles table that pool leaves: the second seat of "a" overwrites
      SIPAHI with CHOR. */
  const ChorTwice: map<Id, Role> := map["a" := Chor, "b" := Raja, "c" := Mantri]

  lemma DoubleSeatedDealsChorTwice()
    ensures Assign(Seats, SipahiFirst) == ChorTwice
  {
    var ps := Seats;
    assert ps[..3][..2] == ps[..2] && ps[..2][..1] == ps[..1] && ps[..1][..0] == [];
    assert Assign(ps[..1], SipahiFirst) == map["a" := Sipahi];
    assert Assign(ps[..2], SipahiFirst) == map["a" := Chor];
    assert Assign(ps[..3], SipahiFirst) == map["a" := Chor, "b" := Raja];
  }

  /** Under that table both lookups of the reveal find a seat. */
  lemma ChorTwiceLookups()
    ensures FindWithRole(Seats, ChorTwice, Raja) == Some(Seats[2])
    ensures FindWithRole(Seats, ChorTwice, Mantri) == Some(Seats[3])
    ensures FindWithRole(Seats, ChorTwice, Chor) == Some(Seats[0])
  {
    assert Seats[1..][1..] == Seats[2..];
    assert Seats[2..][1..] == Seats[3..];
  }

  /** The host starts the game with that pool: a RAJA and a MANTRI are found,
      nothing throws, and both seats of "a" hold CHOR while no seat holds
      SIPAHI. */
  lemma DuplicateSeatStartsQuietly()
    ensures var r := StartGame(DoubleSeated(), "a", RoomCode, SipahiFirst);
            && Threw !in r.out
            && r.rooms[RoomCode] == Room("a", 1, Playing, Seats, ChorTwice)
  {
    DoubleSeatedJoins();
    StartChorTwice(DoubleSeated());
  }

  lemma StartChorTwice(reg: Registry)
    requires RoomCode in reg && reg[RoomCode] == Room("a", 0, Lobby, Seats, map[])
    ensures var r := StartRound(reg, RoomCode, SipahiFirst);
            && Threw !in r.out
            && r.rooms[RoomCode] == Room("a", 1, Playing, Seats, ChorTwice)
  {
    DoubleSeatedDealsChorTwice();
    ChorTwiceLookups();
    var r := StartRound(reg, RoomCode, SipahiFirst);
    var out := r.out;
    assert r.rooms[RoomCode] == Room("a", 1, Playing, Seats, ChorTwice);
    assert |out| == 5;
    assert out[4] == PublicReveal(RoomCode, 1, "Bala", "Chet");
    forall i | 0 <= i < 4 ensures out[i] != Threw {
      assert out[i].YourRole?;
    }
    assert out == out[..4] + [out[4]];
  }

  /** Scores after the guess when the CHOR is caught, and when it escapes. */
  const Caught: seq<Player> :=
    [Player("a", "Asha", 0), Player("a", "Asha", 0), Player("b", "Bala", 30), Player("c", "Chet", 100)]
  const Escaped: seq<Player> :=
    [Player("a", "Asha", 100), Player("a", "Asha", 100), Player("b", "Bala", 30), Player("c", "Chet", 0)]

  /** The guess that follows pays both seats of "a" as the CHOR: the round
      adds 130 points when the CHOR is caught and 230 when it escapes, never
      the 180 of a proper deal. */
  lemma DuplicateSeatMispays(target: Option<Id>)
    ensures var started := StartGame(DoubleSeated(), "a", RoomCode, SipahiFirst).rooms;
            var after := MantriGuess(started, "c", RoomCode, target).rooms[RoomCode];
            && after.state == Results
            && (target == Some("a") ==> after.players == Caught && TotalScore(Caught) == TotalScore(Seats) + 130)
            && (target != Some("a") ==> after.players == Escaped && TotalScore(Escaped) == TotalScore(Seats) + 230)
  {
    DuplicateSeatStartsQuietly();
    var started := StartGame(DoubleSeated(), "a", RoomCode, SipahiFirst).rooms;
    GuessOnChorTwice(started, target);
    ChorTwiceTotals();
  }

  lemma GuessOnChorTwice(reg: Registry, target: Option<Id>)
    requires RoomCode in reg && reg[RoomCode] == Room("a", 1, Playing, Seats, ChorTwice)
    ensures var after := ResolveGuess(reg, RoomCode, target).rooms[RoomCode];
            && after.state == Results
            && after.players == (if target == Some("a") then Caught else Escaped)
  {
    ChorTwiceLookups();
    assert ChorId(reg[RoomCode]) == Some("a");
    var caught := target == Some("a");
    AwardChorTwice(caught);
  }

  /** Awarding the points of that table, seat by seat. */
  lemma AwardChorTwice(caught: bool)
    ensures Award(Seats, ChorTwice, caught) == if caught then Caught else Escaped
  {
    var scored := Award(Seats, ChorTwice, caught);
    assert RoleOf(ChorTwice, "a") == Some(Chor);
    assert RoleOf(ChorTwice, "b") == Some(Raja);
    assert RoleOf(ChorTwice, "c") == Some(Mantri);
    assert scored[0] == scored[1] == Seats[0].(score := if caught then 0 else 100);
    assert scored[2] == Seats[2].(score := 30);
    assert scored[3] == Seats[3].(score := if caught then 100 else 0);
  }

  /** Round totals of the two outcomes. */
  lemma ChorTwiceTotals()
    ensures TotalScore(Caught) == TotalScore(Seats) + 130
    ensures TotalScore(Escaped) == TotalScore(Seats) + 230
  {
    assert Caught[1..][1..][1..][1..] == [] && Escaped[1..][1..][1..][1..] == [];
    assert Seats[1..][1..][1..][1..] == [];
  }

  /** With the seat check, the second join of "a" is refused and the room
      keeps one seat. */
  lemma SeatCheckRefusesSecondSeat()
    ensures var r0 := CreateRoom(map[], "a", RoomCode, "Asha");
            var r1 := JoinRoomOnce(r0.rooms, "a", RoomCode, "Asha");
            && r1.out == [Refused("a", AlreadySeated)]
            && |r1.rooms[RoomCode].players| == 1
  {
    var r0 := CreateRoom(map[], "a", RoomCode, "Asha");
    assert "a" in Ids(r0.rooms[RoomCode].players) by {
      assert r0.rooms[RoomCode].players[0] in r0.rooms[RoomCode].players;
    }
  }
}
