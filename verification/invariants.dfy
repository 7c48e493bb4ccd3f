/**
 The room-table invariants and the handlers that keep them. `AllWellFormed`
 holds after every handler as written; `AllConsistent`, which adds distinct
 seats and a bijective deal, holds after every handler when a join never
 seats a connection twice.
 */
module Invariants {
  import opened Rooms
  import opened Engine
  import opened Handlers

  /** Two seat lists with the same ids seat by seat seat the same set of
      connections, and one has distinct ids iff the other has. */
  lemma SameSeats(a: seq<Player>, b: seq<Player>)
    requires |a| == |b|
    requires forall i :: 0 <= i < |a| ==> a[i].id == b[i].id
    ensures Ids(a) == Ids(b)
    ensures DistinctIds(a) <==> DistinctIds(b)
  {
    forall id | id in Ids(a) ensures id in Ids(b) {
      var k :| 0 <= k < |a| && a[k].id == id;
      assert b[k] in b;
    }
    forall id | id in Ids(b) ensures id in Ids(a) {
      var k :| 0 <= k < |b| && b[k].id == id;
      assert a[k] in a;
    }
  }

  lemma CreateRoomKeepsWellFormed(reg: Registry, sender: Id, code: Code, name: string)
    requires AllWellFormed(reg)
    ensures AllWellFormed(CreateRoom(reg, sender, code, name).rooms)
  {
  }

  lemma CreateRoomKeepsConsistent(reg: Registry, sender: Id, code: Code, name: string)
    requires AllConsistent(reg)
    ensures AllConsistent(CreateRoom(reg, sender, code, name).rooms)
  {
  }

  /** The join guard keeps a room within four seats and in the lobby, and an
      appended seat never unseats the host. */
  lemma JoinRoomKeepsWellFormed(reg: Registry, sender: Id, code: Code, name: string)
    requires AllWellFormed(reg)
    ensures AllWellFormed(JoinRoom(reg, sender, code, name).rooms)
  {
    if Admits(reg, code) {
      var before := reg[code].players;
      var after := JoinRoom(reg, sender, code, name).rooms[code].players;
      assert after == before + [Player(sender, name, 0)];
      assert Ids(after) == Ids(before) + {sender};
    }
  }

  /** A join keeps the seats distinct as long as the sender is not already
      seated in that room. */
  lemma JoinRoomKeepsConsistent(reg: Registry, sender: Id, code: Code, name: string)
    requires AllConsistent(reg)
    requires code in reg ==> sender !in Ids(reg[code].players)
    ensures AllConsistent(JoinRoom(reg, sender, code, name).rooms)
  {
    JoinRoomKeepsWellFormed(reg, sender, code, name);
    if Admits(reg, code) {
      var before := reg[code].players;
      var after := JoinRoom(reg, sender, code, name).rooms[code].players;
      assert after == before + [Player(sender, name, 0)];
      forall i, j | 0 <= i < j < |after| ensures after[i].id != after[j].id {
        if j == |before| {
          assert before[i] in before;
        }
      }
    }
  }

  /** The seat-checked join keeps every room consistent, with no condition
      on the sender. */
  lemma JoinRoomOnceKeepsConsistent(reg: Registry, sender: Id, code: Code, name: string)
    requires AllConsistent(reg)
    ensures AllConsistent(JoinRoomOnce(reg, sender, code, name).rooms)
  {
    if !(code in reg && sender in Ids(reg[code].players)) {
      JoinRoomKeepsConsistent(reg, sender, code, name);
    }
  }

  /** A round dealt from a shuffled deck to four seats leaves the room well
      formed. */
  lemma StartRoundKeepsWellFormed(reg: Registry, code: Code, deck: seq<Role>)
    requires AllWellFormed(reg) && IsDeck(deck)
    requires code in reg ==> |reg[code].players| == Capacity
    ensures AllWellFormed(StartRound(reg, code, deck).rooms)
  {
    if code in reg {
      var ps := reg[code].players;
      AssignFacts(ps, deck);
      DeckHasNoRepeats(deck);
      AssignInjective(ps, deck);
      assert StartRound(reg, code, deck).rooms[code].roles == Assign(ps, deck);
    }
  }

  lemma StartRoundKeepsConsistent(reg: Registry, code: Code, deck: seq<Role>)
    requires AllConsistent(reg) && IsDeck(deck)
    requires code in reg ==> |reg[code].players| == Capacity
    ensures AllConsistent(StartRound(reg, code, deck).rooms)
  {
    if code in reg {
      var ps := reg[code].players;
      DealFromDeck(ps, deck);
      StartRoundKeepsWellFormed(reg, code, deck);
      assert StartRound(reg, code, deck).rooms[code].roles == Assign(ps, deck);
    }
  }

  lemma StartGameKeepsWellFormed(reg: Registry, sender: Id, code: Code, deck: seq<Role>)
    requires AllWellFormed(reg) && IsDeck(deck)
    ensures AllWellFormed(StartGame(reg, sender, code, deck).rooms)
  {
    if code in reg && reg[code].host == sender && |reg[code].players| == Capacity {
      StartRoundKeepsWellFormed(reg, code, deck);
    }
  }

  lemma StartGameKeepsConsistent(reg: Registry, sender: Id, code: Code, deck: seq<Role>)
    requires AllConsistent(reg) && IsDeck(deck)
    ensures AllConsistent(StartGame(reg, sender, code, deck).rooms)
  {
    if code in reg && reg[code].host == sender && |reg[code].players| == Capacity {
      StartRoundKeepsConsistent(reg, code, deck);
    }
  }

  /** `nextRound` only acts on a room showing results, which the invariant
      says has four seats, so the deal is always to four. */
  lemma NextRoundKeepsWellFormed(reg: Registry, code: Code, deck: seq<Role>)
    requires AllWellFormed(reg) && IsDeck(deck)
    ensures AllWellFormed(NextRound(reg, code, deck).rooms)
  {
    if code in reg && reg[code].state == Results {
      StartRoundKeepsWellFormed(reg, code, deck);
    }
  }

  lemma NextRoundKeepsConsistent(reg: Registry, code: Code, deck: seq<Role>)
    requires AllConsistent(reg) && IsDeck(deck)
    ensures AllConsistent(NextRound(reg, code, deck).rooms)
  {
    if code in reg && reg[code].state == Results {
      StartRoundKeepsConsistent(reg, code, deck);
    }
  }

  /** Scoring changes no seat, host or role, so both invariants survive. */
  lemma ResolveGuessKeepsInvariants(reg: Registry, code: Code, target: Option<Id>)
    ensures AllWellFormed(reg) ==> AllWellFormed(ResolveGuess(reg, code, target).rooms)
    ensures AllConsistent(reg) ==> AllConsistent(ResolveGuess(reg, code, target).rooms)
  {
    if code in reg && reg[code].state == Playing {
      SameSeats(reg[code].players, ResolveGuess(reg, code, target).rooms[code].players);
    }
  }

  /** A room that survives a disconnect still seats its host, has at most
      four seats, and is back in the lobby if it lost anyone. */
  lemma LeaveKeepsInvariants(room: Room, id: Id)
    requires Leave(room, id).Some?
    ensures WellFormed(room) ==> WellFormed(Leave(room, id).value)
    ensures Consistent(room) ==> Consistent(Leave(room, id).value)
  {
    WithoutFacts(room.players, id);
    var kept := Leave(room, id).value.players;
    assert kept[0] in kept;
  }

  lemma DisconnectKeepsInvariants(reg: Registry, sender: Id)
    ensures AllWellFormed(reg) ==> AllWellFormed(Disconnect(reg, sender).rooms)
    ensures AllConsistent(reg) ==> AllConsistent(Disconnect(reg, sender).rooms)
  {
    var after := Disconnect(reg, sender).rooms;
    forall c | c in after
      ensures WellFormed(reg[c]) ==> WellFormed(after[c])
      ensures Consistent(reg[c]) ==> Consistent(after[c])
    {
      LeaveKeepsInvariants(reg[c], sender);
    }
  }
}
