/**
 The server as one state machine: each incoming socket event, with the id of
 the connection that sent it, is handled to completion before the next. Joins
 go through the seat-checked `JoinRoomOnce`.
 */
module Session {
  import opened Rooms
  import opened Engine
  import opened Handlers
  import opened Invariants

  /** The socket events the server listens to. The deck of `StartGame` and
      `NextRound` is the shuffle the server would draw. */
  datatype Event =
    | CreateRoomEvent(code: Code, name: string)
    | JoinRoomEvent(code: Code, name: string)
    | StartGameEvent(code: Code, deck: seq<Role>)
    | MantriGuessEvent(code: Code, target: Option<Id>)
    | NextRoundEvent(code: Code, deck: seq<Role>)
    | DisconnectEvent

  /** The shuffle gave some order of the four labels. */
  predicate FairlyDrawn(e: Event)
  {
    (e.StartGameEvent? || e.NextRoundEvent?) ==> IsDeck(e.deck)
  }

  function Step(reg: Registry, sender: Id, e: Event): (r: Reply)
    ensures e.DisconnectEvent? ==> r.out == []
    ensures e.MantriGuessEvent? ==> r.rooms.Keys == reg.Keys
  {
    match e
    case CreateRoomEvent(code, name) => CreateRoom(reg, sender, code, name)
    case JoinRoomEvent(code, name) => JoinRoomOnce(reg, sender, code, name)
    case StartGameEvent(code, deck) => StartGame(reg, sender, code, deck)
    case MantriGuessEvent(code, target) => MantriGuess(reg, sender, code, target)
    case NextRoundEvent(code, deck) => NextRound(reg, code, deck)
    case DisconnectEvent => Disconnect(reg, sender)
  }

  /** Every handler keeps every room consistent: at most four distinct seats,
      the host seated, and a round in progress or just resolved has exactly
      four seats and the roles dealt as a bijection. */
  lemma StepKeepsConsistent(reg: Registry, sender: Id, e: Event)
    requires AllConsistent(reg) && FairlyDrawn(e)
    ensures AllConsistent(Step(reg, sender, e).rooms)
  {
    match e
    case CreateRoomEvent(code, name) => CreateRoomKeepsConsistent(reg, sender, code, name);
    case JoinRoomEvent(code, name) => JoinRoomOnceKeepsConsistent(reg, sender, code, name);
    case StartGameEvent(code, deck) => StartGameKeepsConsistent(reg, sender, code, deck);
    case MantriGuessEvent(code, target) => ResolveGuessKeepsInvariants(reg, code, target);
    case NextRoundEvent(code, deck) => NextRoundKeepsConsistent(reg, code, deck);
    case DisconnectEvent => DisconnectKeepsInvariants(reg, sender);
  }

  /** The room table after handling a sequence of (sender, event) pairs. */
  function Run(reg: Registry, events: seq<(Id, Event)>): Registry
    decreases |events|
  {
    if events == [] then reg
    else Run(Step(reg, events[0].0, events[0].1).rooms, events[1..])
  }

  /** Starting from an empty table, every room ever reachable is consistent. */
  lemma {:induction false} RunKeepsConsistent(reg: Registry, events: seq<(Id, Event)>)
    requires AllConsistent(reg)
    requires forall i :: 0 <= i < |events| ==> FairlyDrawn(events[i].1)
    ensures AllConsistent(Run(reg, events))
    decreases |events|
  {
    if events != [] {
      StepKeepsConsistent(reg, events[0].0, events[0].1);
      var rest := events[1..];
      assert forall i :: 0 <= i < |rest| ==> rest[i] == events[i + 1];
      RunKeepsConsistent(Step(reg, events[0].0, events[0].1).rooms, rest);
    }
  }

  /** In any reachable table, a room with a round under way or resolved has
      exactly four seats, each holding a different role, and its host is
      seated. */
  lemma ReachableRooms(events: seq<(Id, Event)>, code: Code)
    requires forall i :: 0 <= i < |events| ==> FairlyDrawn(events[i].1)
    requires code in Run(map[], events)
    ensures var room := Run(map[], events)[code];
            && 1 <= |room.players| <= Capacity
            && room.host in Ids(room.players)
            && (room.state != Lobby ==> |room.players| == Capacity && Dealt(room.players, room.roles))
  {
    RunKeepsConsistent(map[], events);
  }

  /** The server as written: joins go through `JoinRoom`, with no seat
      check. */
  function StepAsWritten(reg: Registry, sender: Id, e: Event): (r: Reply)
    ensures !e.JoinRoomEvent? ==> r == Step(reg, sender, e)
    ensures e.JoinRoomEvent? && !(e.code in reg && sender in Ids(reg[e.code].players)) ==> r == Step(reg, sender, e)
  {
    match e
    case JoinRoomEvent(code, name) => JoinRoom(reg, sender, code, name)
    case _ => Step(reg, sender, e)
  }

  /** Every handler as written keeps every room well formed. */
  lemma StepAsWrittenKeepsWellFormed(reg: Registry, sender: Id, e: Event)
    requires AllWellFormed(reg) && FairlyDrawn(e)
    ensures AllWellFormed(StepAsWritten(reg, sender, e).rooms)
  {
    match e
    case CreateRoomEvent(code, name) => CreateRoomKeepsWellFormed(reg, sender, code, name);
    case JoinRoomEvent(code, name) => JoinRoomKeepsWellFormed(reg, sender, code, name);
    case StartGameEvent(code, deck) => StartGameKeepsWellFormed(reg, sender, code, deck);
    case MantriGuessEvent(code, target) => ResolveGuessKeepsInvariants(reg, code, target);
    case NextRoundEvent(code, deck) => NextRoundKeepsWellFormed(reg, code, deck);
    case DisconnectEvent => DisconnectKeepsInvariants(reg, sender);
  }

  /** The room table after a sequence of events handled as written. */
  function RunAsWritten(reg: Registry, events: seq<(Id, Event)>): Registry
    decreases |events|
  {
    if events == [] then reg
    else RunAsWritten(StepAsWritten(reg, events[0].0, events[0].1).rooms, events[1..])
  }

  lemma {:induction false} RunAsWrittenKeepsWellFormed(reg: Registry, events: seq<(Id, Event)>)
    requires AllWellFormed(reg)
    requires forall i :: 0 <= i < |events| ==> FairlyDrawn(events[i].1)
    ensures AllWellFormed(RunAsWritten(reg, events))
    decreases |events|
  {
    if events != [] {
      StepAsWrittenKeepsWellFormed(reg, events[0].0, events[0].1);
      var rest := events[1..];
      assert forall i :: 0 <= i < |rest| ==> rest[i] == events[i + 1];
      RunAsWrittenKeepsWellFormed(StepAsWritten(reg, events[0].0, events[0].1).rooms, rest);
    }
  }

  /** In any table the server as written can reach, a room has one to four
      seats with its host among them, and a room with a round under way or
      resolved has exactly four seats, only seated ids in its roles table and
      no role held twice. The roles need not cover all four labels: a
      connection seated twice loses one. */
  lemma ReachableAsWritten(events: seq<(Id, Event)>, code: Code)
    requires forall i :: 0 <= i < |events| ==> FairlyDrawn(events[i].1)
    requires code in RunAsWritten(map[], events)
    ensures var room := RunAsWritten(map[], events)[code];
            && 1 <= |room.players| <= Capacity
            && room.host in Ids(room.players)
            && (room.state != Lobby ==>
                  && |room.players| == Capacity
                  && room.roles.Keys <= Ids(room.players)
                  && InjectiveRoles(room.roles))
  {
    RunAsWrittenKeepsWellFormed(map[], events);
  }

  /** In a consistent table the only event that makes a handler throw is a
      join to a code that is not a room but names an inherited property:
      starting a round always finds a RAJA and a MANTRI to name. */
  lemma ConsistentStepNeverThrows(reg: Registry, sender: Id, e: Event)
    requires AllConsistent(reg) && FairlyDrawn(e)
    ensures Threw in Step(reg, sender, e).out <==> e.JoinRoomEvent? && e.code !in reg && e.code in Inherited
  {
    match e
    case StartGameEvent(code, deck) =>
      if code in reg && reg[code].host == sender && |reg[code].players| == Capacity {
        StartRoundNeverThrows(reg, code, deck);
      }
    case NextRoundEvent(code, deck) =>
      if code in reg && reg[code].state == Results {
        StartRoundNeverThrows(reg, code, deck);
      }
    case _ =>
  }

  lemma StartRoundNeverThrows(reg: Registry, code: Code, deck: seq<Role>)
    requires code in reg && Consistent(reg[code]) && IsDeck(deck)
    requires |reg[code].players| == Capacity
    ensures Threw !in StartRound(reg, code, deck).out
  {
    StartRoundDeals(reg, code, deck);
    var out := StartRound(reg, code, deck).out;
    assert |out| == Capacity + 1;
    assert out[Capacity].PublicReveal?;
    forall i | 0 <= i < Capacity ensures out[i] != Threw {
      assert out[i].YourRole?;
    }
    assert out == out[..Capacity] + [out[Capacity]];
  }
}
