/**
 The room record and the room table of the Raja-Mantri-Chor-Sipahi game
 server, the messages the server sends, and the predicates that say when a
 room is in shape.
 */
module Rooms {

  /** A socket's connection id; it is the player's only identity. */
  type Id = string

  /** A room code, the key of the room table. */
  type Code = string

  datatype Option<T> = None | Some(value: T)

  datatype Role = Raja | Mantri | Chor | Sipahi

  /** The `state` tag of a room: "lobby", "playing" or "results". */
  datatype Phase = Lobby | Playing | Results

  datatype Player = Player(id: Id, name: string, score: nat)

  /** One entry of the room table. `roles` maps a connection id to the role
      dealt to it in the latest round. */
  datatype Room = Room(host: Id, round: nat, state: Phase, players: seq<Player>, roles: map<Id, Role>)

  /** The in-memory room table, from room code to room. */
  type Registry = map<Code, Room>

  /** The table is a plain JavaScript object, so looking up a code that is not
      one of its own keys but names a property every object inherits from
      `Object.prototype` yields that property (a function, or the prototype
      itself for `__proto__`) rather than `undefined`. None of these values
      has a `players`, `host` or `state` field. */
  const Inherited: set<Code> := {
    "constructor", "__proto__", "toString", "toLocaleString", "valueOf",
    "hasOwnProperty", "isPrototypeOf", "propertyIsEnumerable",
    "__defineGetter__", "__defineSetter__", "__lookupGetter__", "__lookupSetter__"
  }

  /** The reasons a request is refused with a `roomError` message.
      `AlreadySeated` belongs to the seat-checked join only. */
  datatype RoomError = NoSuchRoom | RoomFull | AlreadyStarted | NeedFourPlayers | AlreadySeated

  function Message(e: RoomError): string
  {
    match e
    case NoSuchRoom => "Room does not exist."
    case RoomFull => "Room is already full."
    case AlreadyStarted => "Game already started."
    case NeedFourPlayers => "Game can start only when 4 players have joined."
    case AlreadySeated => "You are already in this room."
  }

  /** Outbound messages. `YourRole` carries `None` where the server would send
      `undefined`; `Threw` marks a handler that raised a TypeError part-way. */
  datatype Msg =
    | RoomJoined(to: Id, code: Code, host: bool)
    | Refused(to: Id, error: RoomError)
    | PlayerList(code: Code, players: seq<Player>)
    | WaitingStatus(code: Code, count: nat)
    | YourRole(to: Id, role: Option<Role>)
    | PublicReveal(code: Code, round: nat, raja: string, mantri: string)
    | RoundResult(code: Code, roles: map<Id, Role>, players: seq<Player>)
    | Threw

  /** What a handler leaves behind: the new room table and what it sent. */
  datatype Reply = Reply(rooms: Registry, out: seq<Msg>)

  /** Seats per room. */
  const Capacity: nat := 4

  /** The connection ids seated in a room. */
  function Ids(ps: seq<Player>): set<Id>
  {
    set p | p in ps :: p.id
  }

  predicate DistinctIds(ps: seq<Player>)
  {
    forall i, j :: 0 <= i < j < |ps| ==> ps[i].id != ps[j].id
  }

  /** `roles[id]`, with `None` for a key that is absent (or undefined). */
  function RoleOf(roles: map<Id, Role>, id: Id): Option<Role>
  {
    if id in roles then Some(roles[id]) else None
  }

  /** A shuffled role pool: some order of the four role labels. */
  predicate IsDeck(deck: seq<Role>)
  {
    |deck| == 4 && Raja in deck && Mantri in deck && Chor in deck && Sipahi in deck
  }

  predicate NoRepeats(deck: seq<Role>)
  {
    forall i, j :: 0 <= i < j < |deck| ==> deck[i] != deck[j]
  }

  /** No two connections hold the same role. */
  predicate InjectiveRoles(roles: map<Id, Role>)
  {
    forall a, b :: a in roles && b in roles && a != b ==> roles[a] != roles[b]
  }

  /** The roles are a bijection from the four seated ids onto the four labels. */
  predicate Dealt(ps: seq<Player>, roles: map<Id, Role>)
  {
    && |ps| == Capacity
    && DistinctIds(ps)
    && roles.Keys == Ids(ps)
    && InjectiveRoles(roles)
  }

  /** What every handler of the server, as written, keeps true of a room:
      it is not empty, not over capacity, its host is seated, and a room with
      a round in progress or just resolved has four seats and roles dealt
      only to seated ids, one role each. */
  predicate WellFormed(room: Room)
  {
    && 1 <= |room.players| <= Capacity
    && room.host in Ids(room.players)
    && (room.state != Lobby ==>
          && |room.players| == Capacity
          && room.roles.Keys <= Ids(room.players)
          && InjectiveRoles(room.roles))
  }

  /** WellFormed, and no connection holds two seats, so that every round
      deals the roles as a bijection. */
  predicate Consistent(room: Room)
  {
    && WellFormed(room)
    && DistinctIds(room.players)
    && (room.state != Lobby ==> Dealt(room.players, room.roles))
  }

  predicate AllWellFormed(reg: Registry)
  {
    forall c :: c in reg ==> WellFormed(reg[c])
  }

  predicate AllConsistent(reg: Registry)
  {
    forall c :: c in reg ==> Consistent(reg[c])
  }

  /** A deck holds each label exactly once. */
  lemma DeckHasNoRepeats(deck: seq<Role>)
    requires IsDeck(deck)
    ensures NoRepeats(deck)
  {
    assert deck == [deck[0], deck[1], deck[2], deck[3]];
  }

  /** Four different labels are all the labels there are. */
  lemma FourRolesCoverAll(r0: Role, r1: Role, r2: Role, r3: Role, r: Role)
    requires r0 != r1 && r0 != r2 && r0 != r3 && r1 != r2 && r1 != r3 && r2 != r3
    ensures r == r0 || r == r1 || r == r2 || r == r3
  {
  }

  /** In a dealt room every label is held by some seat. */
  lemma DealtHasEveryRole(ps: seq<Player>, roles: map<Id, Role>, r: Role) returns (k: nat)
    requires Dealt(ps, roles)
    ensures k < |ps| && ps[k].id in roles && roles[ps[k].id] == r
  {
    assert ps[0] in ps && ps[1] in ps && ps[2] in ps && ps[3] in ps;
    assert ps[0].id != ps[1].id && ps[0].id != ps[2].id && ps[0].id != ps[3].id;
    assert ps[1].id != ps[2].id && ps[1].id != ps[3].id && ps[2].id != ps[3].id;
    var r0, r1, r2, r3 := roles[ps[0].id], roles[ps[1].id], roles[ps[2].id], roles[ps[3].id];
    FourRolesCoverAll(r0, r1, r2, r3, r);
    if r == r0 {
      k := 0;
    } else if r == r1 {
      k := 1;
    } else if r == r2 {
      k := 2;
    } else {
      k := 3;
    }
  }
}
