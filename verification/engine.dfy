/**
 The game core of the server: dealing a round (`startRound`) and resolving
 the Mantri's guess (`resolveGuess`). The shuffled role pool is a parameter.
 */
module Engine {
  import opened Rooms

  /** Points per round, by role. */
  const RajaPoints: nat := 30
  const SipahiPoints: nat := 50
  const MantriCatchPoints: nat := 100
  const ChorEscapePoints: nat := 100

  /** Points added over one round when every label is held once. */
  const RoundTotal: nat := RajaPoints + SipahiPoints + MantriCatchPoints

  /** The roles table built by writing `deck[i]` under the id of seat `i`, in
      seat order, starting from an empty table. A later seat with the same id
      overwrites an earlier one; a seat past the end of the deck writes
      `undefined`, which reads back exactly like an absent key. */
  function Assign(ps: seq<Player>, deck: seq<Role>): map<Id, Role>
    decreases |ps|
  {
    if ps == [] then map[]
    else
      var i := |ps| - 1;
      var m := Assign(ps[..i], deck);
      if i < |deck| then m[ps[i].id := deck[i]] else m - {ps[i].id}
  }

  /** Every seat gets a role, every role in the table comes from the seats'
      slots of the deck, and with distinct ids seat `i` holds `deck[i]`. */
  lemma AssignFacts(ps: seq<Player>, deck: seq<Role>)
    requires |ps| <= |deck|
    ensures Assign(ps, deck).Keys == Ids(ps)
    ensures forall id :: id in Assign(ps, deck) ==> Assign(ps, deck)[id] in deck[..|ps|]
    ensures DistinctIds(ps) ==> forall i :: 0 <= i < |ps| ==> Assign(ps, deck)[ps[i].id] == deck[i]
  {
    AssignKeys(ps, deck);
    if DistinctIds(ps) {
      AssignSeats(ps, deck);
    }
  }

  lemma {:induction false} AssignKeys(ps: seq<Player>, deck: seq<Role>)
    requires |ps| <= |deck|
    ensures Assign(ps, deck).Keys == Ids(ps)
    ensures forall id :: id in Assign(ps, deck) ==> Assign(ps, deck)[id] in deck[..|ps|]
    decreases |ps|
  {
    if ps != [] {
      var i := |ps| - 1;
      var front := ps[..i];
      AssignKeys(front, deck);
      assert ps == front + [ps[i]];
      assert Ids(ps) == Ids(front) + {ps[i].id};
      assert deck[..i] <= deck[..|ps|];
    }
  }

  lemma {:induction false} AssignSeats(ps: seq<Player>, deck: seq<Role>)
    requires |ps| <= |deck| && DistinctIds(ps)
    ensures forall i :: 0 <= i < |ps| ==> ps[i].id in Assign(ps, deck) && Assign(ps, deck)[ps[i].id] == deck[i]
    decreases |ps|
  {
    if ps != [] {
      var i := |ps| - 1;
      var front := ps[..i];
      assert DistinctIds(front);
      AssignSeats(front, deck);
      var m := Assign(front, deck);
      assert Assign(ps, deck) == m[ps[i].id := deck[i]];
      forall j | 0 <= j < i
        ensures ps[j].id in Assign(ps, deck) && Assign(ps, deck)[ps[j].id] == deck[j]
      {
        assert front[j] == ps[j];
      }
    }
  }

  /** Dealing from a deck without repeats gives each id a different role. */
  lemma {:induction false} AssignInjective(ps: seq<Player>, deck: seq<Role>)
    requires |ps| <= |deck|
    requires NoRepeats(deck)
    ensures InjectiveRoles(Assign(ps, deck))
    decreases |ps|
  {
    if ps != [] {
      var i := |ps| - 1;
      var front := ps[..i];
      AssignInjective(front, deck);
      AssignFacts(front, deck);
      var m := Assign(front, deck);
      assert deck[i] !in deck[..i] by {
        forall k | 0 <= k < i ensures deck[k] != deck[i] {
        }
      }
      var dealt := m[ps[i].id := deck[i]];
      assert Assign(ps, deck) == dealt;
      forall a, b | a in dealt && b in dealt && a != b
        ensures dealt[a] != dealt[b]
      {
        if a != ps[i].id && b != ps[i].id {
          assert m[a] != m[b];
        } else if a == ps[i].id {
          assert m[b] in deck[..i];
        } else {
          assert m[a] in deck[..i];
        }
      }
    }
  }

  /** `players.find(p => roles[p.id] === r)`: the first seat holding `r`. */
  function FindWithRole(ps: seq<Player>, roles: map<Id, Role>, r: Role): (found: Option<Player>)
    ensures found.Some? ==> exists i :: 0 <= i < |ps| && ps[i] == found.value
                              && RoleOf(roles, ps[i].id) == Some(r)
                              && forall j :: 0 <= j < i ==> RoleOf(roles, ps[j].id) != Some(r)
    ensures found.None? ==> forall i :: 0 <= i < |ps| ==> RoleOf(roles, ps[i].id) != Some(r)
  {
    if ps == [] then None
    else if RoleOf(roles, ps[0].id) == Some(r) then Some(ps[0])
    else
      var rest := FindWithRole(ps[1..], roles, r);
      assert forall i :: 1 <= i < |ps| ==> ps[i] == ps[1..][i - 1];
      rest
  }

  /** With roles dealt as a bijection, the search finds the one seat that
      holds `r`. */
  lemma FindDealt(ps: seq<Player>, roles: map<Id, Role>, r: Role, k: nat)
    requires Dealt(ps, roles)
    requires k < |ps| && roles[ps[k].id] == r
    ensures FindWithRole(ps, roles, r) == Some(ps[k])
  {
    var found := FindWithRole(ps, roles, r);
    assert RoleOf(roles, ps[k].id) == Some(r);
    var i :| 0 <= i < |ps| && ps[i] == found.value && RoleOf(roles, ps[i].id) == Some(r);
    assert ps[i] in ps && ps[k] in ps;
  }

  /** The id of the Chor. The server searches `Object.keys(roles)`, whose
      order is the seats' order of first assignment; the model searches the
      seats. ChorIdIsRolesKey shows the two agree whenever a guess can act. */
  function ChorId(room: Room): Option<Id>
  {
    match FindWithRole(room.players, room.roles, Chor)
    case None => None
    case Some(p) => Some(p.id)
  }

  /** In every well-formed room with a round under way, `ChorId` is the key
      of `roles` that holds CHOR, and is `None` when no key does. */
  lemma ChorIdIsRolesKey(room: Room)
    requires WellFormed(room) && room.state == Playing
    ensures forall id :: id in room.roles && room.roles[id] == Chor ==> ChorId(room) == Some(id)
    ensures ChorId(room).None? ==> forall id :: id in room.roles ==> room.roles[id] != Chor
  {
    forall id | id in room.roles && room.roles[id] == Chor
      ensures ChorId(room) == Some(id)
    {
      assert id in Ids(room.players);
      var k :| 0 <= k < |room.players| && room.players[k].id == id;
      var found := FindWithRole(room.players, room.roles, Chor);
      assert RoleOf(room.roles, room.players[k].id) == Some(Chor);
      assert found.Some?;
      assert found.value.id in room.roles && room.roles[found.value.id] == Chor;
    }
    if ChorId(room).None? {
      forall id | id in room.roles
        ensures room.roles[id] != Chor
      {
        assert id in Ids(room.players);
        var k :| 0 <= k < |room.players| && room.players[k].id == id;
        assert RoleOf(room.roles, room.players[k].id) != Some(Chor);
      }
    }
  }

  /** Points a seat gains, given its role and whether the Mantri caught the
      Chor. A seat with no role gains nothing. */
  function Points(role: Option<Role>, caught: bool): nat
  {
    match role
    case None => 0
    case Some(Raja) => RajaPoints
    case Some(Sipahi) => SipahiPoints
    case Some(Mantri) => if caught then MantriCatchPoints else 0
    case Some(Chor) => if caught then 0 else ChorEscapePoints
  }

  /** Each seat's score plus the points of the role stored under its id. */
  function Award(ps: seq<Player>, roles: map<Id, Role>, caught: bool): (after: seq<Player>)
    ensures |after| == |ps|
    ensures forall i :: 0 <= i < |ps| ==> after[i].id == ps[i].id && after[i].name == ps[i].name
  {
    seq(|ps|, i requires 0 <= i < |ps| =>
      ps[i].(score := ps[i].score + Points(RoleOf(roles, ps[i].id), caught)))
  }

  function TotalScore(ps: seq<Player>): nat
  {
    if ps == [] then 0 else ps[0].score + TotalScore(ps[1..])
  }

  /** Sum of the points the seats gain. */
  function TotalPoints(ps: seq<Player>, roles: map<Id, Role>, caught: bool): nat
  {
    if ps == [] then 0 else Points(RoleOf(roles, ps[0].id), caught) + TotalPoints(ps[1..], roles, caught)
  }

  /** Awarding adds exactly the sum of the seats' points to the total. */
  lemma {:induction false} AwardTotal(ps: seq<Player>, roles: map<Id, Role>, caught: bool)
    ensures TotalScore(Award(ps, roles, caught)) == TotalScore(ps) + TotalPoints(ps, roles, caught)
    decreases |ps|
  {
    if ps != [] {
      AwardTotal(ps[1..], roles, caught);
      assert Award(ps, roles, caught)[1..] == Award(ps[1..], roles, caught);
    }
  }

  /** With the four labels dealt once each, a round's points sum to 180
      whatever the guess. */
  lemma DealtPointsTotal(ps: seq<Player>, roles: map<Id, Role>, caught: bool)
    requires Dealt(ps, roles)
    ensures TotalPoints(ps, roles, caught) == RoundTotal
  {
    assert ps[0] in ps && ps[1] in ps && ps[2] in ps && ps[3] in ps;
    var r0, r1, r2, r3 := roles[ps[0].id], roles[ps[1].id], roles[ps[2].id], roles[ps[3].id];
    var t1 := ps[1..];
    var t2 := t1[1..];
    var t3 := t2[1..];
    assert t3[1..] == [];
    assert TotalPoints(t3, roles, caught) == Points(Some(r3), caught);
    assert TotalPoints(t2, roles, caught) == Points(Some(r2), caught) + Points(Some(r3), caught);
    assert TotalPoints(t1, roles, caught) == Points(Some(r1), caught) + Points(Some(r2), caught) + Points(Some(r3), caught);
    FourRolesPoints(r0, r1, r2, r3, caught);
  }

  /** Four different roles earn 180 points between them. */
  lemma FourRolesPoints(r0: Role, r1: Role, r2: Role, r3: Role, caught: bool)
    requires r0 != r1 && r0 != r2 && r0 != r3 && r1 != r2 && r1 != r3 && r2 != r3
    ensures Points(Some(r0), caught) + Points(Some(r1), caught) + Points(Some(r2), caught) + Points(Some(r3), caught)
            == RoundTotal
  {
  }

  /** `yourRole` sent to each seat, in seat order, with the deck slot of that
      seat (`undefined` past the end of the deck). */
  function PrivateRoles(ps: seq<Player>, deck: seq<Role>): (msgs: seq<Msg>)
    ensures |msgs| == |ps|
  {
    seq(|ps|, i requires 0 <= i < |ps| => YourRole(ps[i].id, if i < |deck| then Some(deck[i]) else None))
  }

  /** `startRound(code)`: a round starts in the room if it exists. The round
      counter goes up by one, the room moves to Playing, and the roles table is
      rebuilt from an empty one. Seats, scores and host are left alone. Each
      seat is sent its role privately; then the names of the seats holding
      RAJA and MANTRI are broadcast, and if either is missing the lookup of
      `.name` throws after the room has already been changed. */
  function StartRound(reg: Registry, code: Code, deck: seq<Role>): (r: Reply)
    ensures code !in reg ==> r == Reply(reg, [])
    ensures r.rooms.Keys == reg.Keys
    ensures forall c :: c in reg && c != code ==> r.rooms[c] == reg[c]
    ensures code in reg ==>
              var before := reg[code];
              var after := r.rooms[code];
              && after.round == before.round + 1
              && after.state == Playing
              && after.players == before.players
              && after.host == before.host
  {
    if code !in reg then Reply(reg, [])
    else
      var room := reg[code];
      var roles := Assign(room.players, deck);
      var started := room.(round := room.round + 1, state := Playing, roles := roles);
      var raja := FindWithRole(room.players, roles, Raja);
      var mantri := FindWithRole(room.players, roles, Mantri);
      var announce :=
        if raja.Some? && mantri.Some? then PublicReveal(code, started.round, raja.value.name, mantri.value.name)
        else Threw;
      Reply(reg[code := started], PrivateRoles(room.players, deck) + [announce])
  }

  /** The index of the first slot of the deck holding `r`. */
  function Slot(deck: seq<Role>, r: Role): (k: nat)
    requires r in deck
    ensures k < |deck| && deck[k] == r
  {
    if deck[0] == r then 0 else 1 + Slot(deck[1..], r)
  }

  /** A round started from a shuffled deck in a room of four distinct seats:
      the new roles table is a bijection from exactly the seated ids onto the
      four labels, seat `i` holds `deck[i]`, each seat is told privately the
      role the table records for it, and the broadcast names the seats whose
      deck slots are RAJA and MANTRI, with the new round number. */
  lemma StartRoundDeals(reg: Registry, code: Code, deck: seq<Role>)
    requires code in reg && IsDeck(deck)
    requires |reg[code].players| == Capacity && DistinctIds(reg[code].players)
    ensures var ps := reg[code].players;
            var r := StartRound(reg, code, deck);
            var roles := r.rooms[code].roles;
            && Dealt(ps, roles)
            && (forall i :: 0 <= i < |ps| ==> roles[ps[i].id] == deck[i])
            && |r.out| == |ps| + 1
            && (forall i :: 0 <= i < |ps| ==> r.out[i] == YourRole(ps[i].id, Some(roles[ps[i].id])))
            && r.out[|ps|] == PublicReveal(code, reg[code].round + 1,
                                           ps[Slot(deck, Raja)].name, ps[Slot(deck, Mantri)].name)
  {
    var ps := reg[code].players;
    DealFromDeck(ps, deck);
    var roles := Assign(ps, deck);
    FindDealt(ps, roles, Raja, Slot(deck, Raja));
    FindDealt(ps, roles, Mantri, Slot(deck, Mantri));
    var r := StartRound(reg, code, deck);
    assert r.rooms[code].roles == roles;
    assert r.out == PrivateRoles(ps, deck)
      + [PublicReveal(code, reg[code].round + 1, ps[Slot(deck, Raja)].name, ps[Slot(deck, Mantri)].name)];
  }

  /** Four distinct seats dealt from a shuffled deck: a bijection, with seat
      `i` holding `deck[i]`. */
  lemma DealFromDeck(ps: seq<Player>, deck: seq<Role>)
    requires IsDeck(deck) && |ps| == Capacity && DistinctIds(ps)
    ensures Dealt(ps, Assign(ps, deck))
    ensures forall i :: 0 <= i < |ps| ==> Assign(ps, deck)[ps[i].id] == deck[i]
  {
    AssignFacts(ps, deck);
    DeckHasNoRepeats(deck);
    AssignInjective(ps, deck);
  }

  /** `resolveGuess(code, targetId)`: acts only on a room that exists and is
      Playing. Every seat gains the points of its role, the Mantri's points
      and the Chor's depending on whether the target equals the Chor's id
      (`===`, so a missing target equals a missing Chor); the room moves to
      Results and the roles and scores are broadcast. */
  function ResolveGuess(reg: Registry, code: Code, target: Option<Id>): (r: Reply)
    ensures r.rooms.Keys == reg.Keys
    ensures forall c :: c in reg && c != code ==> r.rooms[c] == reg[c]
    ensures code !in reg || reg[code].state != Playing ==> r == Reply(reg, [])
    ensures code in reg && reg[code].state == Playing ==>
              var before := reg[code];
              var after := r.rooms[code];
              && after == before.(players := after.players, state := Results)
              && |after.players| == |before.players|
              && (forall i :: 0 <= i < |before.players| ==>
                    && after.players[i].id == before.players[i].id
                    && after.players[i].name == before.players[i].name
                    && after.players[i].score >= before.players[i].score)
              && r.out == [RoundResult(code, before.roles, after.players)]
  {
    if code !in reg || reg[code].state != Playing then Reply(reg, [])
    else
      var room := reg[code];
      var caught := target == ChorId(room);
      var scored := Award(room.players, room.roles, caught);
      Reply(reg[code := room.(players := scored, state := Results)],
            [RoundResult(code, room.roles, scored)])
  }

  /** Scoring of a dealt round, stated per role: RAJA gains 30 and SIPAHI 50;
      the MANTRI gains 100 and the CHOR nothing exactly when the target is the
      CHOR's id, and the other way round otherwise; the total grows by 180. */
  lemma GuessScoring(reg: Registry, code: Code, target: Option<Id>)
    requires code in reg && reg[code].state == Playing
    requires Dealt(reg[code].players, reg[code].roles)
    ensures var ps := reg[code].players;
            var roles := reg[code].roles;
            var after := ResolveGuess(reg, code, target).rooms[code].players;
            && |after| == |ps|
            && (forall i :: 0 <= i < |ps| && roles[ps[i].id] == Raja ==> after[i].score == ps[i].score + 30)
            && (forall i :: 0 <= i < |ps| && roles[ps[i].id] == Sipahi ==> after[i].score == ps[i].score + 50)
            && (forall m, c :: 0 <= m < |ps| && 0 <= c < |ps| && roles[ps[m].id] == Mantri && roles[ps[c].id] == Chor ==>
                  if target == Some(ps[c].id)
                  then after[m].score == ps[m].score + 100 && after[c].score == ps[c].score
                  else after[m].score == ps[m].score && after[c].score == ps[c].score + 100)
            && TotalScore(after) == TotalScore(ps) + 180
  {
    var room := reg[code];
    var ps := room.players;
    forall i | 0 <= i < |ps|
      ensures ps[i].id in room.roles
    {
      assert ps[i] in ps;
    }
    var k := DealtHasEveryRole(ps, room.roles, Chor);
    FindDealt(ps, room.roles, Chor, k);
    assert ChorId(room) == Some(ps[k].id);
    var caught := target == ChorId(room);
    AwardTotal(ps, room.roles, caught);
    DealtPointsTotal(ps, room.roles, caught);
  }

  /** A second guess in the same round changes nothing: the first moved the
      room out of Playing. */
  lemma GuessOncePerRound(reg: Registry, code: Code, first: Option<Id>, second: Option<Id>)
    ensures var once := ResolveGuess(reg, code, first).rooms;
            ResolveGuess(once, code, second) == Reply(once, [])
  {
  }
}
