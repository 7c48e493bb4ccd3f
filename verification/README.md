# Raja-Mantri-Chor-Sipahi room server, modelled in Dafny

This project models the game server of a four-player Raja-Mantri-Chor-Sipahi
game. The server keeps an in-memory table from room code to room. A room is
`{host, round, state, players, roles}`. Socket events move a room through
`lobby → playing → results → playing …`, and a disconnect sends it back to
`lobby`. The events are `createRoom`, `joinRoom`, `startGame`, `mantriGuess`,
`nextRound` and `disconnect`. The two engine functions are `startRound` and
`resolveGuess`.

Each handler is a pure function. It takes the room table and the sender's
connection id. It returns a `Reply`: the new table and the messages sent.
Randomness is a parameter:

- `CreateRoom` takes the room code that `makeRoomCode` would draw.
- `StartRound`, `StartGame` and `NextRound` take the deck that `shuffle` would
  return. The lemmas that need it require `IsDeck`: some order of RAJA,
  MANTRI, CHOR and SIPAHI.

Modules, one per concern:

- `Rooms` (rooms.dfy): the room record, the messages and the invariants.
  - `WellFormed` is what the handlers keep as written. A room has 1 to 4
    seats and its host is seated. A room that is Playing or showing Results
    has exactly 4 seats, and each role in it goes to a different seated id.
  - `Consistent` adds two things: distinct seats, and roles that are a
    bijection (`Dealt`) once a round has started.
- `Engine` (engine.dfy): `startRound` and `resolveGuess`.
- `Handlers` (handlers.dfy): the six socket handlers. Also `JoinRoomOnce`, a
  join with the seat check added (see Findings).
- `Invariants` (invariants.dfy): each handler keeps the invariants.
- `Session` (session.dfy): the server as one state machine over events, and
  what holds in every reachable table. There are two variants: `Step` for the
  server with the seat-checked join, and `StepAsWritten` for the server as
  written.
- `Findings` (findings.dfy): concrete runs in which one connection holds two
  seats.

Three modelling choices:

- `roles[id] = undefined` happens when a seat lies past the end of the deck.
  It is modelled as the key being absent. Every later lookup compares
  against a role string, and the JSON broadcast drops undefined values.
- The server finds the CHOR's id by searching `Object.keys(roles)`. The
  model searches the seats in order. `Engine.ChorIdIsRolesKey` proves the two
  agree in every well-formed room that is Playing.
- The room table is a plain JavaScript object. A code that is not one of its
  keys but names an inherited property (`constructor`, `__proto__`,
  `toString` and the other `Object.prototype` members, `Rooms.Inherited`)
  looks up a value that is not `undefined`. `joinRoom` then throws on
  `room.players.length`. The other handlers read an undefined field and
  return, as they do for an unknown code.

## Model

| member | source | states |
|---|---|---|
| Rooms.DeckHasNoRepeats | server.js:168-173 | A shuffled pool of the four labels holds no label twice |
| Rooms.DealtHasEveryRole | server.js:175-178 | When four distinct seats are dealt, every label is held by some seat |
| Rooms.FourRolesCoverAll | server.js:168-173 | Four different labels are all four roles |
| Engine.AssignFacts | server.js:164-178 | With at most as many seats as pool slots, the rebuilt roles table has exactly the seated ids as keys. Its values come from the seats' slots. With distinct ids, seat i holds slot i |
| Engine.AssignKeys | server.js:166-176 | The rebuilt table's keys are exactly the seated ids. Each value comes from the dealt slots |
| Engine.AssignSeats | server.js:175-176 | With distinct ids, seat i is recorded with pool slot i |
| Engine.AssignInjective | server.js:166-176 | Dealing from a pool without repeats gives no two ids the same role, even when an id is seated twice |
| Engine.FindWithRole | server.js:180-186 | `players.find` returns the first seat whose recorded role is the one sought, or nothing if no seat holds it |
| Engine.FindDealt | server.js:180-186 | When the roles form a bijection, the search returns the one seat that holds the role |
| Engine.ChorIdIsRolesKey | server.js:199-202 | In a well-formed Playing room, the seat search gives the roles key holding CHOR, and nothing only when no key holds CHOR |
| Engine.AwardTotal | server.js:204-215 | Scoring adds to the total exactly the sum of the seats' points |
| Engine.DealtPointsTotal | server.js:204-215 | With the four labels dealt once each, a round's points sum to 180 whatever the guess |
| Engine.FourRolesPoints | server.js:207-214 | Four different roles earn 30+50+100 points between them, caught or not |
| Engine.StartRound | server.js:160-193 | Nothing changes for an unknown code. Otherwise the round goes up by exactly 1 and the state becomes Playing. Seats, scores and host stay as they were, and no other room changes |
| Engine.StartRoundDeals | server.js:160-192 | With four distinct seats and a shuffled pool, the new roles are a bijection from the seated ids onto the four labels, and seat i holds pool slot i. Each seat is told privately the role recorded for it. The broadcast names the RAJA's and the MANTRI's seats with the new round number |
| Engine.DealFromDeck | server.js:164-178 | Four distinct seats dealt from a shuffled pool get a bijection, seat i holding slot i |
| Engine.ResolveGuess | server.js:195-223 | Nothing changes unless the room exists and is Playing. Otherwise it moves to Results. Seats keep their ids, names and order, no score decreases, roles stay, and the result is broadcast |
| Engine.GuessScoring | server.js:199-215 | In a dealt round RAJA gains 30 and SIPAHI 50. MANTRI gains 100 and CHOR 0 exactly when the target is CHOR's id, and the reverse otherwise. The total grows by 180 |
| Engine.GuessOncePerRound | server.js:197-217 | A second guess in the same round changes nothing and sends nothing |
| Handlers.CreateRoom | server.js:33-53 | The new room has the creator as host and only seat, with score 0, round 0, lobby state and no roles, and it is consistent. Any room under the same code is replaced; other rooms are untouched |
| Handlers.CreateRoomEvicts | server.js:34-42 | When the code collides, every other player of the replaced room loses their seat |
| Handlers.JoinRoom | server.js:58-85 | A code that is no room but names an inherited property throws before anything changes. Otherwise a join is refused with the table unchanged when the code is unknown, when 4 or more are seated, or when the room is not in the lobby, checked in that order. Otherwise exactly one seat with score 0 is appended. Earlier seats keep their order and scores, there are never more than 4 seats, and no other room changes |
| Handlers.JoinRoomOnce | server.js:58-74 | The corrected join refuses a sender already seated in the room and otherwise acts as the join. It keeps seat ids distinct |
| Handlers.StartGame | server.js:91-106 | Nothing happens unless the room exists and the sender is its recorded host. The host is refused unless exactly 4 are seated. The table changes if and only if all three hold |
| Handlers.MantriGuess | server.js:111-113 | The guess goes straight to resolveGuess with only the code and the target |
| Handlers.GuessIgnoresSender | server.js:111-113 | Any connection, seated or not, resolves the round with the same effect |
| Handlers.NextRound | server.js:118-123 | A round starts only in a room showing results. In any other case nothing happens |
| Handlers.WithoutFacts | server.js:135 | The filter keeps exactly the seats of other ids and drops exactly that id. It shortens the list if and only if the id was seated, and keeps ids distinct |
| Handlers.WithoutMembers | server.js:135 | A seat survives the filter if and only if it was seated under another id |
| Handlers.WithoutLength | server.js:134-137 | The filtered list is as long as before if and only if the id was not seated, and then it is unchanged |
| Handlers.WithoutDistinct | server.js:135 | Filtering keeps seat ids distinct |
| Handlers.WithoutAppend | server.js:135 | Filtering a concatenation filters each part, so the remaining seats keep their order |
| Handlers.Leave | server.js:132-151 | A room loses every seat of the connection. If it lost any, the host passes to the first remaining seat when the host left, and the state goes back to lobby. Round and roles stay. An empty room is deleted |
| Handlers.Disconnect | server.js:128-153 | Exactly the rooms with a seat left survive, and each one is its old room after Leave |
| Invariants.SameSeats | server.js:204-215 | Seat lists with the same ids seat by seat seat the same connections |
| Invariants.CreateRoomKeepsWellFormed | server.js:36-42 | Creating a room keeps every room well formed |
| Invariants.CreateRoomKeepsConsistent | server.js:36-42 | Creating a room keeps every room consistent |
| Invariants.JoinRoomKeepsWellFormed | server.js:61-74 | The join guard keeps rooms within 4 seats with the host seated, and joins never reach a started room |
| Invariants.JoinRoomKeepsConsistent | server.js:61-74 | A join keeps every room consistent when the sender is not already seated in that room |
| Invariants.JoinRoomOnceKeepsConsistent | server.js:61-74 | The seat-checked join keeps every room consistent with no condition on the sender |
| Invariants.StartRoundKeepsWellFormed | server.js:160-178 | Dealing a shuffled pool to four seats keeps the table well formed |
| Invariants.StartRoundKeepsConsistent | server.js:160-178 | Dealing a shuffled pool to four distinct seats makes the roles a bijection |
| Invariants.StartGameKeepsWellFormed | server.js:91-106 | startGame keeps every room well formed |
| Invariants.StartGameKeepsConsistent | server.js:91-106 | startGame keeps every room consistent |
| Invariants.NextRoundKeepsWellFormed | server.js:118-123 | nextRound acts only on a room showing results, which has 4 seats, so it keeps the table well formed |
| Invariants.NextRoundKeepsConsistent | server.js:118-123 | nextRound keeps every room consistent |
| Invariants.ResolveGuessKeepsInvariants | server.js:195-217 | Scoring keeps both invariants |
| Invariants.LeaveKeepsInvariants | server.js:132-151 | A room that survives a disconnect still seats its host, has at most 4 seats, and is in the lobby if it lost anyone |
| Invariants.DisconnectKeepsInvariants | server.js:128-153 | disconnect keeps both invariants across the table |
| Session.Step | server.js:27-153 | With the seat-checked join: one socket event handled by its handler. A disconnect sends nothing modelled, and a guess neither adds nor removes rooms |
| Session.StepKeepsConsistent | server.js:27-153 | With the seat-checked join, every event keeps every room consistent |
| Session.RunKeepsConsistent | server.js:27-153 | With the seat-checked join, any sequence of events keeps every room consistent |
| Session.ReachableRooms | server.js:11-25 | With the seat-checked join, in every reachable table a room has 1 to 4 seats and its host is seated. A room that is Playing or showing Results has exactly 4 seats with the roles dealt as a bijection |
| Session.StepAsWritten | server.js:27-153 | The server as written: the join has no seat check, and every other event is handled as in `Step` |
| Session.StepAsWrittenKeepsWellFormed | server.js:27-153 | Every event handled as written keeps every room well formed |
| Session.RunAsWrittenKeepsWellFormed | server.js:27-153 | Any sequence of events handled as written keeps every room well formed |
| Session.ReachableAsWritten | server.js:11-25 | In every table the server as written can reach, a room has 1 to 4 seats and its host is seated. A room that is Playing or showing Results has exactly 4 seats, only seated ids hold roles, and no role is held twice |
| Session.ConsistentStepNeverThrows | server.js:58-64 | In a consistent table, a handler throws if and only if the event is a join to a code that is no room but names an inherited property. In particular, starting a round (server.js:180-186) never throws |
| Session.StartRoundNeverThrows | server.js:180-192 | When four distinct seats are dealt, the lookups of the RAJA's and MANTRI's names always succeed |
| Findings.DoubleSeatedJoins | server.js:58-74 | A connection that joins its own room is admitted to a second seat |
| Findings.DoubleSeatedDeal | server.js:164-178 | With the same id in two seats, the second assignment overwrites the first, so RAJA is lost |
| Findings.DuplicateSeatThrows | server.js:160-186 | With one id in two seats, starting the game leaves the room Playing with only three roles, and the RAJA name lookup throws |
| Findings.DoubleSeatedDealsChorTwice | server.js:164-178 | Dealt the pool SIPAHI, CHOR, RAJA, MANTRI, the second seat of the doubled id overwrites SIPAHI with CHOR |
| Findings.ChorTwiceLookups | server.js:180-186 | Under that table the RAJA, MANTRI and CHOR searches each find a seat |
| Findings.DuplicateSeatStartsQuietly | server.js:160-193 | With that pool the double-seated game starts without throwing, and both seats of one id hold CHOR |
| Findings.StartChorTwice | server.js:160-193 | startRound on the double-seated lobby room with that pool sends no throw and leaves that roles table |
| Findings.DuplicateSeatMispays | server.js:195-217 | The guess in that round adds 130 points when the CHOR is caught and 230 when it escapes, never 180 |
| Findings.GuessOnChorTwice | server.js:195-217 | resolveGuess on that room gives the caught or escaped scores, depending on whether the target is the doubled id |
| Findings.AwardChorTwice | server.js:204-215 | Seat by seat, both seats of the doubled id are paid as the CHOR |
| Findings.ChorTwiceTotals | server.js:204-215 | The two outcomes add 130 and 230 points |
| Findings.SeatCheckRefusesSecondSeat | server.js:58-74 | With the seat check, the second join by the same connection is refused |

## Left out

- Socket.io and Express plumbing is not modelled: joining broadcast groups, static file serving, `server.listen` and console logging. Outbound messages are an abstract list in each `Reply`.
- `makeRoomCode` and `shuffle` depend on `Math.random`, so their results are parameters. The bias of sorting with a random comparator is not modelled. Only "the pool is some order of the four labels" is assumed, where a lemma needs it.
- Handlers.Disconnect: returns no messages. The server sends `playerList` and `waitingStatus` to each room that lost a seat. These carry the room's new seats and count, in the order JavaScript walks the table's keys.
- `makeRoomCode` draws upper-case base-36 codes. None of them names an inherited property, so `CreateRoom` treats every code as a key of its own. Assigning to `rooms["__proto__"]` would replace the prototype instead of adding a room, and that case is not modelled.
- Throwing is modelled as a `Threw` message after the changes already made to the room. Whether the exception stops the process is not modelled.
- Payloads are modelled as strings plus an optional target id. Non-string JSON values, and a missing payload object that makes destructuring throw, are not modelled.
- Scores and round numbers are unbounded naturals. JavaScript numbers lose precision past 2^53, and that limit is not modelled.
- The client (`public/script.js`) is not modelled. It renders cards and sends events, and its points table only mirrors the server's scoring.
- Round history, chat and name trimming are not modelled because `server.js` does not implement them.

## Findings

| source | as written | input that shows it | evidently intended | confidence | as-written member | corrected member |
|---|---|---|---|---|---|---|
| server.js:64-74 | `joinRoom` appends a seat without checking whether the sending connection is already seated | "a" creates room ABCDE and joins it again, then "b" and "c" join. If "a" starts with pool RAJA, MANTRI, CHOR, SIPAHI, the roles become {a: MANTRI, b: CHOR, c: SIPAHI}, so the RAJA name lookup throws. With pool SIPAHI, CHOR, RAJA, MANTRI, the roles become {a: CHOR, b: RAJA, c: MANTRI}. Nothing throws, and the guess adds 130 points (CHOR caught) or 230 (CHOR escapes), not 180 | A connection holds at most one seat, so each round deals the four roles as a bijection | not executed; high that the run behaves as shown | Findings.DuplicateSeatThrows, Findings.DuplicateSeatMispays | Handlers.JoinRoomOnce |

`Session.Step` routes joins through `Handlers.JoinRoomOnce`.
`Session.StepAsWritten` routes them through `Handlers.JoinRoom`. For that server, `Session.ReachableAsWritten` keeps every property except the one-to-one deal.
`Session.RunKeepsConsistent` and `Session.ConsistentStepNeverThrows` are proved for that corrected server.
`Invariants.JoinRoomKeepsConsistent` shows the same invariant for the join as written, as long as the sender is not already seated.
