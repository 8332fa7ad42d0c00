# La Liga match tracker: the match registry

The backend of this tracker is a small REST API that records football matches
and their events. All of its logic lives in one in-memory registry. The
registry is a table of `Match` records keyed by integer ID, plus a `nextID`
counter that hands out IDs from 1 upward. It offers nine operations: list,
get, create, update, delete, register a goal, register a yellow card,
register a red card, and set extra time. One mutex makes each change to the
registry atomic.

This project models that registry as an immutable value
`Registry(matches: map<int, Match>, nextID: int)`. Each operation is a pure
transition that returns either `NotFound` or the new registry together with
the record it answers with.

- `results.dfy`: the `Result` type, `Ok(value)` or `NotFound`.
- `match.dfy`: the `Match` record, plus predicates relating two versions of a
  record.
- `registry.dfy`: the registry, its invariant `Valid`, and the
  operations.
  - `Valid` says every key lies in `1 .. nextID-1`.
  - It says each record's `id` equals its key.
  - It says no counter is negative.
- `listing.dfy`: listing as a method. It visits the keys in any order, as a
  walk over Go's map may.
- `machine.dfy`: the operations as one state machine, `Step` and `Run`, and
  lemmas about single steps and whole runs.

The operations accept any registry, as the Go handlers do. For each one,
`Valid` is shown to be preserved, stated as an implication.

## Model

| member | source | states |
|---|---|---|
| `MatchRegistry.Init` | Backend/main.go:41-45 | The starting registry is empty, its first ID is 1, and it satisfies the registry invariant. |
| `MatchRegistry.Get` | Backend/main.go:67-72 | Get signals NotFound exactly when the ID is not stored. Otherwise it returns exactly the record stored under that ID. In a valid registry that record carries the requested ID and non-negative counters. |
| `MatchRegistry.Create` | Backend/main.go:85-93 | The new record takes the old `nextID` as its ID, and `nextID` rises by exactly 1. Goals, yellow cards and red cards are 0 and extra time is false, whatever the input carried. Teams and date come from the input. The key set gains exactly that ID and no other entry changes. In a valid registry the ID was not already a key, and validity is kept. |
| `MatchRegistry.Update` | Backend/main.go:113-123 | Update signals NotFound exactly when the ID is absent. Otherwise only home team, away team and date change, and they take the input's values. The ID, the three counters, extra time, every other entry and `nextID` stay the same, and validity is kept. |
| `MatchRegistry.Delete` | Backend/main.go:136-143 | Delete signals NotFound exactly when the ID is absent. Otherwise exactly that key is removed, other entries and `nextID` are unchanged, and validity is kept. |
| `MatchRegistry.RegisterGoal` | Backend/main.go:155-163 | RegisterGoal signals NotFound exactly when the ID is absent. Otherwise goals rise by exactly 1 and nothing else in the record, in other entries or in `nextID` changes. Validity is kept. |
| `MatchRegistry.RegisterYellowCard` | Backend/main.go:176-184 | RegisterYellowCard signals NotFound exactly when the ID is absent. Otherwise yellow cards rise by exactly 1 and nothing else changes. Validity is kept. |
| `MatchRegistry.RegisterRedCard` | Backend/main.go:197-205 | RegisterRedCard signals NotFound exactly when the ID is absent. Otherwise red cards rise by exactly 1 and nothing else changes. Validity is kept. |
| `MatchRegistry.SetExtraTime` | Backend/main.go:218-226 | SetExtraTime signals NotFound exactly when the ID is absent. Otherwise the flag is true and nothing else changes. Validity is kept. |
| `Listing.ListMatches` | Backend/main.go:49-54 | The list has one record per stored key: as many records as keys, each read from a distinct key, and every key's record appears. Every listed record is a stored value, and in a valid registry the listed IDs are pairwise distinct. No order is promised. |
| `Machine.StepPreservesValid` | Backend/main.go:85-226 | Every operation keeps the invariant. Only create moves `nextID`, and by exactly 1. An operation that answers NotFound leaves the registry exactly as it was. |
| `Machine.StepProgresses` | Backend/main.go:85-226 | In a valid registry, no operation lowers a counter of a match that remains stored, clears its extra-time flag, or changes its ID. |
| `Machine.RunPreservesValid` | Backend/main.go:85-93 | After any sequence of operations from a valid registry, the registry is valid. `nextID` has grown by exactly the number of creations. |
| `Machine.IssuedFresh` | Backend/main.go:86-87 | Over any run, the IDs that creations hand out are strictly increasing. All lie in `[old nextID, final nextID)`, so none was a key before the run: IDs are never reused. |
| `Machine.DeletedStaysGone` | Backend/main.go:136-143 | An allocated ID that is no longer stored stays absent after any further operations. Deletion is final and the ID is not reused. |
| `Machine.RunProgresses` | Backend/main.go:155-226 | Over any run, a match stored at the start and at the end keeps its ID and has no lower counter. Once its extra-time flag is true it stays true. |
| `Machine.GoalsAccumulate` | Backend/main.go:162 | N goal registrations on a stored match raise its goals by exactly N. The rest of the record, every other entry and `nextID` are unchanged. |
| `Machine.YellowCardsAccumulate` | Backend/main.go:183 | N yellow-card registrations raise yellow cards by exactly N. The rest of the record, every other entry and `nextID` are unchanged. |
| `Machine.RedCardsAccumulate` | Backend/main.go:204 | N red-card registrations raise red cards by exactly N. The rest of the record, every other entry and `nextID` are unchanged. |
| `Machine.CreateThenGoals` | Backend/main.go:85-163 | Create a match, then register N goals on it. Reading it back gives exactly N goals, zero cards and no extra time. |
| `Machine.ExtraTimeIdempotent` | Backend/main.go:225 | Setting extra time a second time changes neither the registry nor the answer. |
| `Machine.DeleteThenGetThenCreate` | Backend/main.go:136-143 | After deleting an ID, getting it answers NotFound, and the next creation hands out a different ID. |
| `Machine.Scenario` | Backend/main.go:85-143 | Walk-through from an empty registry. Creating A v B gives ID 1 with zero counters. Two goals make goals 2. Deleting ID 1 succeeds, and getting ID 1 then answers NotFound. The next creation gets ID 2. |

## Left out

- HTTP routing, status codes, response headers and writing, the welcome route and server startup (Backend/main.go:48-263 outside the registry bodies): I/O plumbing. NotFound stands for the 404 answers; the 201/204/200 codes are not modelled.
- JSON decoding of request bodies and the 400 answers for malformed bodies (Backend/main.go:81-84, 109-112): a foreign library. Create and Update take an already-decoded `Match`.
- JSON encoding of answers. One consequence is not modelled: listing an empty registry encodes Go's nil slice as `null`, not `[]`.
- Parsing the path ID with `strconv.Atoi` and its 400 answers: a library wrapper. The operations take an `int` ID.
- The mutex and concurrency. The lock makes each state change atomic, and each operation is modelled as one atomic step. Replies are modelled as the state right after that step. In Go, seven handlers encode a shared record after `mu.Unlock()`, so under concurrent requests the reply can show a later state: `getMatch` (Backend/main.go:69, 75), `createMatch` (93-94, 97), `updateMatch` (123, 125), `registerGoal` (163, 165), `registerYellowCard` (184, 186), `registerRedCard` (205, 207) and `setExtraTime` (226, 228). That difference is not modelled.
- The CORS middleware and the OPTIONS handler (Backend/main.go:14-27, 238-243): no registry logic.
- Go's fixed-width `int`: IDs and counters are unbounded integers, so `nextID++` and the counter increments never wrap around here.
- Listing is not part of the `Machine.Op` state machine. It does not change the registry, and its order is chosen freely, so it is modelled only as the method `Listing.ListMatches`.
