/** The in-memory match registry: the table of stored matches keyed by ID and
    the allocator of the next ID. Every operation is one atomic transition from
    a registry value to a new one (the Go server serialises them with a single
    mutex). The operations are total: like the handlers in main.go, they accept
    any registry, and `Valid` is the invariant they all preserve. */
module MatchRegistry {
  import opened Results
  import opened MatchRecord

  datatype Registry = Registry(matches: map<int, Match>, nextID: int)

  /** A successful mutation: the registry after it and the record it returns. */
  datatype Updated = Updated(next: Registry, record: Match)

  /** The registry invariant: IDs are allocated from 1 upward, every key was
      already allocated, each record carries its own key as ID, and no counter
      is negative. */
  predicate Valid(r: Registry) {
    && r.nextID >= 1
    && forall k :: k in r.matches ==>
         && 1 <= k < r.nextID
         && r.matches[k].id == k
         && CountersNonNegative(r.matches[k])
  }

  /** Outside key `id`, maps `a` and `b` hold the same keys with the same records. */
  ghost predicate SameElsewhere(a: map<int, Match>, b: map<int, Match>, id: int) {
    forall k :: k != id ==> (k in a <==> k in b) && (k in a ==> a[k] == b[k])
  }

  /** The registry at process start: no matches, first ID 1. */
  function Init(): (r: Registry)
    ensures Valid(r)
    ensures |r.matches| == 0
    ensures r.nextID == 1
  {
    Registry(map[], 1)
  }

  /** Look up the match stored under `id`. */
  function Get(r: Registry, id: int): (res: Result<Match>)
    ensures res.NotFound? <==> id !in r.matches
    ensures res.Ok? ==> res.value == r.matches[id]
    ensures res.Ok? ==> res.value in r.matches.Values
    ensures res.Ok? && Valid(r) ==> res.value.id == id && CountersNonNegative(res.value)
  {
    if id in r.matches then Ok(r.matches[id]) else NotFound
  }

  /** Store a new match built from `input`: it takes the next ID and starts with
      zero counters and no extra time, whatever `input` carried in those
      fields; only the teams and the date come from `input`. */
  function Create(r: Registry, input: Match): (res: Updated)
    ensures res.record.id == r.nextID
    ensures res.record.homeTeam == input.homeTeam
    ensures res.record.awayTeam == input.awayTeam
    ensures res.record.matchDate == input.matchDate
    ensures res.record.goals == 0 && res.record.yellowCards == 0 && res.record.redCards == 0
    ensures !res.record.extraTime
    ensures res.next.nextID == r.nextID + 1
    ensures res.next.matches.Keys == r.matches.Keys + {r.nextID}
    ensures r.nextID in res.next.matches && res.next.matches[r.nextID] == res.record
    ensures SameElsewhere(r.matches, res.next.matches, r.nextID)
    ensures Valid(r) ==> r.nextID !in r.matches && Valid(res.next)
  {
    var m := Match(r.nextID, input.homeTeam, input.awayTeam, input.matchDate, 0, 0, 0, false);
    Updated(Registry(r.matches[r.nextID := m], r.nextID + 1), m)
  }

  /** Replace the stored record under `id` by `m`, keeping `nextID`. */
  function Store(r: Registry, id: int, m: Match): Updated
    requires id in r.matches
  {
    Updated(r.(matches := r.matches[id := m]), m)
  }

  /** Overwrite the teams and the date of the match under `id` with those of
      `fields`; the ID, the counters and the extra-time flag stay as stored. */
  function Update(r: Registry, id: int, fields: Match): (res: Result<Updated>)
    ensures res.NotFound? <==> id !in r.matches
    ensures res.Ok? ==>
      && id in res.value.next.matches
      && res.value.next.matches[id] == res.value.record
      && SameExceptIdentity(r.matches[id], res.value.record)
      && res.value.record.homeTeam == fields.homeTeam
      && res.value.record.awayTeam == fields.awayTeam
      && res.value.record.matchDate == fields.matchDate
      && SameElsewhere(r.matches, res.value.next.matches, id)
      && res.value.next.nextID == r.nextID
    ensures res.Ok? && Valid(r) ==> Valid(res.value.next)
  {
    if id !in r.matches then NotFound
    else
      var m := r.matches[id];
      Ok(Store(r, id, m.(homeTeam := fields.homeTeam, awayTeam := fields.awayTeam, matchDate := fields.matchDate)))
  }

  /** Remove the match under `id`. Its ID is not handed out again, since
      `nextID` does not move back. */
  function Delete(r: Registry, id: int): (res: Result<Registry>)
    ensures res.NotFound? <==> id !in r.matches
    ensures res.Ok? ==>
      && res.value.matches.Keys == r.matches.Keys - {id}
      && SameElsewhere(r.matches, res.value.matches, id)
      && res.value.nextID == r.nextID
    ensures res.Ok? && Valid(r) ==> Valid(res.value)
  {
    if id !in r.matches then NotFound
    else Ok(r.(matches := r.matches - {id}))
  }

  /** Record one goal for the match under `id`. */
  function RegisterGoal(r: Registry, id: int): (res: Result<Updated>)
    ensures res.NotFound? <==> id !in r.matches
    ensures res.Ok? ==>
      && id in res.value.next.matches
      && res.value.next.matches[id] == res.value.record
      && res.value.record.goals == r.matches[id].goals + 1
      && res.value.record == r.matches[id].(goals := res.value.record.goals)
      && SameElsewhere(r.matches, res.value.next.matches, id)
      && res.value.next.nextID == r.nextID
    ensures res.Ok? && Valid(r) ==> Valid(res.value.next)
  {
    if id !in r.matches then NotFound
    else
      var m := r.matches[id];
      Ok(Store(r, id, m.(goals := m.goals + 1)))
  }

  /** Record one yellow card for the match under `id`. */
  function RegisterYellowCard(r: Registry, id: int): (res: Result<Updated>)
    ensures res.NotFound? <==> id !in r.matches
    ensures res.Ok? ==>
      && id in res.value.next.matches
      && res.value.next.matches[id] == res.value.record
      && res.value.record.yellowCards == r.matches[id].yellowCards + 1
      && res.value.record == r.matches[id].(yellowCards := res.value.record.yellowCards)
      && SameElsewhere(r.matches, res.value.next.matches, id)
      && res.value.next.nextID == r.nextID
    ensures res.Ok? && Valid(r) ==> Valid(res.value.next)
  {
    if id !in r.matches then NotFound
    else
      var m := r.matches[id];
      Ok(Store(r, id, m.(yellowCards := m.yellowCards + 1)))
  }

  /** Record one red card for the match under `id`. */
  function RegisterRedCard(r: Registry, id: int): (res: Result<Updated>)
    ensures res.NotFound? <==> id !in r.matches
    ensures res.Ok? ==>
      && id in res.value.next.matches
      && res.value.next.matches[id] == res.value.record
      && res.value.record.redCards == r.matches[id].redCards + 1
      && res.value.record == r.matches[id].(redCards := res.value.record.redCards)
      && SameElsewhere(r.matches, res.value.next.matches, id)
      && res.value.next.nextID == r.nextID
    ensures res.Ok? && Valid(r) ==> Valid(res.value.next)
  {
    if id !in r.matches then NotFound
    else
      var m := r.matches[id];
      Ok(Store(r, id, m.(redCards := m.redCards + 1)))
  }

  /** Mark the match under `id` as having gone to extra time. */
  function SetExtraTime(r: Registry, id: int): (res: Result<Updated>)
    ensures res.NotFound? <==> id !in r.matches
    ensures res.Ok? ==>
      && id in res.value.next.matches
      && res.value.next.matches[id] == res.value.record
      && res.value.record.extraTime
      && res.value.record == r.matches[id].(extraTime := true)
      && SameElsewhere(r.matches, res.value.next.matches, id)
      && res.value.next.nextID == r.nextID
    ensures res.Ok? && Valid(r) ==> Valid(res.value.next)
  {
    if id !in r.matches then NotFound
    else Ok(Store(r, id, r.matches[id].(extraTime := true)))
  }
}
