/** The registry as a state machine over the requests the HTTP layer forwards
    to it, with properties of single steps and of whole runs. Listing is left
    out of `Op`: it reads the registry and never changes it (see `Listing`). */
module Machine {
  import opened Results
  import opened MatchRecord
  import opened MatchRegistry

  datatype Op =
    | GetOp(id: int)
    | CreateOp(input: Match)
    | UpdateOp(id: int, fields: Match)
    | DeleteOp(id: int)
    | GoalOp(id: int)
    | YellowCardOp(id: int)
    | RedCardOp(id: int)
    | ExtraTimeOp(id: int)

  /** What a request answers: a record, nothing (a deletion), or NotFound. */
  datatype Reply = Record(m: Match) | Deleted | Missing

  /** The registry and answer after a mutation that may have found no match. */
  function ReplyOf(res: Result<Updated>, r: Registry): (Registry, Reply) {
    match res
    case Ok(u) => (u.next, Record(u.record))
    case NotFound => (r, Missing)
  }

  /** One request applied atomically to the registry. */
  function Step(r: Registry, op: Op): (Registry, Reply) {
    match op
    case GetOp(id) =>
      (match Get(r, id) case Ok(m) => (r, Record(m)) case NotFound => (r, Missing))
    case CreateOp(input) =>
      var u := Create(r, input); (u.next, Record(u.record))
    case UpdateOp(id, fields) => ReplyOf(Update(r, id, fields), r)
    case DeleteOp(id) =>
      (match Delete(r, id) case Ok(r') => (r', Deleted) case NotFound => (r, Missing))
    case GoalOp(id) => ReplyOf(RegisterGoal(r, id), r)
    case YellowCardOp(id) => ReplyOf(RegisterYellowCard(r, id), r)
    case RedCardOp(id) => ReplyOf(RegisterRedCard(r, id), r)
    case ExtraTimeOp(id) => ReplyOf(SetExtraTime(r, id), r)
  }

  /** The registry after the requests `ops`, one after the other. */
  function Run(r: Registry, ops: seq<Op>): Registry
    decreases |ops|
  {
    if |ops| == 0 then r else Run(Step(r, ops[0]).0, ops[1..])
  }

  /** The IDs the creations among `ops` hand out, in order. */
  function Issued(r: Registry, ops: seq<Op>): seq<int>
    decreases |ops|
  {
    if |ops| == 0 then []
    else
      (if ops[0].CreateOp? then [r.nextID] else []) + Issued(Step(r, ops[0]).0, ops[1..])
  }

  /** Every request keeps the registry valid, never moves `nextID` back, and
      only a creation moves it at all. A request that answers NotFound leaves
      the registry exactly as it was. */
  lemma StepPreservesValid(r: Registry, op: Op)
    requires Valid(r)
    ensures Valid(Step(r, op).0)
    ensures Step(r, op).0.nextID == if op.CreateOp? then r.nextID + 1 else r.nextID
    ensures Step(r, op).1.Missing? ==> Step(r, op).0 == r
  {
  }

  /** In a valid registry no request lowers a counter of a match that stays
      stored, or clears its extra-time flag: only creation produces a record
      with the flag down, and creation never touches an existing key. */
  lemma StepProgresses(r: Registry, op: Op, k: int)
    requires Valid(r)
    requires k in r.matches && k in Step(r, op).0.matches
    ensures Progressed(r.matches[k], Step(r, op).0.matches[k])
  {
  }

  /** Validity holds after any run from a valid registry, and `nextID` grows by
      exactly the number of creations in the run. */
  lemma {:induction false} RunPreservesValid(r: Registry, ops: seq<Op>)
    requires Valid(r)
    ensures Valid(Run(r, ops))
    ensures Run(r, ops).nextID == r.nextID + |Issued(r, ops)|
    decreases |ops|
  {
    if |ops| > 0 {
      StepPreservesValid(r, ops[0]);
      RunPreservesValid(Step(r, ops[0]).0, ops[1..]);
    }
  }

  /** IDs are never reused: the IDs a run hands out are strictly increasing,
      all at least the `nextID` it started from (so none was a key before the
      run, deleted or not) and all below the `nextID` it ends with. */
  lemma {:induction false} IssuedFresh(r: Registry, ops: seq<Op>)
    requires Valid(r)
    ensures forall i :: 0 <= i < |Issued(r, ops)| ==>
      r.nextID <= Issued(r, ops)[i] < Run(r, ops).nextID
    ensures forall i :: 0 <= i < |Issued(r, ops)| ==> Issued(r, ops)[i] !in r.matches
    ensures forall i, j :: 0 <= i < j < |Issued(r, ops)| ==> Issued(r, ops)[i] < Issued(r, ops)[j]
    decreases |ops|
  {
    if |ops| > 0 {
      var r1 := Step(r, ops[0]).0;
      StepPreservesValid(r, ops[0]);
      IssuedFresh(r1, ops[1..]);
      RunPreservesValid(r1, ops[1..]);
      var head := if ops[0].CreateOp? then [r.nextID] else [];
      var tail := Issued(r1, ops[1..]);
      assert Issued(r, ops) == head + tail;
      assert r.nextID <= r1.nextID;
      assert forall i :: 0 <= i < |tail| ==> r1.nextID <= tail[i];
      if ops[0].CreateOp? {
        assert r1.nextID == r.nextID + 1;
      }
    }
  }

  /** An allocated ID that is no longer stored (it was deleted) never comes
      back, whatever requests follow. */
  lemma {:induction false} DeletedStaysGone(r: Registry, ops: seq<Op>, k: int)
    requires Valid(r)
    requires k < r.nextID && k !in r.matches
    ensures k !in Run(r, ops).matches
    decreases |ops|
  {
    if |ops| > 0 {
      var r1 := Step(r, ops[0]).0;
      StepPreservesValid(r, ops[0]);
      assert k !in r1.matches;
      DeletedStaysGone(r1, ops[1..], k);
    }
  }

  /** Over any run, a match stored at its start and at its end has no counter
      lower and, once its extra-time flag was raised, still has it raised. */
  lemma {:induction false} RunProgresses(r: Registry, ops: seq<Op>, k: int)
    requires Valid(r)
    requires k in r.matches && k in Run(r, ops).matches
    ensures Progressed(r.matches[k], Run(r, ops).matches[k])
    decreases |ops|
  {
    if |ops| > 0 {
      var r1 := Step(r, ops[0]).0;
      StepPreservesValid(r, ops[0]);
      if k !in r1.matches {
        DeletedStaysGone(r1, ops[1..], k);
        assert false;
      }
      StepProgresses(r, ops[0], k);
      RunProgresses(r1, ops[1..], k);
    }
  }

  /** `n` copies of the request `op`. */
  function Repeat(op: Op, n: nat): (ops: seq<Op>)
    ensures |ops| == n
    ensures forall i :: 0 <= i < n ==> ops[i] == op
  {
    if n == 0 then [] else [op] + Repeat(op, n - 1)
  }

  /** Registering `n` goals for a stored match raises its goal count by exactly
      `n` and changes nothing else in that record or in the registry. */
  lemma {:induction false} GoalsAccumulate(r: Registry, id: int, n: nat)
    requires id in r.matches
    ensures id in Run(r, Repeat(GoalOp(id), n)).matches
    ensures Run(r, Repeat(GoalOp(id), n)).matches[id]
      == r.matches[id].(goals := r.matches[id].goals + n)
    ensures SameElsewhere(r.matches, Run(r, Repeat(GoalOp(id), n)).matches, id)
    ensures Run(r, Repeat(GoalOp(id), n)).nextID == r.nextID
    decreases n
  {
    if n > 0 {
      var ops := Repeat(GoalOp(id), n);
      assert ops[1..] == Repeat(GoalOp(id), n - 1);
      var r1 := Step(r, GoalOp(id)).0;
      GoalsAccumulate(r1, id, n - 1);
    }
  }

  /** Registering `n` yellow cards raises that count by exactly `n`; nothing
      else in the registry changes. */
  lemma {:induction false} YellowCardsAccumulate(r: Registry, id: int, n: nat)
    requires id in r.matches
    ensures id in Run(r, Repeat(YellowCardOp(id), n)).matches
    ensures Run(r, Repeat(YellowCardOp(id), n)).matches[id]
      == r.matches[id].(yellowCards := r.matches[id].yellowCards + n)
    ensures Run(r, Repeat(YellowCardOp(id), n)).nextID == r.nextID
    ensures SameElsewhere(r.matches, Run(r, Repeat(YellowCardOp(id), n)).matches, id)
    decreases n
  {
    if n > 0 {
      var ops := Repeat(YellowCardOp(id), n);
      assert ops[1..] == Repeat(YellowCardOp(id), n - 1);
      YellowCardsAccumulate(Step(r, YellowCardOp(id)).0, id, n - 1);
    }
  }

  /** Registering `n` red cards raises that count by exactly `n`; nothing
      else in the registry changes. */
  lemma {:induction false} RedCardsAccumulate(r: Registry, id: int, n: nat)
    requires id in r.matches
    ensures id in Run(r, Repeat(RedCardOp(id), n)).matches
    ensures Run(r, Repeat(RedCardOp(id), n)).matches[id]
      == r.matches[id].(redCards := r.matches[id].redCards + n)
    ensures Run(r, Repeat(RedCardOp(id), n)).nextID == r.nextID
    ensures SameElsewhere(r.matches, Run(r, Repeat(RedCardOp(id), n)).matches, id)
    decreases n
  {
    if n > 0 {
      var ops := Repeat(RedCardOp(id), n);
      assert ops[1..] == Repeat(RedCardOp(id), n - 1);
      RedCardsAccumulate(Step(r, RedCardOp(id)).0, id, n - 1);
    }
  }

  /** A freshly created match that then receives `n` goals reads back with
      exactly `n` goals and every other counter still zero. */
  lemma CreateThenGoals(r: Registry, input: Match, n: nat)
    ensures var id := r.nextID;
      var r' := Run(r, [CreateOp(input)] + Repeat(GoalOp(id), n));
      && Get(r', id).Ok?
      && Get(r', id).value.goals == n
      && Get(r', id).value.yellowCards == 0
      && Get(r', id).value.redCards == 0
      && !Get(r', id).value.extraTime
  {
    var id := r.nextID;
    var ops := [CreateOp(input)] + Repeat(GoalOp(id), n);
    assert ops[1..] == Repeat(GoalOp(id), n);
    var r1 := Step(r, CreateOp(input)).0;
    GoalsAccumulate(r1, id, n);
  }

  /** Setting extra time twice is the same as setting it once. */
  lemma ExtraTimeIdempotent(r: Registry, id: int)
    requires id in r.matches
    ensures var once := Step(r, ExtraTimeOp(id));
      Step(once.0, ExtraTimeOp(id)) == once
  {
    var once := Step(r, ExtraTimeOp(id));
    var m := r.matches[id].(extraTime := true);
    assert once.0.matches == r.matches[id := m];
    assert once.0.matches[id := m] == once.0.matches;
  }

  /** After a deletion the ID reads as NotFound, and a later creation does not
      hand it out again. */
  lemma DeleteThenGetThenCreate(r: Registry, id: int, input: Match)
    requires Valid(r) && id in r.matches
    ensures var r1 := Step(r, DeleteOp(id)).0;
      && Step(r1, GetOp(id)).1.Missing?
      && Step(r1, CreateOp(input)).1.m.id != id
  {
  }

  /** The walk-through: create A v B (ID 1, no goals), two goals, delete ID 1,
      read ID 1 (NotFound), create again (ID 2, not 1). */
  lemma Scenario(a: Match, b: Match)
    requires a.homeTeam == "A" && a.awayTeam == "B" && a.matchDate == "2024-01-01"
    ensures var r1 := Step(Init(), CreateOp(a));
      && r1.1 == Record(Match(1, "A", "B", "2024-01-01", 0, 0, 0, false))
      && var r2 := Step(r1.0, GoalOp(1));
      && var r3 := Step(r2.0, GoalOp(1));
      && r3.1.Record? && r3.1.m.goals == 2
      && var r4 := Step(r3.0, DeleteOp(1));
      && r4.1 == Deleted
      && Step(r4.0, GetOp(1)).1 == Missing
      && Step(r4.0, CreateOp(b)).1.m.id == 2
  {
  }
}
